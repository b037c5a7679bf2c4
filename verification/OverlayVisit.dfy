/**
 Overlay sites: the outermost overlay nodes of a source file, found by one visit of its tree.
 */
module OverlayVisit {
  import opened Outcomes
  import opened OverlaySyntax

  /** Local names bound to overlay primitives, and namespaces with their primitive members. */
  datatype Bindings = Bindings(components: set<string>, namespaces: map<string, set<string>>)

  /** The bindings of a file, and its constants that hold the popover token. */
  datatype Context = Context(regexes: Regexes, bindings: Bindings, popovers: set<string>)

  datatype SiteKind =
    | PortalCall
    | Primitive(tag: seq<string>)
    | ModalMarkup(tag: seq<string>)
    | Popover(tag: seq<string>)

  datatype Site = Site(at: Pos, kind: SiteKind)

  predicate IsPrimitive(b: Bindings, tag: seq<string>) {
    || (|tag| == 1 && tag[0] in b.components)
    || (|tag| > 1 && tag[0] in b.namespaces && tag[1] in b.namespaces[tag[0]])
  }

  predicate Painted(regexes: Regexes, popovers: set<string>, className: Option<Code>) {
    className.Some? &&
    var text := TextOf(className.value);
    regexes.popover(text) || exists name :: name in popovers && regexes.mentions(name, text)
  }

  /** What makes a node an overlay, in the order the visit asks. */
  function Classify(ctx: Context, f: Form): Option<SiteKind> {
    match f
    case Call(_, _) => if IsPortal(f) then Some(PortalCall) else None
    case Element(tag, _, _, className) =>
      if IsPrimitive(ctx.bindings, tag) then Some(Primitive(tag))
      else if ReadsModal(f) then Some(ModalMarkup(tag))
      else if Painted(ctx.regexes, ctx.popovers, className) then Some(Popover(tag))
      else None
    case Other => None
  }

  /** The sites at and below a node at position `at`. */
  function Outermost(ctx: Context, n: Node, at: Pos): seq<Site>
    decreases n
  {
    match Classify(ctx, n.form)
    case Some(kind) => [Site(at, kind)]
    case None => OutermostAll(ctx, n.children, at, 0)
  }

  /** The sites of sibling nodes, the first of which is child `i` of the node at `at`. */
  function OutermostAll(ctx: Context, ns: seq<Node>, at: Pos, i: nat): seq<Site>
    decreases ns
  {
    if ns == [] then []
    else Outermost(ctx, ns[0], at + [i]) + OutermostAll(ctx, ns[1..], at, i + 1)
  }

  // ---- The visit ----

  class Collector {
    const ctx: Context
    var sites: seq<Site>

    constructor (ctx: Context)
      ensures this.ctx == ctx && sites == []
    {
      this.ctx := ctx;
      sites := [];
    }

    method Visit(n: Node, at: Pos)
      modifies this
      ensures sites == old(sites) + Outermost(ctx, n, at)
      decreases n
    {
      match Classify(ctx, n.form) {
        case Some(kind) =>
          sites := sites + [Site(at, kind)];
          return;
        case None =>
      }
      var i := 0;
      while i < |n.children|
        invariant 0 <= i <= |n.children|
        invariant sites + OutermostAll(ctx, n.children[i..], at, i) ==
                  old(sites) + OutermostAll(ctx, n.children, at, 0)
      {
        ghost var rest := OutermostAll(ctx, n.children[i + 1..], at, i + 1);
        assert n.children[i..][0] == n.children[i] && n.children[i..][1..] == n.children[i + 1..];
        assert forall a: seq<Site>, b, c :: (a + b) + c == a + (b + c);
        Visit(n.children[i], at + [i]);
        i := i + 1;
      }
    }
  }

  // ---- The sites are exactly the outermost overlay nodes ----

  predicate OverlayAt(ctx: Context, root: Node, pos: Pos) {
    At(root, pos).Some? && Classify(ctx, At(root, pos).value.form).Some?
  }

  /** An overlay node with no overlay node above it. */
  ghost predicate OutermostAt(ctx: Context, root: Node, pos: Pos) {
    OverlayAt(ctx, root, pos) && forall k :: 0 <= k < |pos| ==> !OverlayAt(ctx, root, pos[..k])
  }

  ghost function SiteAt(ctx: Context, root: Node, at: Pos, pos: Pos): Site
    requires OverlayAt(ctx, root, pos)
  {
    Site(at + pos, Classify(ctx, At(root, pos).value.form).value)
  }

  /** `OutermostAt` of a node that is no overlay itself is `OutermostAt` of a child. */
  lemma OutermostBelow(ctx: Context, n: Node, i: nat, tail: Pos)
    requires Classify(ctx, n.form).None? && i < |n.children|
    ensures OutermostAt(ctx, n, [i] + tail) <==> OutermostAt(ctx, n.children[i], tail)
  {
    var pos := [i] + tail;
    assert pos[1..] == tail;
    forall k | 0 <= k <= |tail|
      ensures OverlayAt(ctx, n, pos[..k + 1]) <==> OverlayAt(ctx, n.children[i], tail[..k])
    {
      assert pos[..k + 1][1..] == tail[..k];
    }
    assert pos[..|tail| + 1] == pos && tail[..|tail|] == tail;
    if OutermostAt(ctx, n, pos) {
      forall k | 0 <= k < |tail| ensures !OverlayAt(ctx, n.children[i], tail[..k]) {
        assert !OverlayAt(ctx, n, pos[..k + 1]);
      }
    }
    if OutermostAt(ctx, n.children[i], tail) {
      forall k | 0 <= k < |pos| ensures !OverlayAt(ctx, n, pos[..k]) {
        if k > 0 {
          assert !OverlayAt(ctx, n.children[i], tail[..k - 1]);
        }
      }
    }
  }

  /** Every site recorded is an outermost overlay node. */
  lemma {:induction false} SiteIsOutermost(ctx: Context, n: Node, at: Pos, x: nat) returns (pos: Pos)
    requires x < |Outermost(ctx, n, at)|
    ensures OutermostAt(ctx, n, pos) && Outermost(ctx, n, at)[x] == SiteAt(ctx, n, at, pos)
    decreases n
  {
    if Classify(ctx, n.form).Some? {
      pos := [];
      assert at + [] == at;
    } else {
      var i, tail := ChildSiteIsOutermost(ctx, n.children, at, 0, x);
      pos := [i] + tail;
      OutermostBelow(ctx, n, i, tail);
      assert pos[1..] == tail && at + pos == at + [i] + tail;
    }
  }

  lemma {:induction false} ChildSiteIsOutermost(ctx: Context, ns: seq<Node>, at: Pos, i: nat, x: nat)
    returns (j: nat, pos: Pos)
    requires x < |OutermostAll(ctx, ns, at, i)|
    ensures j < |ns| && OutermostAt(ctx, ns[j], pos)
    ensures OutermostAll(ctx, ns, at, i)[x] == SiteAt(ctx, ns[j], at + [i + j], pos)
    decreases ns
  {
    var first := Outermost(ctx, ns[0], at + [i]);
    if x < |first| {
      j := 0;
      pos := SiteIsOutermost(ctx, ns[0], at + [i], x);
    } else {
      assert OutermostAll(ctx, ns, at, i)[x] == OutermostAll(ctx, ns[1..], at, i + 1)[x - |first|];
      j, pos := ChildSiteIsOutermost(ctx, ns[1..], at, i + 1, x - |first|);
      j := j + 1;
    }
  }

  /** Every outermost overlay node is recorded. */
  lemma {:induction false} OutermostIsSite(ctx: Context, n: Node, at: Pos, pos: Pos)
    requires OutermostAt(ctx, n, pos)
    ensures SiteAt(ctx, n, at, pos) in Outermost(ctx, n, at)
    decreases n
  {
    if Classify(ctx, n.form).Some? {
      assert 0 < |pos| ==> !OverlayAt(ctx, n, pos[..0]);
      assert 0 < |pos| ==> pos[..0] == [];
      assert OverlayAt(ctx, n, []);
      assert at + [] == at;
      assert SiteAt(ctx, n, at, pos) == Outermost(ctx, n, at)[0];
    } else {
      var i, tail := pos[0], pos[1..];
      assert pos == [i] + tail && at + pos == at + [i] + tail;
      OutermostBelow(ctx, n, i, tail);
      OutermostIsSite(ctx, n.children[i], at + [i], tail);
      SiteOfChild(ctx, n.children, at, 0, i, SiteAt(ctx, n, at, pos));
    }
  }

  lemma {:induction false} SiteOfChild(ctx: Context, ns: seq<Node>, at: Pos, i: nat, j: nat, s: Site)
    requires j < |ns| && s in Outermost(ctx, ns[j], at + [i + j])
    ensures s in OutermostAll(ctx, ns, at, i)
    decreases j
  {
    if j > 0 {
      SiteOfChild(ctx, ns[1..], at, i + 1, j - 1, s);
    }
  }

  /** The sites are exactly the outermost overlay nodes of the tree. */
  lemma SitesAreOutermost(ctx: Context, root: Node, s: Site)
    ensures s in Outermost(ctx, root, []) <==>
            exists pos :: OutermostAt(ctx, root, pos) && s == SiteAt(ctx, root, [], pos)
  {
    if s in Outermost(ctx, root, []) {
      var x :| 0 <= x < |Outermost(ctx, root, [])| && Outermost(ctx, root, [])[x] == s;
      var pos := SiteIsOutermost(ctx, root, [], x);
    }
    if pos :| OutermostAt(ctx, root, pos) && s == SiteAt(ctx, root, [], pos) {
      OutermostIsSite(ctx, root, [], pos);
    }
  }

  // ---- Document order ----

  /** `p` branches off before `q`: neither lies below the other, and `p` comes first. */
  predicate Before(p: Pos, q: Pos) {
    exists k :: 0 <= k < |p| && k < |q| && p[..k] == q[..k] && p[k] < q[k]
  }

  ghost predicate InOrder(sites: seq<Site>) {
    forall a, b :: 0 <= a < b < |sites| ==> Before(sites[a].at, sites[b].at)
  }

  /** Sites come in document order, and none lies below another. */
  lemma {:induction false} SitesAreInOrder(ctx: Context, n: Node, at: Pos)
    ensures InOrder(Outermost(ctx, n, at))
    decreases n
  {
    if Classify(ctx, n.form).None? {
      ChildSitesAreInOrder(ctx, n.children, at, 0);
    }
  }

  lemma {:induction false} ChildSitesAreInOrder(ctx: Context, ns: seq<Node>, at: Pos, i: nat)
    ensures InOrder(OutermostAll(ctx, ns, at, i))
    ensures forall s :: s in OutermostAll(ctx, ns, at, i) ==>
              |s.at| > |at| && s.at[..|at|] == at && s.at[|at|] >= i
    decreases ns
  {
    if ns != [] {
      SitesAreInOrder(ctx, ns[0], at + [i]);
      ChildSitesAreInOrder(ctx, ns[1..], at, i + 1);
      var first, rest := Outermost(ctx, ns[0], at + [i]), OutermostAll(ctx, ns[1..], at, i + 1);
      forall s | s in first ensures |s.at| > |at| && s.at[..|at|] == at && s.at[|at|] == i {
        var x :| 0 <= x < |first| && first[x] == s;
        var pos := SiteIsOutermost(ctx, ns[0], at + [i], x);
      }
      forall a, b | 0 <= a < b < |first + rest|
        ensures Before((first + rest)[a].at, (first + rest)[b].at)
      {
        if a < |first| <= b {
          assert first[a] in first && rest[b - |first|] in rest;
          var p, q := first[a].at, rest[b - |first|].at;
          assert p[..|at|] == q[..|at|] && p[|at|] < q[|at|];
        }
      }
    }
  }

  /** Every overlay node lies at or below exactly the site found first on the way to it. */
  lemma {:induction false} EveryOverlayIsCovered(ctx: Context, root: Node, pos: Pos) returns (k: nat)
    requires OverlayAt(ctx, root, pos)
    ensures k <= |pos| && OutermostAt(ctx, root, pos[..k])
    ensures SiteAt(ctx, root, [], pos[..k]) in Outermost(ctx, root, [])
  {
    k := 0;
    while !OverlayAt(ctx, root, pos[..k])
      invariant k <= |pos|
      invariant forall j :: 0 <= j < k ==> !OverlayAt(ctx, root, pos[..j])
      decreases |pos| - k
    {
      assert pos[..|pos|] == pos;
      k := k + 1;
    }
    forall j | 0 <= j < |pos[..k]| ensures !OverlayAt(ctx, root, pos[..k][..j]) {
      assert pos[..k][..j] == pos[..j];
    }
    OutermostIsSite(ctx, root, [], pos[..k]);
  }

  /** A file renders an overlay exactly when its tree holds an overlay node anywhere. */
  lemma RendersOverlayIffAny(ctx: Context, root: Node)
    ensures |Outermost(ctx, root, [])| > 0 <==> exists pos :: OverlayAt(ctx, root, pos)
  {
    if |Outermost(ctx, root, [])| > 0 {
      var pos := SiteIsOutermost(ctx, root, [], 0);
    }
    if pos :| OverlayAt(ctx, root, pos) {
      var k := EveryOverlayIsCovered(ctx, root, pos);
    }
  }
}
