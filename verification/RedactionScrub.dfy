/**
 The policy in two halves that know nothing of each other: reading a graph through its `toJSON`s as
 a tree, with no regard to any policy; and scrubbing a tree, which erases, marks, cuts, renders
 links and rebuilds, with no regard to any graph. So it says what a changed value keeps, and what
 a second pass makes of the first result.
 */
module RedactionScrub {
  import opened Outcomes
  import opened JsHeap
  import opened Redaction
  import opened RedactionLaws
  import opened RedactionTrails

  /** No container runs code on its `toJSON`. */
  ghost predicate Dead(t: Tree) {
    match t
    case Node(_, _, kids, _, live) => !live && forall i :: 0 <= i < |kids| ==> Dead(kids[i].tree)
    case Instead(u) => Dead(u)
    case _ => true
  }

  ghost predicate DeadKids(kids: seq<Kid>) {
    forall i :: 0 <= i < |kids| ==> Dead(kids[i].tree)
  }

  // ---- Reading ----

  /**
   The tree that serialization would be given, down to `room` levels below the containers of
   `path`: what a `toJSON` returns stands in the place of its container, on the same level.
   */
  ghost function Shown(g: Heap, v: Value, room: nat, path: set<Ref>): Tree
    requires Closed(g) && ValueIn(g, v)
    decreases g.Keys - path, 1, 0
  {
    if !v.Obj? then Leaf(v)
    else
      var o := g[v.ref];
      match o.kind
      case Scalar => Opaque(v.ref)
      case Url(shown) => Link(v.ref, shown)
      case _ =>
        if v.ref in path then Repeated
        else if room == 0 then Deep
        else ShownNode(g, v.ref, room, path + {v.ref})
  }

  ghost function ShownNode(g: Heap, n: Ref, room: nat, path: set<Ref>): Tree
    requires Closed(g) && n in g && n in path && room > 0
    decreases g.Keys - path, 3, 0
  {
    var o := g[n];
    ToJsonIn(g, n);
    NodeEdgesIn(g, n);
    if ToJson(o).Throwing? then Untouchable
    else
      match ToJson(o).v
      case Fn(Raises) => Raised
      case Fn(Returns(w)) => Instead(Shown(g, w, room, path))
      case _ => Node(ShapeOf(o.kind), o.proto, ShownEdges(g, Edges(o), room - 1, path), HiddenOf(o), false)
  }

  ghost function ShownEdges(g: Heap, es: seq<Edge>, room: nat, path: set<Ref>): seq<Kid>
    requires Closed(g) && EdgesIn(g, es)
    decreases g.Keys - path, 2, |es|
  {
    if es == [] then []
    else
      var t := if es[0].slot.Throwing? then Broken else Shown(g, es[0].slot.v, room, path);
      [Kid(es[0].at, t)] + ShownEdges(g, es[1..], room, path)
  }

  /** A tree read so runs no code any more. */
  lemma {:induction false} ShownIsDead(g: Heap, v: Value, room: nat, path: set<Ref>)
    requires Closed(g) && ValueIn(g, v)
    ensures Dead(Shown(g, v, room, path))
    decreases g.Keys - path, 1, 0
  {
    if v.Obj? && IsContainer(g[v.ref]) && v.ref !in path && room > 0 {
      var n, o, onPath := v.ref, g[v.ref], path + {v.ref};
      ToJsonIn(g, n);
      NodeEdgesIn(g, n);
      if Redirected(o) {
        if ToJson(o).v.call.Returns? {
          ShownIsDead(g, ToJson(o).v.call.result, room, onPath);
        }
      } else if !ToJson(o).Throwing? {
        ShownEdgesAreDead(g, Edges(o), room - 1, onPath);
      }
    }
  }

  lemma {:induction false} ShownEdgesAreDead(g: Heap, es: seq<Edge>, room: nat, path: set<Ref>)
    requires Closed(g) && EdgesIn(g, es)
    ensures DeadKids(ShownEdges(g, es, room, path))
    decreases g.Keys - path, 2, |es|
  {
    if es != [] {
      ShownEdgesAreDead(g, es[1..], room, path);
      if !es[0].slot.Throwing? {
        ShownIsDead(g, es[0].slot.v, room, path);
      }
    }
  }

  // ---- Scrubbing ----

  /** What a look for the tag finds, and what `isError` makes of it. */
  function TreeTag(t: Tree): Slot
    requires t.Node?
  {
    Lookup(t.hidden, TAG, t.proto.tag)
  }

  predicate ReadsAsError(t: Tree)
    requires t.Node?
  {
    var tag := TreeTag(t);
    if !tag.Throwing? && tag.v.Str? then tag.v.s == "Error" else t.shape.Failure?
  }

  ghost function Scrub(keys: set<string>, t: Tree): Outcome<Walked>
    decreases t, 0
  {
    match t
    case Leaf(v) => Done(Walked(t, !v.NaN?))
    case Opaque(_) => Done(Walked(t, true))
    case Link(_, shown) => if shown.None? then Threw else Done(Walked(Leaf(Str(shown.value)), false))
    case Deep => Done(Walked(Leaf(TOO_DEEP), false))
    case Broken => Threw
    case Untouchable => Threw
    case Raised => Done(Walked(Leaf(TOJSON_THREW), false))
    case Repeated => Done(Walked(Leaf(CIRCULAR), false))
    case Instead(u) =>
      var r :- Scrub(keys, u);
      Done(Walked(r.tree, false))
    case Node(shape, _, kids, _, _) =>
      var r :- ScrubKids(keys, kids);
      if !r.same && !shape.Items? && TreeTag(t).Throwing? then Threw
      else Done(Walked(Scrubbed(keys, t, r), r.same))
  }

  ghost function ScrubKids(keys: set<string>, kids: seq<Kid>): Outcome<WalkedKids>
    decreases kids, 0
  {
    if kids == [] then Done(WalkedKids([], true))
    else
      var k := kids[0];
      var rest :- ScrubKids(keys, kids[1..]);
      if Erased(keys, k.at) then Done(WalkedKids(rest.kids, false))
      else
        var r :- ScrubKid(keys, k);
        Done(WalkedKids([Kid(k.at, r.tree)] + rest.kids, r.same && rest.same))
  }

  ghost function ScrubKid(keys: set<string>, k: Kid): Outcome<Walked>
    decreases k, 0
  {
    match k
    case Kid(at, tree) => if tree.Broken? && at.Field? then Done(Walked(Leaf(UNREADABLE), false)) else Scrub(keys, tree)
  }

  /** The container around the kids that are left. */
  ghost function Scrubbed(keys: set<string>, t: Tree, r: WalkedKids): Tree
    requires t.Node?
  {
    if r.same then Node(t.shape, t.proto, r.kids, t.hidden, false)
    else if t.shape.Items? then Node(Items, ARRAY_PROTO, r.kids, [], false)
    else if ReadsAsError(t) then Node(Record, t.proto, DropToJson(r.kids), KeepHidden(keys, t.hidden), Live(t.proto.toJson))
    else Node(Record, OBJECT_PROTO, r.kids, [], RendersFunction(r.kids))
  }

  // ---- The policy is scrubbing what is read ----

  /** An object reads as an Error exactly when its tree does. */
  lemma SameTag(o: Object, t: Tree)
    requires t.Node? && !o.kind.Array? && t.shape == ShapeOf(o.kind) && t.proto == o.proto && t.hidden == HiddenOf(o)
    ensures SameRead(TreeTag(t), Tag(o)) && (ReadsAsError(t) <==> IsError(o))
  {
    HiddenTag(o.props, o.proto.tag);
  }

  /** On every graph, at every depth and below every path: exceptions, tree and identity. */
  lemma {:induction false} RedactIsScrub(keys: set<string>, g: Heap, v: Value, room: nat, path: set<Ref>)
    requires Closed(g) && ValueIn(g, v)
    ensures Redact(keys, g, v, room, path) == Scrub(keys, Shown(g, v, room, path))
    decreases g.Keys - path, 1, 0
  {
    if v.Obj? && IsContainer(g[v.ref]) && v.ref !in path && room > 0 {
      NodeIsScrub(keys, g, v.ref, room, path + {v.ref});
      assert Redact(keys, g, v, room, path) == RedactNode(keys, g, v.ref, room, path + {v.ref});
    }
  }

  lemma {:induction false} NodeIsScrub(keys: set<string>, g: Heap, n: Ref, room: nat, path: set<Ref>)
    requires Closed(g) && n in g && IsContainer(g[n]) && n in path && room > 0
    ensures RedactNode(keys, g, n, room, path) == Scrub(keys, ShownNode(g, n, room, path))
    decreases g.Keys - path, 3, 0
  {
    var o := g[n];
    NodeEdgesIn(g, n);
    ToJsonIn(g, n);
    if Redirected(o) {
      if ToJson(o).v.call.Returns? {
        RedactIsScrub(keys, g, ToJson(o).v.call.result, room, path);
      }
    } else if !ToJson(o).Throwing? {
      EdgesAreScrubbed(keys, g, Edges(o), room - 1, path);
      if !o.kind.Array? {
        SameTag(o, ShownNode(g, n, room, path));
      }
    }
  }

  lemma {:induction false} EdgesAreScrubbed(keys: set<string>, g: Heap, es: seq<Edge>, room: nat, path: set<Ref>)
    requires Closed(g) && EdgesIn(g, es)
    ensures RedactEdges(keys, g, es, room, path) == ScrubKids(keys, ShownEdges(g, es, room, path))
    decreases g.Keys - path, 2, |es|
  {
    if es != [] {
      var kids := ShownEdges(g, es, room, path);
      assert kids[1..] == ShownEdges(g, es[1..], room, path);
      EdgesAreScrubbed(keys, g, es[1..], room, path);
      if !es[0].slot.Throwing? {
        RedactIsScrub(keys, g, es[0].slot.v, room, path);
        NeverBroken(g, es[0].slot.v, room, path);
      }
    }
  }

  lemma NeverBroken(g: Heap, v: Value, room: nat, path: set<Ref>)
    requires Closed(g) && ValueIn(g, v)
    ensures !Shown(g, v, room, path).Broken?
  {
  }

  // ---- Where no `toJSON` runs and nothing repeats ----

  /** No container is met again below itself or the path, over `room` levels. */
  ghost predicate NoRepeat(g: Heap, v: Value, room: nat, path: set<Ref>)
    requires Closed(g) && ValueIn(g, v)
    decreases room, 1
  {
    if v.Obj? && IsContainer(g[v.ref]) then
      NodeEdgesIn(g, v.ref);
      v.ref !in path && (room > 0 ==> NoRepeatBelow(g, Edges(g[v.ref]), room - 1, path + {v.ref}))
    else true
  }

  ghost predicate NoRepeatBelow(g: Heap, es: seq<Edge>, room: nat, path: set<Ref>)
    requires Closed(g) && EdgesIn(g, es)
    decreases room, 2
  {
    forall i :: 0 <= i < |es| && !es[i].slot.Throwing? ==> NoRepeat(g, es[i].slot.v, room, path)
  }

  /** There, what is read is the unfolding. */
  lemma {:induction false} ShownIsUnfolded(g: Heap, v: Value, room: nat, path: set<Ref>)
    requires Closed(g) && ValueIn(g, v)
    requires Dead(Unfold(g, v, room)) && NoRepeat(g, v, room, path)
    ensures Shown(g, v, room, path) == Unfold(g, v, room)
    decreases g.Keys - path, 1, 0
  {
    if v.Obj? && IsContainer(g[v.ref]) && room > 0 {
      NodeEdgesIn(g, v.ref);
      ToJsonIn(g, v.ref);
      ShownEdgesAreUnfolded(g, Edges(g[v.ref]), room - 1, path + {v.ref});
    }
  }

  lemma {:induction false} ShownEdgesAreUnfolded(g: Heap, es: seq<Edge>, room: nat, path: set<Ref>)
    requires Closed(g) && EdgesIn(g, es)
    requires DeadKids(UnfoldEdges(g, es, room)) && NoRepeatBelow(g, es, room, path)
    ensures ShownEdges(g, es, room, path) == UnfoldEdges(g, es, room)
    decreases g.Keys - path, 2, |es|
  {
    if es != [] {
      var kids := UnfoldEdges(g, es, room);
      assert kids[0] == Kid(es[0].at, UnfoldSlot(g, es[0].slot, room)) && kids[1..] == UnfoldEdges(g, es[1..], room);
      assert Dead(kids[0].tree) && DeadKids(kids[1..]);
      assert NoRepeatBelow(g, es[1..], room, path);
      ShownEdgesAreUnfolded(g, es[1..], room, path);
      if !es[0].slot.Throwing? {
        ShownIsUnfolded(g, es[0].slot.v, room, path);
      }
    }
  }

  /** In a clean graph apart from the path nothing repeats. */
  lemma {:induction false} CleanDoesNotRepeat(keys: set<string>, g: Heap, v: Value, room: nat, path: set<Ref>)
    requires Closed(g) && ValueIn(g, v)
    requires Clean(keys, Unfold(g, v, room)) && Apart(g, v, room, path)
    ensures NoRepeat(g, v, room, path)
    decreases room
  {
    if v.Obj? && IsContainer(g[v.ref]) {
      hide Edges, Height;
      var n, es := v.ref, Edges(g[v.ref]);
      NodeEdgesIn(g, n);
      EdgesAreApart(keys, g, n, room, path);
      forall i | 0 <= i < |es| && !es[i].slot.Throwing? ensures NoRepeat(g, es[i].slot.v, room - 1, path + {n}) {
        CleanEdge(keys, g, n, room, i);
        CleanDoesNotRepeat(keys, g, es[i].slot.v, room - 1, path + {n});
      }
    }
  }

  /** A second pass over a result that runs no `toJSON` scrubs it once more. */
  lemma SecondPassIsScrub(keys: set<string>, g: Heap, v: Value, room: nat, h: Heap, w: Value)
    requires Closed(g) && ValueIn(g, v) && Closed(h) && ValueIn(h, w)
    requires Redact(keys, g, v, room, {}).Done? && Unfold(h, w, room) == Redact(keys, g, v, room, {}).value.tree
    requires Dead(Unfold(h, w, room))
    ensures Redact(keys, h, w, room, {}) == Scrub(keys, Unfold(h, w, room))
  {
    RedactedIsClean(keys, g, v, room, {});
    ApartFromNothing(h, w, room);
    CleanDoesNotRepeat(keys, h, w, room, {});
    ShownIsUnfolded(h, w, room, {});
    RedactIsScrub(keys, h, w, room, {});
  }

  // ---- What is kept ----

  /** What stands at the end of every `toJSON`. */
  ghost function Inside(t: Tree): Tree
    decreases t
  {
    match t
    case Instead(u) => Inside(u)
    case _ => t
  }

  lemma {:induction false} InsideIsScrubbed(keys: set<string>, t: Tree)
    ensures !Inside(t).Instead?
    ensures Scrub(keys, t).Threw? <==> Scrub(keys, Inside(t)).Threw?
    ensures Scrub(keys, t).Done? ==>
              Scrub(keys, t).value.tree == Scrub(keys, Inside(t)).value.tree && !Scrub(keys, t).value.tree.Instead?
    decreases t
  {
    if t.Instead? {
      InsideIsScrubbed(keys, t.tree);
    }
  }

  /** Kids one below the other, from the container down. */
  ghost predicate Leads(t: Tree, ks: seq<Kid>)
    decreases |ks|
  {
    |ks| > 0 && Inside(t).Node? && ks[0] in Inside(t).kids && (|ks| > 1 ==> Leads(ks[0].tree, ks[1..]))
  }

  predicate SameLabels(ks: seq<Kid>, ls: seq<Kid>) {
    |ks| == |ls| && forall i :: 0 <= i < |ks| ==> ks[i].at == ls[i].at
  }

  /** Neither secret nor `__proto__`, nor under a `toJSON`, which a rebuilt Error drops. */
  predicate Spared(keys: set<string>, ks: seq<Kid>) {
    forall i :: 0 <= i < |ks| ==>
      (ks[i].at.Field? ==> ks[i].at.name !in keys && ks[i].at.name != "__proto__" && ks[i].at.name != "toJSON")
  }

  predicate IsValue(t: Tree) {
    t.Leaf? || t.Opaque?
  }

  lemma {:induction false} ScrubbedKid(keys: set<string>, kids: seq<Kid>, k: Kid)
    requires ScrubKids(keys, kids).Done? && k in kids && !Erased(keys, k.at) && !k.tree.Broken?
    ensures Scrub(keys, k.tree).Done?
    ensures Kid(k.at, Scrub(keys, k.tree).value.tree) in ScrubKids(keys, kids).value.kids
    decreases |kids|
  {
    if k != kids[0] {
      ScrubbedKid(keys, kids[1..], k);
    }
  }

  lemma InScrubbed(keys: set<string>, t: Tree, r: WalkedKids, k: Kid)
    requires t.Node?
    ensures k in Scrubbed(keys, t, r).kids <==>
            k in r.kids && (k.at == Field(TO_JSON) ==> r.same || t.shape.Items? || !ReadsAsError(t))
  {
    DropToJsonHas(r.kids, k);
  }

  /** Every value at the end of spared labels is there afterwards, under the same labels. */
  lemma {:induction false} ValuesAreKept(keys: set<string>, t: Tree, ks: seq<Kid>) returns (ls: seq<Kid>)
    requires Scrub(keys, t).Done?
    requires Leads(t, ks) && Spared(keys, ks) && IsValue(Inside(ks[|ks| - 1].tree))
    ensures Leads(Scrub(keys, t).value.tree, ls) && SameLabels(ls, ks) && ls[|ls| - 1].tree == Inside(ks[|ks| - 1].tree)
    decreases |ks|
  {
    InsideIsScrubbed(keys, t);
    var n := Inside(t);
    var r, k := ScrubKids(keys, n.kids).value, ks[0];
    assert !k.tree.Broken?;
    ScrubbedKid(keys, n.kids, k);
    InsideIsScrubbed(keys, k.tree);
    var l := Kid(k.at, Scrub(keys, k.tree).value.tree);
    InScrubbed(keys, n, r, l);
    if |ks| == 1 {
      ls := [l];
    } else {
      var tail := ValuesAreKept(keys, k.tree, ks[1..]);
      ls := [l] + tail;
      assert ls[1..] == tail;
      forall i | 0 <= i < |ls| ensures ls[i].at == ks[i].at {
        assert i > 0 ==> ls[i] == tail[i - 1] && ks[i] == ks[1..][i - 1];
      }
    }
  }

  lemma {:induction false} KidBefore(keys: set<string>, kids: seq<Kid>, l: Kid) returns (k: Kid)
    requires ScrubKids(keys, kids).Done? && l in ScrubKids(keys, kids).value.kids
    ensures k in kids && k.at == l.at && !Erased(keys, k.at)
    ensures if k.tree.Broken? then l.tree == Leaf(UNREADABLE)
            else Scrub(keys, k.tree).Done? && Scrub(keys, k.tree).value.tree == l.tree
    decreases |kids|
  {
    if l in ScrubKids(keys, kids[1..]).value.kids {
      k := KidBefore(keys, kids[1..], l);
    } else {
      k := kids[0];
    }
  }

  /** What a marker, or the text of a link, stands for. */
  predicate StandsFor(marker: Tree, t: Tree) {
    || (t.Broken? && marker == Leaf(Str("[Redacted: unreadable]")))
    || (t.Deep? && marker == Leaf(Str("[Redacted: max depth]")))
    || (t.Raised? && marker == Leaf(Str("[Redacted: toJSON threw]")))
    || (t.Repeated? && marker == Leaf(Str("[Circular]")))
    || (t.Link? && t.shown.Some? && marker == Leaf(Str(t.shown.value)))
  }

  /** Nothing is added: every value afterwards was there under the same labels, or stands for what was. */
  lemma {:induction false} NothingIsAdded(keys: set<string>, t: Tree, ls: seq<Kid>) returns (ks: seq<Kid>)
    requires Scrub(keys, t).Done?
    requires Leads(Scrub(keys, t).value.tree, ls) && IsValue(ls[|ls| - 1].tree)
    ensures Leads(t, ks) && SameLabels(ks, ls)
    ensures forall i :: 0 <= i < |ks| && ks[i].at.Field? ==> ks[i].at.name !in keys && ks[i].at.name != "__proto__"
    ensures var was := Inside(ks[|ks| - 1].tree); ls[|ls| - 1].tree == was || StandsFor(ls[|ls| - 1].tree, was)
    decreases |ls|
  {
    InsideIsScrubbed(keys, t);
    var n := Inside(t);
    var r, l := ScrubKids(keys, n.kids).value, ls[0];
    InScrubbed(keys, n, r, l);
    var k := KidBefore(keys, n.kids, l);
    InsideIsScrubbed(keys, k.tree);
    if |ls| == 1 {
      ks := [k];
    } else {
      var tail := NothingIsAdded(keys, k.tree, ls[1..]);
      ks := [k] + tail;
      assert ks[1..] == tail;
      forall i | 0 <= i < |ks| ensures ks[i].at == ls[i].at && !Erased(keys, ks[i].at) {
        assert i > 0 ==> ks[i] == tail[i - 1] && ls[i] == ls[1..][i - 1];
      }
    }
  }

  function Labels(kids: seq<Kid>): (ls: seq<Label>)
    ensures |ls| == |kids| && forall i :: 0 <= i < |ls| ==> ls[i] == kids[i].at
  {
    seq(|kids|, i requires 0 <= i < |kids| => kids[i].at)
  }

  /** The labels that are left, in their order. */
  function Unerased(keys: set<string>, ls: seq<Label>): seq<Label> {
    if ls == [] then []
    else
      var secret := ls[0].Field? && (ls[0].name in keys || ls[0].name == "__proto__");
      (if secret then [] else [ls[0]]) + Unerased(keys, ls[1..])
  }

  /** Fields keep their order. */
  lemma {:induction false} FieldsKeepTheirOrder(keys: set<string>, kids: seq<Kid>)
    requires ScrubKids(keys, kids).Done?
    ensures Labels(ScrubKids(keys, kids).value.kids) == Unerased(keys, Labels(kids))
    decreases |kids|
  {
    if kids != [] {
      FieldsKeepTheirOrder(keys, kids[1..]);
      assert Labels(kids)[1..] == Labels(kids[1..]);
    }
  }

  /** Elements keep their places. */
  lemma {:induction false} ElementsKeepTheirPlaces(keys: set<string>, kids: seq<Kid>, i: nat)
    requires ScrubKids(keys, kids).Done?
    requires i < |kids| && forall j :: 0 <= j < |kids| ==> kids[j].at.Index?
    ensures |ScrubKids(keys, kids).value.kids| == |kids|
    ensures Scrub(keys, kids[i].tree).Done? && ScrubKids(keys, kids).value.kids[i].tree == Scrub(keys, kids[i].tree).value.tree
    decreases |kids|
  {
    if |kids| > 1 {
      ElementsKeepTheirPlaces(keys, kids[1..], if i > 0 then i - 1 else 0);
    }
  }

  // ---- Identity, and Errors ----

  lemma {:induction false} SameIsPristine(keys: set<string>, t: Tree)
    requires Dead(t)
    ensures Scrub(keys, t).Done? && Scrub(keys, t).value.same <==> Pristine(keys, t)
    ensures Pristine(keys, t) ==> Scrub(keys, t) == Done(Walked(t, true))
    decreases t, 0
  {
    if t.Node? {
      SameKidsArePristine(keys, t.kids);
    }
  }

  lemma {:induction false} SameKidsArePristine(keys: set<string>, kids: seq<Kid>)
    requires DeadKids(kids)
    ensures var r, pristine := ScrubKids(keys, kids), CleanKids(keys, kids) && SettledKids(kids);
            (r.Done? && r.value.same <==> pristine) && (pristine ==> r == Done(WalkedKids(kids, true)))
    decreases kids, 0
  {
    if kids != [] {
      SameKidsArePristine(keys, kids[1..]);
      SameKidIsPristine(keys, kids[0]);
      OneMorePristine(keys, kids);
      assert kids == [kids[0]] + kids[1..];
    }
  }

  lemma {:induction false} SameKidIsPristine(keys: set<string>, k: Kid)
    requires Dead(k.tree)
    ensures ScrubKid(keys, k).Done? && ScrubKid(keys, k).value.same <==> Pristine(keys, k.tree)
    ensures Pristine(keys, k.tree) ==> ScrubKid(keys, k) == Done(Walked(k.tree, true))
    decreases k, 0
  {
    match k
    case Kid(_, tree) => SameIsPristine(keys, tree);
  }

  lemma OneMorePristine(keys: set<string>, kids: seq<Kid>)
    requires kids != []
    ensures CleanKids(keys, kids) && SettledKids(kids) <==>
            !Erased(keys, kids[0].at) && Pristine(keys, kids[0].tree) && CleanKids(keys, kids[1..]) && SettledKids(kids[1..])
  {
    assert forall i :: 0 < i < |kids| ==> kids[i] == kids[1..][i - 1];
    assert forall i :: 0 <= i < |kids[1..]| ==> kids[1..][i] == kids[i + 1];
  }

  /**
   At any depth: what a scrub leaves of a record's prototype and hidden properties. All, exactly
   when the record is pristine, or reads as an Error with nothing hidden to erase, or had nothing
   beyond a plain object's.
   */
  lemma ScrubKeepsHiddenExactlyWhen(keys: set<string>, t: Tree)
    requires Dead(t) && t.Node? && !t.shape.Items? && Scrub(keys, t).Done?
    ensures var u := Scrub(keys, t).value.tree;
            && u.Node?
            && (u.hidden == t.hidden && u.proto == t.proto <==>
                Pristine(keys, t) || (ReadsAsError(t) && KeepHidden(keys, t.hidden) == t.hidden) ||
                (t.hidden == [] && t.proto == OBJECT_PROTO))
  {
    SameIsPristine(keys, t);
    SameKidsArePristine(keys, t.kids);
    if ReadsAsError(t) && t.hidden == [] {
      assert KeepHidden(keys, t.hidden) == t.hidden;
    }
  }
}
