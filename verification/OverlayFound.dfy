/**
 What discovery finds, in the terms of the file and of derivability alone: which elements stand for
 primitives, which paint an overlay themselves, and that the recorded places are those of the
 outermost of them.
 */
module OverlayFound {
  import opened Outcomes
  import opened OverlaySyntax
  import opened OverlayExports
  import opened OverlayResolver
  import opened OverlayVisit
  import opened OverlayDiscovery

  // ---- What imports bind ----

  /** `p as n`, `n` alone, and type-only elements. */
  lemma ElementsByForm(p: string, n: string, source: string, name: string)
    ensures Specifies(Spec(Some(p), n, false), source, name) <==> source == p && name == n
    ensures Specifies(Spec(None, n, false), source, name) <==> source == n && name == n
    ensures !Specifies(Spec(Some(p), n, true), source, name) && !Specifies(Spec(None, n, true), source, name)
  {
  }

  /** `export * as n` hands nothing on under its own name, `export *` everything, a list what it specifies. */
  lemma ClausesByForm(elements: seq<Spec>, inner: string, outer: string)
    ensures !Carries(Namespace, inner, outer) && (Carries(Star, inner, outer) <==> inner == outer)
    ensures Carries(Named(elements), inner, outer) <==> exists k :: 0 <= k < |elements| && Specifies(elements[k], inner, outer)
  {
  }

  /** The statement imports values from the module. */
  predicate ImportsFromModule(d: Detection, s: Statement, to: string) {
    s.Import? && !s.typeOnly && ResolvesTo(d, s.specifier, to)
  }

  /** By `import local`, `import { name as local }` or `import { local }`. */
  predicate BindsAs(s: Statement, name: string, local: string)
    requires s.Import?
  {
    || (s.defaultName == Some(local) && name == "default")
    || (s.bindings.NamedImports? &&
        exists k :: 0 <= k < |s.bindings.elements| && Specifies(s.bindings.elements[k], name, local))
  }

  ghost predicate Exposes(d: Detection, path: string, name: string) {
    exists source :: Derivable(d, path, name, source)
  }

  ghost predicate BindsPrimitive(d: Detection, s: Statement, local: string) {
    exists to, name :: ImportsFromModule(d, s, to) && BindsAs(s, name, local) && Exposes(d, to, name)
  }

  /** Some import binds a derivable name as `local`. */
  ghost predicate IsComponent(d: Detection, stmts: seq<Statement>, local: string) {
    exists i :: 0 <= i < |stmts| && BindsPrimitive(d, stmts[i], local)
  }

  ghost predicate NamespaceOf(d: Detection, s: Statement, name: string, member: string) {
    exists to :: ImportsFromModule(d, s, to) && s.bindings == NamespaceImport(name) && Exposes(d, to, member)
  }

  /** The last `import * as name` that brings in anything derivable brings in the member. */
  ghost predicate IsMember(d: Detection, stmts: seq<Statement>, name: string, member: string) {
    exists i :: 0 <= i < |stmts| && NamespaceOf(d, stmts[i], name, member) && NoneAfter(d, stmts, i, name)
  }

  ghost predicate NoneAfter(d: Detection, stmts: seq<Statement>, i: int, name: string) {
    forall j, other :: i < j < |stmts| && 0 <= j ==> !NamespaceOf(d, stmts[j], name, other)
  }

  /** No cycle can be reached from what the statements import. */
  ghost predicate AllAcyclic(d: Detection, stmts: seq<Statement>) {
    forall i :: 0 <= i < |stmts| && ImportTarget(d, stmts[i]).Some? ==> AcyclicFrom(d, ImportTarget(d, stmts[i]).value)
  }

  lemma EachIsAcyclic(d: Detection, stmts: seq<Statement>)
    requires AcyclicFor(d, stmts)
    ensures AllAcyclic(d, stmts)
  {
    var rank: string -> nat, part :| Ranked(d, rank, part) && ImportsFrom(d, stmts, part);
  }

  /** What one import adds, in those terms. */
  lemma BindAdds(d: Detection, s: Statement, to: string, b: Bindings, local: string)
    requires ImportTarget(d, s) == Some(to) && AcyclicFrom(d, to)
    ensures local in Bind(b, s, PlainExports(d, to, {})).components <==> local in b.components || BindsPrimitive(d, s, local)
  {
    hide Derivable, PlainExports, AcyclicFrom;
    var reachable := PlainExports(d, to, {});
    var bound := Bind(b, s, reachable);
    forall name ensures name in reachable <==> Exposes(d, to, name) {
      ExposedExactlyWhenDerivable(d, to, name);
    }
    if BindsPrimitive(d, s, local) {
      var also, name :| ImportsFromModule(d, s, also) && BindsAs(s, name, local) && Exposes(d, also, name);
      assert also == to && name in reachable;
      BoundByName(b, s, reachable, name, local);
    }
    if local in bound.components && local !in b.components {
      var name := NameBound(b, s, reachable, local);
      assert ImportsFromModule(d, s, to);
    }
  }

  lemma BoundByName(b: Bindings, s: Statement, reachable: Exports, name: string, local: string)
    requires s.Import? && BindsAs(s, name, local) && name in reachable
    ensures local in Bind(b, s, reachable).components
  {
    if !(s.defaultName == Some(local) && name == "default") {
      var k :| 0 <= k < |s.bindings.elements| && Specifies(s.bindings.elements[k], name, local);
      assert s.bindings.elements[k].Source() == name;
    }
  }

  lemma NameBound(b: Bindings, s: Statement, reachable: Exports, local: string) returns (name: string)
    requires s.Import? && local in Bind(b, s, reachable).components && local !in b.components
    ensures BindsAs(s, name, local) && name in reachable
  {
    if s.defaultName == Some(local) && DEFAULT in reachable {
      name := DEFAULT;
    } else {
      var es := s.bindings.elements;
      var k :| 0 <= k < |es| && !es[k].typeOnly && es[k].Source() in reachable && es[k].name == local;
      name := es[k].Source();
      assert Specifies(es[k], name, local);
    }
  }

  /** The components bound are exactly those names. */
  lemma {:induction false} ComponentsAre(d: Detection, stmts: seq<Statement>, b: Bindings, local: string)
    requires AllAcyclic(d, stmts)
    ensures local in BindAll(d, stmts, b).components <==> local in b.components || IsComponent(d, stmts, local)
    decreases |stmts|
  {
    if stmts != [] {
      hide Bind, PlainExports, BindsPrimitive, AcyclicFrom;
      var s, rest := stmts[0], stmts[1..];
      assert AllAcyclic(d, rest);
      assert IsComponent(d, stmts, local) <==> BindsPrimitive(d, s, local) || IsComponent(d, rest, local) by {
        if i :| 0 <= i < |rest| && BindsPrimitive(d, rest[i], local) {
          assert stmts[i + 1] == rest[i];
        }
        if i :| 0 <= i < |stmts| && BindsPrimitive(d, stmts[i], local) {
          assert i > 0 ==> rest[i - 1] == stmts[i];
        }
      }
      match ImportTarget(d, s)
      case None =>
        NoTargetBindsNothing(d, s, local);
        ComponentsAre(d, rest, b, local);
      case Some(to) =>
        BindAdds(d, s, to, b, local);
        ComponentsAre(d, rest, Bind(b, s, PlainExports(d, to, {})), local);
    }
  }

  lemma NoTargetBindsNothing(d: Detection, s: Statement, local: string)
    requires ImportTarget(d, s).None?
    ensures !BindsPrimitive(d, s, local)
    ensures forall name, member :: !NamespaceOf(d, s, name, member)
  {
  }

  predicate HasMember(b: Bindings, name: string, member: string) {
    name in b.namespaces && member in b.namespaces[name]
  }

  ghost predicate SomeNamespace(d: Detection, stmts: seq<Statement>, name: string) {
    exists i, member :: 0 <= i < |stmts| && NamespaceOf(d, stmts[i], name, member)
  }

  ghost predicate Claims(d: Detection, s: Statement, name: string) {
    exists member :: NamespaceOf(d, s, name, member)
  }

  lemma BindClaims(d: Detection, s: Statement, to: string, b: Bindings, name: string, member: string)
    requires ImportTarget(d, s) == Some(to) && AcyclicFrom(d, to)
    ensures HasMember(Bind(b, s, PlainExports(d, to, {})), name, member) <==>
            if Claims(d, s, name) then NamespaceOf(d, s, name, member) else HasMember(b, name, member)
  {
    hide Derivable, PlainExports, AcyclicFrom;
    var reachable := PlainExports(d, to, {});
    forall n ensures n in reachable <==> Exposes(d, to, n) {
      ExposedExactlyWhenDerivable(d, to, n);
    }
    forall other ensures NamespaceOf(d, s, name, other) <==> s.bindings == NamespaceImport(name) && other in reachable {
      if s.bindings == NamespaceImport(name) && other in reachable {
        assert ImportsFromModule(d, s, to);
      }
    }
    if Claims(d, s, name) {
      var other :| NamespaceOf(d, s, name, other);
      assert reachable != map[];
    } else if reachable != map[] {
      var n :| n in reachable;
      assert s.bindings != NamespaceImport(name);
    }
  }

  lemma ClaimedBefore(d: Detection, stmts: seq<Statement>, name: string, member: string)
    requires stmts != []
    ensures SomeNamespace(d, stmts, name) <==> Claims(d, stmts[0], name) || SomeNamespace(d, stmts[1..], name)
    ensures IsMember(d, stmts, name, member) <==>
            if SomeNamespace(d, stmts[1..], name) then IsMember(d, stmts[1..], name, member)
            else NamespaceOf(d, stmts[0], name, member)
  {
    hide NamespaceOf;
    var rest := stmts[1..];
    assert forall i :: 0 < i < |stmts| ==> stmts[i] == rest[i - 1];
    if SomeNamespace(d, rest, name) {
      var i, other :| 0 <= i < |rest| && NamespaceOf(d, rest[i], name, other);
      assert NamespaceOf(d, stmts[i + 1], name, other);
    }
    if i :| 0 <= i < |rest| && NamespaceOf(d, rest[i], name, member) && NoneAfter(d, rest, i, name) {
      assert stmts[i + 1] == rest[i];
      assert NoneAfter(d, stmts, i + 1, name);
    }
    if i :| 0 <= i < |stmts| && NamespaceOf(d, stmts[i], name, member) && NoneAfter(d, stmts, i, name) {
      if i > 0 {
        assert NoneAfter(d, rest, i - 1, name) by {
          assert forall j :: i - 1 < j < |rest| ==> rest[j] == stmts[j + 1];
        }
      } else {
        assert forall j :: 0 <= j < |rest| ==> rest[j] == stmts[j + 1];
      }
    }
    if !SomeNamespace(d, rest, name) && NamespaceOf(d, stmts[0], name, member) {
      assert NoneAfter(d, stmts, 0, name);
    }
  }

  /** The members bound are exactly those. */
  lemma {:induction false} MembersAre(d: Detection, stmts: seq<Statement>, b: Bindings, name: string, member: string)
    requires AllAcyclic(d, stmts)
    ensures HasMember(BindAll(d, stmts, b), name, member) <==>
            if SomeNamespace(d, stmts, name) then IsMember(d, stmts, name, member) else HasMember(b, name, member)
    decreases |stmts|
  {
    if stmts != [] {
      hide Bind, PlainExports, NamespaceOf, AcyclicFrom, IsMember, SomeNamespace;
      var s, rest := stmts[0], stmts[1..];
      assert AllAcyclic(d, rest);
      ClaimedBefore(d, stmts, name, member);
      match ImportTarget(d, s)
      case None =>
        NoTargetBindsNothing(d, s, "");
        MembersAre(d, rest, b, name, member);
      case Some(to) =>
        BindClaims(d, s, to, b, name, member);
        MembersAre(d, rest, Bind(b, s, PlainExports(d, to, {})), name, member);
    } else {
      assert !SomeNamespace(d, stmts, name);
    }
  }

  // ---- What paints an overlay ----

  /** A top-level constant whose initializer holds the popover token, mentioned in the text. */
  predicate MentionsPopover(d: Detection, stmts: seq<Statement>, text: string) {
    exists k, j :: 0 <= k < |stmts| && stmts[k].Variables? && 0 <= j < |stmts[k].decls| &&
                   DeclaresPopover(d, stmts[k].decls[j], text)
  }

  predicate DeclaresPopover(d: Detection, decl: Decl, text: string) {
    && decl.name.Some? && decl.init.Some?
    && d.regexes.popover(TextOf(decl.text)) && d.regexes.mentions(decl.name.value, text)
  }

  /** The node is an overlay: by its callee, by its tag, or by one of three attributes. */
  ghost predicate IsOverlay(d: Detection, stmts: seq<Statement>, f: Form) {
    match f
    case Call(_, callee) => callee != [] && callee[|callee| - 1] == "createPortal"
    case Element(tag, modal, role, className) =>
      || (|tag| == 1 && IsComponent(d, stmts, tag[0]))
      || (|tag| > 1 && IsMember(d, stmts, tag[0], tag[1]))
      || (modal.Some? && Includes(TextOf(modal.value), "true"))
      || (role.Some? && Includes(TextOf(role.value), "\"dialog\""))
      || (className.Some? && d.regexes.popover(TextOf(className.value)))
      || (className.Some? && MentionsPopover(d, stmts, TextOf(className.value)))
    case Other => false
  }

  lemma MentionsAreThose(d: Detection, stmts: seq<Statement>, text: string)
    ensures (exists name :: name in PopoverConstants(d.regexes, stmts) && d.regexes.mentions(name, text)) <==>
            MentionsPopover(d, stmts, text)
  {
    if name :| name in PopoverConstants(d.regexes, stmts) && d.regexes.mentions(name, text) {
      PopoverConstant(d.regexes, stmts, name);
      var k, j :| PopoverAt(d.regexes, stmts, k, j, name);
      assert DeclaresPopover(d, stmts[k].decls[j], text);
    }
    if k, j :| 0 <= k < |stmts| && stmts[k].Variables? && 0 <= j < |stmts[k].decls| && DeclaresPopover(d, stmts[k].decls[j], text) {
      var name := stmts[k].decls[j].name.value;
      PopoverConstant(d.regexes, stmts, name);
      assert PopoverAt(d.regexes, stmts, k, j, name);
    }
  }

  /** The visit takes a node for an overlay exactly when it is one. */
  lemma ClassifiedExactly(d: Detection, stmts: seq<Statement>, f: Form)
    requires AcyclicFor(d, stmts)
    ensures Classify(PlainContext(d, stmts), f).Some? <==> IsOverlay(d, stmts, f)
  {
    TagsAreThose(d, stmts, f);
    if f.Element? {
      hide AcyclicFor, BindAll, IsComponent, IsMember, IsPrimitive, MentionsPopover, PopoverConstants, Includes, TextOf;
      if f.className.Some? {
        MentionsAreThose(d, stmts, TextOf(f.className.value));
      }
    }
  }

  lemma MemberIsSome(d: Detection, stmts: seq<Statement>, name: string, member: string)
    ensures IsMember(d, stmts, name, member) ==> SomeNamespace(d, stmts, name)
  {
  }

  ghost function PlainContext(d: Detection, stmts: seq<Statement>): Context {
    Context(d.regexes, BindAll(d, stmts, NOTHING), PopoverConstants(d.regexes, stmts))
  }

  /** The node is a portal or modal markup, whatever the file imports. */
  predicate PaintsItself(f: Form) {
    match f
    case Call(_, callee) => callee != [] && callee[|callee| - 1] == "createPortal"
    case Element(_, modal, role, _) =>
      || (modal.Some? && Includes(TextOf(modal.value), "true"))
      || (role.Some? && Includes(TextOf(role.value), "\"dialog\""))
    case Other => false
  }

  predicate PaintsAt(n: Node, pos: Pos) {
    At(n, pos).Some? && PaintsItself(At(n, pos).value.form)
  }

  /** A component is a primitive exactly when some node in it is one of those. */
  lemma BuildersPaintThemselves(n: Node)
    ensures HasBuilder(n) <==> exists pos :: PaintsAt(n, pos)
  {
    assert forall pos :: BuilderAt(n, pos) <==> PaintsAt(n, pos);
  }

  // ---- What is found ----

  ghost predicate OverlayHere(d: Detection, stmts: seq<Statement>, pos: Pos) {
    At(Root(stmts), pos).Some? && IsOverlay(d, stmts, At(Root(stmts), pos).value.form)
  }

  /**
   Where the file's imports reach no cycle, the places recorded are exactly those of overlays with
   no overlay above them.
   */
  lemma PlacesAreOutermostOverlays(d: Detection, stmts: seq<Statement>, pos: Pos)
    requires AcyclicFor(d, stmts)
    ensures (exists s :: s in SitesOf(d, stmts) && s.at == pos) <==>
            OverlayHere(d, stmts, pos) && forall k :: 0 <= k < |pos| ==> !OverlayHere(d, stmts, pos[..k])
  {
    hide IsOverlay, Classify, Outermost, BindAll;
    FindsPlainSites(d, stmts);
    var ctx, root := PlainContext(d, stmts), Root(stmts);
    forall p ensures OverlayAt(ctx, root, p) <==> OverlayHere(d, stmts, p) {
      if At(root, p).Some? {
        ClassifiedExactly(d, stmts, At(root, p).value.form);
      }
    }
    assert OutermostAt(ctx, root, pos) <==>
           OverlayHere(d, stmts, pos) && forall k :: 0 <= k < |pos| ==> !OverlayHere(d, stmts, pos[..k]);
    if s :| s in SitesOf(d, stmts) && s.at == pos {
      SitesAreOutermost(ctx, root, s);
      var p :| OutermostAt(ctx, root, p) && s == SiteAt(ctx, root, [], p);
      assert [] + p == p;
    }
    if OutermostAt(ctx, root, pos) {
      OutermostIsSite(ctx, root, [], pos);
      assert [] + pos == pos;
      assert SiteAt(ctx, root, [], pos).at == pos;
    }
  }

  /** And every overlay lies at or below one of them. */
  lemma EveryOverlayIsFound(d: Detection, stmts: seq<Statement>, pos: Pos) returns (k: nat)
    requires AcyclicFor(d, stmts) && OverlayHere(d, stmts, pos)
    ensures k <= |pos| && exists s :: s in SitesOf(d, stmts) && s.at == pos[..k]
  {
    hide IsOverlay, AcyclicFor;
    k := 0;
    assert pos[..|pos|] == pos;
    while !OverlayHere(d, stmts, pos[..k])
      invariant k <= |pos|
      invariant forall j :: 0 <= j < k ==> !OverlayHere(d, stmts, pos[..j])
      decreases |pos| - k
    {
      k := k + 1;
    }
    forall j | 0 <= j < |pos[..k]| ensures !OverlayHere(d, stmts, pos[..k][..j]) {
      assert pos[..k][..j] == pos[..j];
    }
    PlacesAreOutermostOverlays(d, stmts, pos[..k]);
  }

  ghost predicate HasPrimitiveTag(d: Detection, stmts: seq<Statement>, f: Form) {
    f.Element? && ((|f.tag| == 1 && IsComponent(d, stmts, f.tag[0])) || (|f.tag| > 1 && IsMember(d, stmts, f.tag[0], f.tag[1])))
  }

  /** What a site says it is: a portal, a primitive first, then modal markup, then a popover. */
  lemma KindsAre(d: Detection, stmts: seq<Statement>, s: Site)
    requires AcyclicFor(d, stmts) && s in SitesOf(d, stmts)
    ensures At(Root(stmts), s.at).Some?
    ensures var f := At(Root(stmts), s.at).value.form;
            && (s.kind.PortalCall? <==> f.Call?)
            && (s.kind.Primitive? <==> HasPrimitiveTag(d, stmts, f))
            && (s.kind.ModalMarkup? <==> !HasPrimitiveTag(d, stmts, f) && f.Element? && PaintsItself(f))
            && (f.Element? && !s.kind.PortalCall? ==> s.kind.tag == f.tag)
  {
    hide AcyclicFor, BindAll, IsComponent, IsMember, PopoverConstants, Includes, TextOf, Outermost, Painted;
    FindsPlainSites(d, stmts);
    var ctx, root := PlainContext(d, stmts), Root(stmts);
    SitesAreOutermost(ctx, root, s);
    var p :| OutermostAt(ctx, root, p) && s == SiteAt(ctx, root, [], p);
    assert [] + p == p;
    TagsAreThose(d, stmts, At(root, p).value.form);
  }

  lemma TagsAreThose(d: Detection, stmts: seq<Statement>, f: Form)
    requires AcyclicFor(d, stmts)
    ensures f.Element? ==> (IsPrimitive(BindAll(d, stmts, NOTHING), f.tag) <==> HasPrimitiveTag(d, stmts, f))
  {
    EachIsAcyclic(d, stmts);
    if f.Element? {
      hide AcyclicFor, AllAcyclic, BindAll, IsComponent, IsMember, SomeNamespace;
      if |f.tag| >= 1 {
        ComponentsAre(d, stmts, NOTHING, f.tag[0]);
      }
      if |f.tag| > 1 {
        MembersAre(d, stmts, NOTHING, f.tag[0], f.tag[1]);
        MemberIsSome(d, stmts, f.tag[0], f.tag[1]);
      }
    }
  }

  // ---- A directory with an index ----

  /**
   A file imports a name from a directory whose index re-exports it from a registered file: each
   element with that tag is found.
   */
  lemma DirectoryImportIsFound(
    d: Detection, stmts: seq<Statement>, i: nat, base: string, name: string, local: string, source: string, r: nat)
    requires AcyclicFor(d, stmts) && i < |stmts|
    requires stmts[i] == Import(false, Relative(base), None, NamedImports([Spec(Some(name), local, false)]))
    requires base + ".tsx" !in d.files && base + ".ts" !in d.files && base + "/index.tsx" !in d.files
    requires var index := base + "/index.ts";
             && index in d.files && index !in d.registered && r < |d.files[index]|
             && d.files[index][r].ReExport? && !d.files[index][r].typeOnly && ResolvesTo(d, d.files[index][r].specifier, source)
             && Carries(d.files[index][r].clause, name, name)
    requires source in d.registered && source in d.files && PublishedPrimitive(d.files[source], name)
    ensures IsComponent(d, stmts, local)
    ensures forall modal, role, className :: IsOverlay(d, stmts, Element([local], modal, role, className))
  {
    hide Derivable, PublishedPrimitive, AcyclicFor;
    var index, s := base + "/index.ts", stmts[i];
    ForwardedIsExposed(d, index, r, source, name);
    assert Specifies(s.bindings.elements[0], name, local);
    assert ImportsFromModule(d, s, index) && BindsAs(s, name, local);
    assert BindsPrimitive(d, s, local);
  }

  lemma ForwardedIsExposed(d: Detection, path: string, r: nat, source: string, name: string)
    requires path in d.files && path !in d.registered && r < |d.files[path]|
    requires Forwards(d, d.files[path][r], source, name, name)
    requires source in d.registered && source in d.files && PublishedPrimitive(d.files[source], name)
    ensures Exposes(d, path, name)
  {
    hide PublishedPrimitive, ResolvesTo, Carries;
    assert DerivableIn(d, source, name, source, 0);
    assert DerivableIn(d, path, name, source, 1);
    assert Derivable(d, path, name, source);
  }
}
