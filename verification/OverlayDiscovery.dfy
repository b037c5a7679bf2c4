/**
 Discovery of the overlays a product component renders: its imports bound to primitives, its
 popover constants, and the visit of its tree.
 */
module OverlayDiscovery {
  import opened Outcomes
  import opened OverlaySyntax
  import opened OverlayExports
  import opened OverlayResolver
  import opened OverlayVisit

  /** The module an import statement binds values from. */
  function ImportTarget(d: Detection, s: Statement): Option<string> {
    if s.Import? && !s.typeOnly then Resolve(d, s.specifier) else None
  }

  /** Local names that a list of import elements binds to a reachable primitive. */
  function ImportedLocals(elements: seq<Spec>, reachable: Exports): set<string> {
    set i | 0 <= i < |elements| && !elements[i].typeOnly && elements[i].Source() in reachable :: elements[i].name
  }

  /** What one import adds to the bindings. */
  function Bind(b: Bindings, s: Statement, reachable: Exports): Bindings
    requires s.Import?
  {
    if reachable == map[] then b
    else
      var byDefault := if s.defaultName.Some? && DEFAULT in reachable then {s.defaultName.value} else {};
      match s.bindings
      case NoBindings => b.(components := b.components + byDefault)
      case NamedImports(elements) => b.(components := b.components + byDefault + ImportedLocals(elements, reachable))
      case NamespaceImport(name) =>
        Bindings(b.components + byDefault, b.namespaces[name := reachable.Keys])
  }

  /** The bindings of a file whose imports share one memo table. */
  ghost function BindMemoised(d: Detection, stmts: seq<Statement>, b: Bindings, cache: Cache): Bindings
    decreases |stmts|
  {
    if stmts == [] then b
    else
      match ImportTarget(d, stmts[0])
      case None => BindMemoised(d, stmts[1..], b, cache)
      case Some(to) =>
        var m := Memo(d, to, cache, {});
        BindMemoised(d, stmts[1..], Bind(b, stmts[0], m.exports), m.cache)
  }

  /** The bindings of a file, given what the plain recursion exposes. */
  ghost function BindAll(d: Detection, stmts: seq<Statement>, b: Bindings): Bindings
    decreases |stmts|
  {
    if stmts == [] then b
    else
      match ImportTarget(d, stmts[0])
      case None => BindAll(d, stmts[1..], b)
      case Some(to) => BindAll(d, stmts[1..], Bind(b, stmts[0], PlainExports(d, to, {})))
  }

  const NOTHING := Bindings({}, map[])

  /** Top-level constants whose initializer holds the popover token. */
  function PopoverConstants(regexes: Regexes, stmts: seq<Statement>): set<string> {
    set i, j | 0 <= i < |stmts| && stmts[i].Variables? && 0 <= j < |stmts[i].decls| && IsPopover(regexes, stmts[i].decls[j]) ::
      stmts[i].decls[j].name.value
  }

  predicate IsPopover(regexes: Regexes, decl: Decl) {
    decl.name.Some? && decl.init.Some? && regexes.popover(TextOf(decl.text))
  }

  /** Declarator `j` of statement `k` makes the name a popover constant. */
  predicate PopoverAt(regexes: Regexes, stmts: seq<Statement>, k: int, j: int, name: string) {
    && 0 <= k < |stmts| && stmts[k].Variables? && 0 <= j < |stmts[k].decls|
    && IsPopover(regexes, stmts[k].decls[j]) && stmts[k].decls[j].name.value == name
  }

  lemma SamePopovers(regexes: Regexes, stmts: seq<Statement>, others: seq<Statement>)
    requires forall k, j, name :: PopoverAt(regexes, stmts, k, j, name) <==> PopoverAt(regexes, others, k, j, name)
    ensures PopoverConstants(regexes, stmts) == PopoverConstants(regexes, others)
  {
    forall name ensures name in PopoverConstants(regexes, stmts) <==> name in PopoverConstants(regexes, others) {
      PopoverConstant(regexes, stmts, name);
      PopoverConstant(regexes, others, name);
    }
  }

  lemma PopoverConstant(regexes: Regexes, stmts: seq<Statement>, name: string)
    ensures name in PopoverConstants(regexes, stmts) <==> exists k, j :: PopoverAt(regexes, stmts, k, j, name)
  {
    if name in PopoverConstants(regexes, stmts) {
      var k, j :| 0 <= k < |stmts| && stmts[k].Variables? && 0 <= j < |stmts[k].decls| &&
                  IsPopover(regexes, stmts[k].decls[j]) && stmts[k].decls[j].name.value == name;
      assert PopoverAt(regexes, stmts, k, j, name);
    }
  }

  /** The sites discovery finds. */
  ghost function SitesOf(d: Detection, stmts: seq<Statement>): seq<Site> {
    Outermost(Context(d.regexes, BindMemoised(d, stmts, NOTHING, map[]), PopoverConstants(d.regexes, stmts)), Root(stmts), [])
  }

  /** The sites it is meant to find, without a memo table in between. */
  ghost function PlainSitesOf(d: Detection, stmts: seq<Statement>): seq<Site> {
    Outermost(Context(d.regexes, BindAll(d, stmts, NOTHING), PopoverConstants(d.regexes, stmts)), Root(stmts), [])
  }

  /** No import cycle can be reached from the file's imports; there may be any number elsewhere. */
  ghost predicate AcyclicFor(d: Detection, stmts: seq<Statement>) {
    exists rank: string -> nat, part :: Ranked(d, rank, part) && ImportsFrom(d, stmts, part)
  }

  ghost predicate ImportsFrom(d: Detection, stmts: seq<Statement>, part: set<string>) {
    forall i :: 0 <= i < |stmts| && ImportTarget(d, stmts[i]).Some? ==> ImportTarget(d, stmts[i]).value in part
  }

  lemma {:induction false} MemoBindsTheSame(
    d: Detection, rank: string -> nat, part: set<string>, stmts: seq<Statement>, b: Bindings, cache: Cache)
    requires Ranked(d, rank, part) && ImportsFrom(d, stmts, part) && ExactCache(d, cache, part)
    ensures BindMemoised(d, stmts, b, cache) == BindAll(d, stmts, b)
    decreases |stmts|
  {
    if stmts != [] {
      assert ImportsFrom(d, stmts[1..], part);
      match ImportTarget(d, stmts[0])
      case None => MemoBindsTheSame(d, rank, part, stmts[1..], b, cache);
      case Some(to) =>
        MemoIsExact(d, rank, part, to, cache, {});
        var m := Memo(d, to, cache, {});
        MemoBindsTheSame(d, rank, part, stmts[1..], Bind(b, stmts[0], m.exports), m.cache);
    }
  }

  /** Where no cycle can be reached, discovery finds the sites it is meant to find. */
  lemma FindsPlainSites(d: Detection, stmts: seq<Statement>)
    requires AcyclicFor(d, stmts)
    ensures SitesOf(d, stmts) == PlainSitesOf(d, stmts)
  {
    var rank: string -> nat, part :| Ranked(d, rank, part) && ImportsFrom(d, stmts, part);
    MemoBindsTheSame(d, rank, part, stmts, NOTHING, map[]);
  }

  /** Every binding stands for a derivable primitive, every member of a namespace too. */
  ghost predicate BoundSoundly(d: Detection, stmts: seq<Statement>, b: Bindings) {
    && (forall local :: local in b.components ==> ComponentSound(d, stmts, local))
    && (forall name :: name in b.namespaces ==>
          forall member :: member in b.namespaces[name] ==> MemberSound(d, stmts, name, member))
  }

  ghost predicate ComponentSound(d: Detection, stmts: seq<Statement>, local: string) {
    exists i, to, imported, source :: 0 <= i < |stmts| && ImportTarget(d, stmts[i]) == Some(to) &&
      Imports(stmts[i], imported, local) && Derivable(d, to, imported, source)
  }

  ghost predicate MemberSound(d: Detection, stmts: seq<Statement>, name: string, member: string) {
    exists i, to, source :: 0 <= i < |stmts| && ImportTarget(d, stmts[i]) == Some(to) &&
      stmts[i].bindings == NamespaceImport(name) && Derivable(d, to, member, source)
  }

  /** The import statement binds the module's name `imported` as `local`. */
  predicate Imports(s: Statement, imported: string, local: string)
    requires s.Import?
  {
    || (s.defaultName == Some(local) && imported == DEFAULT)
    || (s.bindings.NamedImports? && Carries(Named(s.bindings.elements), imported, local))
  }

  // ---- The methods ----

  /** `overlayBindings`: one resolver, so one memo table, for all imports of the file. */
  method OverlayBindings(d: Detection, stmts: seq<Statement>)
    returns (b: Bindings)
    ensures BoundSoundly(d, stmts, b)
    ensures b == BindMemoised(d, stmts, NOTHING, map[])
  {
    hide ResolvesTo, ResolvesToNothing, Derivable, Bind, Resolve;
    b := NOTHING;
    var resolver := new Resolver(d);
    var i := 0;
    while i < |stmts|
      invariant 0 <= i <= |stmts|
      invariant resolver.d == d && resolver.stack == {} && SoundCache(d, resolver.cache)
      invariant fresh(resolver)
      invariant BoundSoundly(d, stmts, b)
      invariant BindMemoised(d, stmts[i..], b, resolver.cache) == BindMemoised(d, stmts, NOTHING, map[])
    {
      assert stmts[i..][0] == stmts[i] && stmts[i..][1..] == stmts[i + 1..];
      match ImportTarget(d, stmts[i]) {
        case None =>
        case Some(to) =>
          MemoIsSound(d, to, resolver.cache, {});
          var reachable := resolver.PrimitiveExportsOf(to);
          BindIsSound(d, stmts, i, to, b, reachable);
          b := BindImport(b, stmts[i], reachable);
      }
      i := i + 1;
    }
    assert stmts[|stmts|..] == [];
  }

  /** The loops over one import's clause. */
  method BindImport(b: Bindings, s: Statement, reachable: Exports) returns (bound: Bindings)
    requires s.Import?
    ensures bound == Bind(b, s, reachable)
  {
    if reachable == map[] {
      return b;
    }
    var components := b.components;
    if s.defaultName.Some? && DEFAULT in reachable {
      components := components + {s.defaultName.value};
    }
    match s.bindings {
      case NoBindings =>
        bound := b.(components := components);
      case NamedImports(elements) =>
        ghost var before := components;
        var i := 0;
        while i < |elements|
          invariant 0 <= i <= |elements|
          invariant components == before + ImportedLocals(elements[..i], reachable)
        {
          assert elements[..i + 1] == elements[..i] + [elements[i]];
          ImportedLocalsNext(elements, i, reachable);
          if !elements[i].typeOnly && elements[i].Source() in reachable {
            components := components + {elements[i].name};
          }
          i := i + 1;
        }
        assert elements[..|elements|] == elements;
        bound := b.(components := components);
      case NamespaceImport(name) =>
        bound := Bindings(components, b.namespaces[name := reachable.Keys]);
    }
  }

  lemma ImportedLocalsNext(elements: seq<Spec>, i: nat, reachable: Exports)
    requires i < |elements|
    ensures ImportedLocals(elements[..i + 1], reachable) == ImportedLocals(elements[..i], reachable) +
            if !elements[i].typeOnly && elements[i].Source() in reachable then {elements[i].name} else {}
  {
    var all, some := elements[..i + 1], elements[..i];
    assert all[i] == elements[i];
    forall x
      ensures x in ImportedLocals(all, reachable) <==>
              (x in ImportedLocals(some, reachable) ||
               (x == elements[i].name && !elements[i].typeOnly && elements[i].Source() in reachable))
    {
      if x in ImportedLocals(some, reachable) {
        var j :| 0 <= j < |some| && !some[j].typeOnly && some[j].Source() in reachable && some[j].name == x;
        assert all[j] == some[j];
      }
      if x in ImportedLocals(all, reachable) {
        var j :| 0 <= j < |all| && !all[j].typeOnly && all[j].Source() in reachable && all[j].name == x;
        if j < i {
          assert some[j] == all[j];
        }
      }
    }
  }

  lemma BindIsSound(d: Detection, stmts: seq<Statement>, i: nat, to: string, b: Bindings, reachable: Exports)
    requires i < |stmts| && ImportTarget(d, stmts[i]) == Some(to)
    requires BoundSoundly(d, stmts, b) && SoundFor(d, to, reachable)
    ensures BoundSoundly(d, stmts, Bind(b, stmts[i], reachable))
  {
    hide Derivable, Resolve;
    var s, bound := stmts[i], Bind(b, stmts[i], reachable);
    forall local | local in bound.components && local !in b.components
      ensures ComponentSound(d, stmts, local)
    {
      if s.defaultName == Some(local) && DEFAULT in reachable {
        assert Imports(s, DEFAULT, local) && Derivable(d, to, DEFAULT, reachable[DEFAULT]);
      } else {
        var elements := s.bindings.elements;
        var j :| 0 <= j < |elements| && !elements[j].typeOnly && elements[j].Source() in reachable && elements[j].name == local;
        assert Imports(s, elements[j].Source(), local) && Derivable(d, to, elements[j].Source(), reachable[elements[j].Source()]);
      }
    }
    forall name, member | name in bound.namespaces && member in bound.namespaces[name]
      ensures MemberSound(d, stmts, name, member)
    {
      if !(name in b.namespaces && bound.namespaces[name] == b.namespaces[name]) {
        assert s.bindings == NamespaceImport(name) && Derivable(d, to, member, reachable[member]);
      }
    }
  }

  /** `overlaySites` of a parsed file. */
  method OverlaySites(d: Detection, stmts: seq<Statement>)
    returns (sites: seq<Site>, bindings: Bindings)
    ensures BoundSoundly(d, stmts, bindings)
    ensures sites == Outermost(Context(d.regexes, bindings, PopoverConstants(d.regexes, stmts)), Root(stmts), [])
    ensures sites == SitesOf(d, stmts)
  {
    bindings := OverlayBindings(d, stmts);
    var collector := new Collector(Context(d.regexes, bindings, PopoverConstants(d.regexes, stmts)));
    collector.Visit(Root(stmts), []);
    sites := collector.sites;
  }

  /** A file that publishes an overlay primitive renders an overlay itself. */
  lemma PublisherRendersOverlay(ctx: Context, stmts: seq<Statement>, name: string)
    requires PublishedPrimitive(stmts, name)
    ensures |Outermost(ctx, Root(stmts), [])| > 0
  {
    PublishingMeansBuilding(stmts, name);
    var pos :| BuilderAt(Root(stmts), pos);
    assert OverlayAt(ctx, Root(stmts), pos);
    RendersOverlayIffAny(ctx, Root(stmts));
  }
}
