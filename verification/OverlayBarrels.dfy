/**
 Barrels between a file and a primitive: what discovery finds does not depend on them.
 */
module OverlayBarrels {
  import opened Outcomes
  import opened OverlaySyntax
  import opened OverlayExports
  import opened OverlayResolver
  import opened OverlayVisit
  import opened OverlayDiscovery

  /** `d` with one more file. */
  function WithFile(d: Detection, path: string, stmts: seq<Statement>): Detection {
    d.(files := d.files[path := stmts])
  }

  /** The new file changes what no specifier of these statements resolves to. */
  predicate Unnoticed(d: Detection, path: string, stmts: seq<Statement>) {
    forall i :: 0 <= i < |stmts| ==>
      (stmts[i].ReExport? || stmts[i].Import? ==>
         Resolve(WithFile(d, path, []), stmts[i].specifier) == Resolve(d, stmts[i].specifier))
  }

  ghost predicate NewFile(d: Detection, path: string) {
    && path !in d.files && path !in d.registered
    && forall q :: q in d.files ==> Unnoticed(d, path, d.files[q])
  }

  lemma ResolveIgnoresContents(d: Detection, path: string, stmts: seq<Statement>, specifier: Specifier)
    ensures Resolve(WithFile(d, path, stmts), specifier) == Resolve(WithFile(d, path, []), specifier)
  {
  }

  /** A new file that nothing refers to changes no other module's exports. */
  lemma {:induction false} NewFileChangesNothing(d: Detection, path: string, barrel: seq<Statement>, q: string, stack: set<string>)
    requires NewFile(d, path) && q != path
    ensures PlainExports(WithFile(d, path, barrel), q, stack) == PlainExports(d, q, stack - {path})
    decreases d.files.Keys - stack, 1, 0
  {
    if q !in stack && q !in d.registered && q in d.files {
      assert stack - {path} + {q} == stack + {q} - {path};
      NewFileChangesNoFold(d, path, barrel, d.files[q], stack + {q}, map[]);
    }
  }

  lemma {:induction false} NewFileChangesNoFold(
    d: Detection, path: string, barrel: seq<Statement>, stmts: seq<Statement>, stack: set<string>, exports: Exports)
    requires NewFile(d, path) && Unnoticed(d, path, stmts)
    ensures FoldExports(WithFile(d, path, barrel), stmts, stack, exports) ==
            FoldExports(d, stmts, stack - {path}, exports)
    decreases d.files.Keys - stack, 2, |stmts|
  {
    if stmts != [] {
      var d' := WithFile(d, path, barrel);
      assert Unnoticed(d, path, stmts[1..]);
      assert Target(d', stmts[0]) == Target(d, stmts[0]) by {
        if stmts[0].ReExport? {
          ResolveIgnoresContents(d, path, barrel, stmts[0].specifier);
        }
      }
      match Target(d, stmts[0])
      case None => NewFileChangesNoFold(d, path, barrel, stmts[1..], stack, exports);
      case Some(to) =>
        NewFileChangesNothing(d, path, barrel, to, stack);
        NewFileChangesNoFold(d, path, barrel, stmts[1..], stack,
                             Merge(exports, stmts[0].clause, PlainExports(d, to, stack - {path})));
    }
  }

  /** What an import statement imports by name, the default among it. */
  function ElementsOf(s: Statement): seq<Spec>
    requires s.Import? && !s.bindings.NamespaceImport?
  {
    (if s.defaultName.Some? then [Spec(Some(DEFAULT), s.defaultName.value, false)] else []) +
    (if s.bindings.NamedImports? then s.bindings.elements else [])
  }

  /** `{ p1 as q1, … }`, for what is imported by `elements` as p1, … */
  function Renaming(elements: seq<Spec>, qs: seq<string>): (renaming: seq<Spec>)
    requires |qs| == |elements|
    ensures |renaming| == |elements|
    ensures forall k :: 0 <= k < |elements| ==> renaming[k] == Spec(Some(elements[k].Source()), qs[k], elements[k].typeOnly)
  {
    seq(|elements|, k requires 0 <= k < |elements| => Spec(Some(elements[k].Source()), qs[k], elements[k].typeOnly))
  }

  /** `{ q1 as local1, … }` */
  function Reimport(elements: seq<Spec>, qs: seq<string>): (reimport: seq<Spec>)
    requires |qs| == |elements|
    ensures |reimport| == |elements|
    ensures forall k :: 0 <= k < |elements| ==> reimport[k] == Spec(Some(qs[k]), elements[k].name, elements[k].typeOnly)
  {
    seq(|elements|, k requires 0 <= k < |elements| => Spec(Some(qs[k]), elements[k].name, elements[k].typeOnly))
  }

  predicate Distinct(names: seq<string>) {
    forall i, j :: 0 <= i < j < |names| ==> names[i] != names[j]
  }

  /** Under each new name exactly what the module exposes under the old one. */
  ghost predicate Renames(elements: seq<Spec>, qs: seq<string>, reachable: Exports, renamed: Exports)
    requires |qs| == |elements|
  {
    && (forall k :: 0 <= k < |qs| ==>
          && (qs[k] in renamed <==> !elements[k].typeOnly && elements[k].Source() in reachable)
          && (qs[k] in renamed ==> renamed[qs[k]] == reachable[elements[k].Source()]))
    && (forall name :: name in renamed ==> name in qs)
  }

  /** A barrel of one clause exposes what that clause makes of its module's exports. */
  lemma BarrelForwards(d: Detection, path: string, specifier: Specifier, to: string, clause: Clause)
    requires NewFile(d, path) && to != path
    requires Resolve(WithFile(d, path, [ReExport(false, specifier, clause)]), specifier) == Some(to)
    ensures PlainExports(WithFile(d, path, [ReExport(false, specifier, clause)]), path, {}) ==
            Merge(map[], clause, PlainExports(d, to, {}))
  {
    hide Merge;
    var barrel := [ReExport(false, specifier, clause)];
    var d' := WithFile(d, path, barrel);
    NewFileChangesNothing(d, path, barrel, to, {path});
    assert {path} - {path} == {} && {} + {path} == {path};
    assert barrel[1..] == [] && Target(d', barrel[0]) == Some(to);
    assert PlainExports(d', path, {}) == FoldExports(d', barrel, {path}, map[]);
    var merged := Merge(map[], clause, PlainExports(d, to, {}));
    assert FoldExports(d', barrel[1..], {path}, merged) == merged;
  }

  /** A barrel `export { p1 as q1, … } from` renames. */
  lemma MergeRenames(elements: seq<Spec>, qs: seq<string>, reachable: Exports)
    requires |qs| == |elements| && Distinct(qs)
    ensures Renames(elements, qs, reachable, MergeNamed(map[], Renaming(elements, qs), reachable))
  {
    var renaming := Renaming(elements, qs);
    var renamed := MergeNamed(map[], renaming, reachable);
    forall k | 0 <= k < |qs|
      ensures qs[k] in renamed <==> !elements[k].typeOnly && elements[k].Source() in reachable
      ensures qs[k] in renamed ==> renamed[qs[k]] == reachable[elements[k].Source()]
    {
      MergeNamedGives(map[], renaming, reachable, qs[k]);
      forall inner ensures Carries(Named(renaming), inner, qs[k]) <==> !elements[k].typeOnly && elements[k].Source() == inner {
        if !elements[k].typeOnly && elements[k].Source() == inner {
          assert renaming[k].Source() == inner && renaming[k].name == qs[k];
        }
      }
    }
    forall name | name in renamed ensures name in qs {
      MergeNamedGives(map[], renaming, reachable, name);
    }
  }

  lemma {:induction false} BindAllThroughBarrel(
    d: Detection, d': Detection, stmts: seq<Statement>, i: nat, s': Statement, b: Bindings)
    requires i < |stmts|
    requires forall j :: 0 <= j < |stmts| && j != i ==>
               ImportTarget(d', stmts[j]) == ImportTarget(d, stmts[j]) &&
               (ImportTarget(d, stmts[j]).Some? ==>
                  PlainExports(d', ImportTarget(d, stmts[j]).value, {}) == PlainExports(d, ImportTarget(d, stmts[j]).value, {}))
    requires ImportTarget(d, stmts[i]).Some? && ImportTarget(d', s').Some?
    requires forall c ::
               Bind(c, s', PlainExports(d', ImportTarget(d', s').value, {})) ==
               Bind(c, stmts[i], PlainExports(d, ImportTarget(d, stmts[i]).value, {}))
    ensures BindAll(d', stmts[i := s'], b) == BindAll(d, stmts, b)
    decreases |stmts|
  {
    if i == 0 {
      assert stmts[i := s'][1..] == stmts[1..];
      BindAllAlike(d, d', stmts[1..], Bind(b, stmts[0], PlainExports(d, ImportTarget(d, stmts[0]).value, {})));
    } else {
      assert stmts[i := s'][0] == stmts[0] && stmts[i := s'][1..] == stmts[1..][i - 1 := s'];
      var next := match ImportTarget(d, stmts[0]) case None => b
                  case Some(to) => Bind(b, stmts[0], PlainExports(d, to, {}));
      BindAllThroughBarrel(d, d', stmts[1..], i - 1, s', next);
    }
  }

  lemma {:induction false} BindAllAlike(d: Detection, d': Detection, stmts: seq<Statement>, b: Bindings)
    requires forall j :: 0 <= j < |stmts| ==>
               ImportTarget(d', stmts[j]) == ImportTarget(d, stmts[j]) &&
               (ImportTarget(d, stmts[j]).Some? ==>
                  PlainExports(d', ImportTarget(d, stmts[j]).value, {}) == PlainExports(d, ImportTarget(d, stmts[j]).value, {}))
    ensures BindAll(d', stmts, b) == BindAll(d, stmts, b)
    decreases |stmts|
  {
    if stmts != [] {
      var next := match ImportTarget(d, stmts[0]) case None => b
                  case Some(to) => Bind(b, stmts[0], PlainExports(d, to, {}));
      BindAllAlike(d, d', stmts[1..], next);
    }
  }

  /** What a barrel re-exports: all there is, or what is imported, each under a new name. */
  datatype Barrel = Whole | ByName(qs: seq<string>)

  predicate Suits(s: Statement, barrel: Barrel)
    requires s.Import?
  {
    barrel.ByName? ==> !s.bindings.NamespaceImport? && |barrel.qs| == |ElementsOf(s)| && Distinct(barrel.qs)
  }

  /** `export * from`, or `export { p1 as q1, … } from`. */
  function ClauseOf(s: Statement, barrel: Barrel): Clause
    requires s.Import? && Suits(s, barrel)
  {
    match barrel
    case Whole => Star
    case ByName(qs) => Named(Renaming(ElementsOf(s), qs))
  }

  /** The import `s` with the barrel in between. */
  function ImportThrough(s: Statement, viaBarrel: Specifier, barrel: Barrel): Statement
    requires s.Import? && Suits(s, barrel)
  {
    match barrel
    case Whole => Import(false, viaBarrel, s.defaultName, s.bindings)
    case ByName(qs) => Import(false, viaBarrel, None, NamedImports(Reimport(ElementsOf(s), qs)))
  }

  function BarrelFile(s: Statement, barrel: Barrel, fromBarrel: Specifier): seq<Statement>
    requires s.Import? && Suits(s, barrel)
  {
    [ReExport(false, fromBarrel, ClauseOf(s, barrel))]
  }

  /**
   The setting: `stmts[i]` imports from the module `to`, and the new file `path`, which nothing
   referred to before, re-exports from `to`.
   */
  ghost predicate BarrelSetting(
    d: Detection, d': Detection, stmts: seq<Statement>, i: nat, to: string,
    path: string, viaBarrel: Specifier, fromBarrel: Specifier, barrel: Barrel)
  {
    && i < |stmts| && ImportTarget(d, stmts[i]) == Some(to) && Suits(stmts[i], barrel)
    && NewFile(d, path) && Unnoticed(d, path, stmts)
    && d' == WithFile(d, path, BarrelFile(stmts[i], barrel, fromBarrel))
    && Resolve(d', viaBarrel) == Some(path) && Resolve(d', fromBarrel) == Some(to)
  }

  lemma ImportTargetsStay(d: Detection, path: string, barrel: seq<Statement>, stmts: seq<Statement>, j: nat)
    requires Unnoticed(d, path, stmts) && j < |stmts|
    ensures ImportTarget(WithFile(d, path, barrel), stmts[j]) == ImportTarget(d, stmts[j])
  {
    if stmts[j].Import? {
      ResolveIgnoresContents(d, path, barrel, stmts[j].specifier);
    }
  }

  /** A barrel that nothing referred to before closes no cycle. */
  lemma BarrelStaysAcyclic(
    d: Detection, d': Detection, stmts: seq<Statement>, i: nat, to: string,
    path: string, viaBarrel: Specifier, fromBarrel: Specifier, barrel: Barrel)
    requires AcyclicFor(d, stmts) && BarrelSetting(d, d', stmts, i, to, path, viaBarrel, fromBarrel, barrel)
    ensures AcyclicFor(d', stmts[i := ImportThrough(stmts[i], viaBarrel, barrel)])
  {
    hide Resolve;
    var file := BarrelFile(stmts[i], barrel, fromBarrel);
    var rank: string -> nat, part :| Ranked(d, rank, part) && ImportsFrom(d, stmts, part);
    var rank', part' := (r: string) => if r == path then rank(to) + 1 else rank(r), part + {path};
    ResolvesToFile(d, stmts[i].specifier);
    forall r, k | r in part' && r in d'.files && r !in d'.registered && 0 <= k < |d'.files[r]| && Target(d', d'.files[r][k]).Some?
      ensures Target(d', d'.files[r][k]).value in part' && rank'(Target(d', d'.files[r][k]).value) < rank'(r)
    {
      if r != path {
        assert Unnoticed(d, path, d.files[r]);
        ResolveIgnoresContents(d, path, file, d.files[r][k].specifier);
        ResolvesToFile(d, d.files[r][k].specifier);
        RankFalls(d, rank, part, r, k, Target(d, d.files[r][k]).value);
      }
    }
    var stmts' := stmts[i := ImportThrough(stmts[i], viaBarrel, barrel)];
    forall j | 0 <= j < |stmts'| && ImportTarget(d', stmts'[j]).Some? ensures ImportTarget(d', stmts'[j]).value in part' {
      ImportTargetsStay(d, path, file, stmts, j);
    }
    assert Ranked(d', rank', part') && ImportsFrom(d', stmts', part');
  }

  lemma ResolvesToFile(d: Detection, specifier: Specifier)
    ensures Resolve(d, specifier).Some? ==> Resolve(d, specifier).value in d.files
  {
  }

  /**
   Where no cycle can be reached, importing through a new barrel, one that re-exports everything or
   one that renames what is imported, leaves the file's sites exactly as they were.
   */
  lemma BarrelsDoNotMatter(
    d: Detection, d': Detection, stmts: seq<Statement>, i: nat, to: string,
    path: string, viaBarrel: Specifier, fromBarrel: Specifier, barrel: Barrel)
    requires AcyclicFor(d, stmts) && BarrelSetting(d, d', stmts, i, to, path, viaBarrel, fromBarrel, barrel)
    ensures SitesOf(d', stmts[i := ImportThrough(stmts[i], viaBarrel, barrel)]) == SitesOf(d, stmts)
  {
    BarrelStaysAcyclic(d, d', stmts, i, to, path, viaBarrel, fromBarrel, barrel);
    PlainSitesThroughBarrel(d, d', stmts, i, to, path, viaBarrel, fromBarrel, barrel);
    FindsPlainSites(d, stmts);
    FindsPlainSites(d', stmts[i := ImportThrough(stmts[i], viaBarrel, barrel)]);
  }

  lemma PlainSitesThroughBarrel(
    d: Detection, d': Detection, stmts: seq<Statement>, i: nat, to: string,
    path: string, viaBarrel: Specifier, fromBarrel: Specifier, barrel: Barrel)
    requires BarrelSetting(d, d', stmts, i, to, path, viaBarrel, fromBarrel, barrel)
    ensures PlainSitesOf(d', stmts[i := ImportThrough(stmts[i], viaBarrel, barrel)]) == PlainSitesOf(d, stmts)
  {
    hide Resolve, PlainExports, Bind, Outermost;
    var file := BarrelFile(stmts[i], barrel, fromBarrel);
    var s' := ImportThrough(stmts[i], viaBarrel, barrel);
    ResolvesToFile(d, stmts[i].specifier);
    BarrelForwards(d, path, fromBarrel, to, ClauseOf(stmts[i], barrel));
    BoundAlike(stmts[i], viaBarrel, barrel, PlainExports(d, to, {}));
    forall j | 0 <= j < |stmts| && j != i
      ensures ImportTarget(d', stmts[j]) == ImportTarget(d, stmts[j])
      ensures ImportTarget(d, stmts[j]).Some? ==>
                PlainExports(d', ImportTarget(d, stmts[j]).value, {}) == PlainExports(d, ImportTarget(d, stmts[j]).value, {})
    {
      ImportTargetsStay(d, path, file, stmts, j);
      if ImportTarget(d, stmts[j]).Some? {
        ResolvesToFile(d, stmts[j].specifier);
        NewFileChangesNothing(d, path, file, ImportTarget(d, stmts[j]).value, {});
        assert {} - {path} == {};
      }
    }
    BindAllThroughBarrel(d, d', stmts, i, s', NOTHING);
    SameTree(d.regexes, stmts, i, s');
  }

  /** What one import binds through the barrel is what it bound before. */
  lemma BoundAlike(s: Statement, viaBarrel: Specifier, barrel: Barrel, reachable: Exports)
    requires s.Import? && Suits(s, barrel)
    ensures forall c :: Bind(c, ImportThrough(s, viaBarrel, barrel), Merge(map[], ClauseOf(s, barrel), reachable)) ==
                        Bind(c, s, reachable)
  {
    match barrel
    case Whole =>
      assert map[] + reachable == reachable;
    case ByName(qs) =>
      hide ElementsOf, Renames, Bind, ImportedLocals, MergeNamed;
      var through, renamed := ImportThrough(s, viaBarrel, barrel), Merge(map[], ClauseOf(s, barrel), reachable);
      MergeRenames(ElementsOf(s), qs, reachable);
      LocalsAlike(ElementsOf(s), qs, reachable, renamed);
      ElementsThrough(s, viaBarrel, barrel);
      forall c ensures Bind(c, through, renamed) == Bind(c, s, reachable) {
        BindElements(c, s, reachable);
        BindElements(c, through, renamed);
      }
  }

  lemma ElementsThrough(s: Statement, viaBarrel: Specifier, barrel: Barrel)
    requires s.Import? && Suits(s, barrel) && barrel.ByName?
    ensures ElementsOf(ImportThrough(s, viaBarrel, barrel)) == Reimport(ElementsOf(s), barrel.qs)
  {
  }

  lemma LocalsAlike(all: seq<Spec>, qs: seq<string>, reachable: Exports, renamed: Exports)
    requires |qs| == |all| && Renames(all, qs, reachable, renamed)
    ensures ImportedLocals(Reimport(all, qs), renamed) == ImportedLocals(all, reachable)
  {
    var again := Reimport(all, qs);
    forall x ensures x in ImportedLocals(again, renamed) <==> x in ImportedLocals(all, reachable) {
      if x in ImportedLocals(all, reachable) {
        var k :| 0 <= k < |all| && !all[k].typeOnly && all[k].Source() in reachable && all[k].name == x;
        assert !again[k].typeOnly && again[k].Source() in renamed && again[k].name == x;
      }
      if x in ImportedLocals(again, renamed) {
        var k :| 0 <= k < |again| && !again[k].typeOnly && again[k].Source() in renamed && again[k].name == x;
        assert qs[k] in renamed && all[k].name == x;
      }
    }
  }

  /** Binding by name adds the imported locals, the default's among them. */
  lemma BindElements(c: Bindings, s: Statement, reachable: Exports)
    requires s.Import? && !s.bindings.NamespaceImport?
    ensures Bind(c, s, reachable) == c.(components := c.components + ImportedLocals(ElementsOf(s), reachable))
  {
    var byDefault := if s.defaultName.Some? then [Spec(Some(DEFAULT), s.defaultName.value, false)] else [];
    var named := if s.bindings.NamedImports? then s.bindings.elements else [];
    ImportedLocalsConcat(byDefault, named, reachable);
    assert ImportedLocals(byDefault, reachable) ==
           if s.defaultName.Some? && DEFAULT in reachable then {s.defaultName.value} else {} by {
      assert byDefault != [] ==> byDefault[0].Source() == DEFAULT;
    }
    assert c.components + ImportedLocals(byDefault, reachable) + ImportedLocals(named, reachable) ==
           c.components + (ImportedLocals(byDefault, reachable) + ImportedLocals(named, reachable));
    if reachable == map[] {
      assert ImportedLocals(ElementsOf(s), reachable) == {};
      assert c.components + {} == c.components;
    }
  }

  lemma ImportedLocalsConcat(a: seq<Spec>, b: seq<Spec>, reachable: Exports)
    ensures ImportedLocals(a + b, reachable) == ImportedLocals(a, reachable) + ImportedLocals(b, reachable)
  {
    forall x | x in ImportedLocals(a, reachable) ensures x in ImportedLocals(a + b, reachable) {
      var k :| 0 <= k < |a| && !a[k].typeOnly && a[k].Source() in reachable && a[k].name == x;
      assert (a + b)[k] == a[k];
    }
    forall x | x in ImportedLocals(b, reachable) ensures x in ImportedLocals(a + b, reachable) {
      var k :| 0 <= k < |b| && !b[k].typeOnly && b[k].Source() in reachable && b[k].name == x;
      assert (a + b)[|a| + k] == b[k];
    }
    forall x | x in ImportedLocals(a + b, reachable) ensures x in ImportedLocals(a, reachable) + ImportedLocals(b, reachable) {
      var k :| 0 <= k < |a + b| && !(a + b)[k].typeOnly && (a + b)[k].Source() in reachable && (a + b)[k].name == x;
      assert k < |a| ==> (a + b)[k] == a[k];
      assert k >= |a| ==> (a + b)[k] == b[k - |a|];
    }
  }

  /** Replacing an import changes neither what a file renders nor its popover constants. */
  lemma SameTree(regexes: Regexes, stmts: seq<Statement>, i: nat, s': Statement)
    requires i < |stmts| && stmts[i].Import? && s'.Import?
    ensures Root(stmts[i := s']) == Root(stmts) && PopoverConstants(regexes, stmts[i := s']) == PopoverConstants(regexes, stmts)
  {
    var others := stmts[i := s'];
    assert Root(others).children == Root(stmts).children;
    assert forall k, j, name :: PopoverAt(regexes, stmts, k, j, name) <==> PopoverAt(regexes, others, k, j, name);
    SamePopovers(regexes, stmts, others);
  }
}
