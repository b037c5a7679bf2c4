/**
 Resolution of overlay primitives through re-export barrels: a memo table and a stack of
 modules in progress, against the plain recursion and against derivability.
 */
module OverlayResolver {
  import opened Outcomes
  import opened OverlaySyntax
  import opened OverlayExports

  /** The parsed files by path, the paths registered as overlay infrastructure, and the regular expressions. */
  datatype Detection = Detection(files: map<string, seq<Statement>>, registered: set<string>, regexes: Regexes)

  /** `p` is a file, and none of those asked for before it is. */
  predicate ResolvesTo(d: Detection, specifier: Specifier, p: string) {
    && specifier.Relative? && p in d.files
    && var base, tsx, ts := specifier.base, specifier.base + ".tsx", specifier.base + ".ts";
       || p == tsx
       || (tsx !in d.files && p == ts)
       || (tsx !in d.files && ts !in d.files && p == base + "/index.tsx")
       || (tsx !in d.files && ts !in d.files && base + "/index.tsx" !in d.files && p == base + "/index.ts")
  }

  /** No file answers to the specifier, or it names a package. */
  predicate ResolvesToNothing(d: Detection, specifier: Specifier) {
    specifier.Relative? ==>
      && specifier.base + ".tsx" !in d.files && specifier.base + ".ts" !in d.files
      && specifier.base + "/index.tsx" !in d.files && specifier.base + "/index.ts" !in d.files
  }

  /** `resolveModule`: the first candidate file that exists, for a relative specifier. */
  function Resolve(d: Detection, specifier: Specifier): (target: Option<string>)
    ensures target.None? <==> ResolvesToNothing(d, specifier)
    ensures forall p :: target == Some(p) <==> ResolvesTo(d, specifier, p)
  {
    match specifier
    case Package => None
    case Relative(base) =>
      CandidatesDiffer(base);
      if base + ".tsx" in d.files then Some(base + ".tsx")
      else if base + ".ts" in d.files then Some(base + ".ts")
      else if base + "/index.tsx" in d.files then Some(base + "/index.tsx")
      else if base + "/index.ts" in d.files then Some(base + "/index.ts")
      else None
  }

  /** The four candidates are four files. */
  lemma CandidatesDiffer(base: string)
    ensures base + ".tsx" != base + ".ts" && base + "/index.tsx" != base + "/index.ts"
    ensures base + ".tsx" != base + "/index.tsx" && base + ".tsx" != base + "/index.ts"
    ensures base + ".ts" != base + "/index.tsx" && base + ".ts" != base + "/index.ts"
  {
    assert |base + ".tsx"| == |base| + 4 && |base + ".ts"| == |base| + 3;
    assert |base + "/index.tsx"| == |base| + 10 && |base + "/index.ts"| == |base| + 9;
  }

  /** The module a statement re-exports from, if it is a followed `export … from`. */
  function Target(d: Detection, s: Statement): Option<string> {
    if s.ReExport? && !s.typeOnly then Resolve(d, s.specifier) else None
  }

  // ---- Derivability: the reference ----

  /** The clause hands on the name `inner` of its module as `outer`. */
  predicate Carries(clause: Clause, inner: string, outer: string) {
    match clause
    case Star => inner == outer
    case Namespace => false
    case Named(elements) =>
      exists i :: 0 <= i < |elements| && Specifies(elements[i], inner, outer)
  }

  predicate Forwards(d: Detection, s: Statement, to: string, inner: string, outer: string) {
    s.ReExport? && !s.typeOnly && ResolvesTo(d, s.specifier, to) && Carries(s.clause, inner, outer)
  }

  /** `path` exposes `name` from `source` over a chain of at most `k` re-exports. */
  ghost predicate DerivableIn(d: Detection, path: string, name: string, source: string, k: nat)
    decreases k
  {
    if path in d.registered then
      source == path && path in d.files && PublishedPrimitive(d.files[path], name)
    else
      k > 0 && path in d.files &&
      exists i, to, inner :: 0 <= i < |d.files[path]| && Forwards(d, d.files[path][i], to, inner, name) &&
                             DerivableIn(d, to, inner, source, k - 1)
  }

  ghost predicate Derivable(d: Detection, path: string, name: string, source: string) {
    exists k: nat :: DerivableIn(d, path, name, source, k)
  }

  // ---- The plain recursion ----

  /** Names to the registered files that own them. */
  type Exports = map<string, string>

  /** The names a statement could publish anything under. */
  function NamesOf(s: Statement): set<string> {
    match s
    case Function(declared, _, _, _) => {DEFAULT} + (if declared.Some? then {declared.value} else {})
    case Variables(_, decls) => set i | 0 <= i < |decls| && decls[i].name.Some? :: decls[i].name.value
    case ExportName(_) => {DEFAULT}
    case ExportExpression(_) => {DEFAULT}
    case ExportList(elements) => set i | 0 <= i < |elements| :: elements[i].name
    case _ => {}
  }

  ghost function PublishedNames(stmts: seq<Statement>): (names: set<string>)
    ensures forall name :: name in names <==> PublishedPrimitive(stmts, name)
  {
    var names := set i, name | 0 <= i < |stmts| && name in NamesOf(stmts[i]) && PublishedPrimitive(stmts, name) :: name;
    assert forall name :: PublishedPrimitive(stmts, name) ==> name in names by {
      forall name | PublishedPrimitive(stmts, name) ensures name in names {
        var local :| Built(stmts, local) && Publishes(stmts, local, name);
        var i :| 0 <= i < |stmts| && PublishesAs(stmts[i], local, name);
        assert name in NamesOf(stmts[i]);
      }
    }
    names
  }

  function MergeNamed(exports: Exports, elements: seq<Spec>, reachable: Exports): Exports
    decreases |elements|
  {
    if elements == [] then exports
    else
      var e := elements[0];
      var next := if !e.typeOnly && e.Source() in reachable then exports[e.name := reachable[e.Source()]] else exports;
      MergeNamed(next, elements[1..], reachable)
  }

  /** What a re-export clause adds; later names win. */
  function Merge(exports: Exports, clause: Clause, reachable: Exports): Exports {
    match clause
    case Star => exports + reachable
    case Namespace => exports
    case Named(elements) => MergeNamed(exports, elements, reachable)
  }

  /** `primitiveExportsOf` without its memo table. */
  ghost function PlainExports(d: Detection, path: string, stack: set<string>): Exports
    decreases d.files.Keys - stack, 1, 0
  {
    if path in stack then map[]
    else if path in d.registered then
      var names := if path in d.files then PublishedNames(d.files[path]) else {};
      map name | name in names :: path
    else if path !in d.files then map[]
    else FoldExports(d, d.files[path], stack + {path}, map[])
  }

  ghost function FoldExports(d: Detection, stmts: seq<Statement>, stack: set<string>, exports: Exports): Exports
    decreases d.files.Keys - stack, 2, |stmts|
  {
    if stmts == [] then exports
    else
      match Target(d, stmts[0])
      case None => FoldExports(d, stmts[1..], stack, exports)
      case Some(to) =>
        FoldExports(d, stmts[1..], stack, Merge(exports, stmts[0].clause, PlainExports(d, to, stack)))
  }

  /** Within `part`, every followed re-export stays in it and leads to a module of lower rank. */
  ghost predicate Ranked(d: Detection, rank: string -> nat, part: set<string>) {
    forall path :: path in part && path in d.files && path !in d.registered ==>
      forall i :: 0 <= i < |d.files[path]| && Target(d, d.files[path][i]).Some? ==>
        Target(d, d.files[path][i]).value in part && rank(Target(d, d.files[path][i]).value) < rank(path)
  }

  /** No import cycle can be reached from the module; there may be any number elsewhere. */
  ghost predicate AcyclicFrom(d: Detection, path: string) {
    exists rank: string -> nat, part :: Ranked(d, rank, part) && path in part
  }

  ghost predicate AllAbove(rank: string -> nat, part: set<string>, stack: set<string>, path: string) {
    forall q :: q in stack && q in part ==> rank(q) > rank(path)
  }

  /** Where no cycle can be reached, modules in progress never matter. */
  lemma {:induction false} StackDoesNotMatter(
    d: Detection, rank: string -> nat, part: set<string>, path: string, stack: set<string>, other: set<string>)
    requires Ranked(d, rank, part) && path in part
    requires AllAbove(rank, part, stack, path) && AllAbove(rank, part, other, path)
    ensures PlainExports(d, path, stack) == PlainExports(d, path, other)
    decreases rank(path), 0
  {
    assert path !in stack && path !in other;
    if path in d.files && path !in d.registered {
      FoldIgnoresStack(d, rank, part, path, d.files[path], stack + {path}, other + {path}, map[]);
    }
  }

  lemma {:induction false} FoldIgnoresStack(
    d: Detection, rank: string -> nat, part: set<string>, path: string, stmts: seq<Statement>,
    stack: set<string>, other: set<string>, exports: Exports)
    requires Ranked(d, rank, part)
    requires forall q :: q in stack + other && q in part ==> rank(q) >= rank(path)
    requires forall i :: 0 <= i < |stmts| && Target(d, stmts[i]).Some? ==>
               Target(d, stmts[i]).value in part && rank(Target(d, stmts[i]).value) < rank(path)
    ensures FoldExports(d, stmts, stack, exports) == FoldExports(d, stmts, other, exports)
    decreases rank(path), 0, |stmts|
  {
    if stmts != [] {
      match Target(d, stmts[0])
      case None => FoldIgnoresStack(d, rank, part, path, stmts[1..], stack, other, exports);
      case Some(to) =>
        StackDoesNotMatter(d, rank, part, to, stack, other);
        FoldIgnoresStack(d, rank, part, path, stmts[1..], stack, other,
                         Merge(exports, stmts[0].clause, PlainExports(d, to, stack)));
    }
  }

  // ---- Merging ----

  lemma {:induction false} MergeNamedGives(exports: Exports, elements: seq<Spec>, reachable: Exports, name: string)
    decreases |elements|
    ensures name in MergeNamed(exports, elements, reachable) <==>
            name in exports || exists inner :: inner in reachable && Carries(Named(elements), inner, name)
    ensures name in MergeNamed(exports, elements, reachable) ==>
            var source := MergeNamed(exports, elements, reachable)[name];
            || (name in exports && exports[name] == source)
            || exists inner :: inner in reachable && reachable[inner] == source && Carries(Named(elements), inner, name)
  {
    if elements != [] {
      var e, rest := elements[0], elements[1..];
      var next := if !e.typeOnly && e.Source() in reachable then exports[e.name := reachable[e.Source()]] else exports;
      MergeNamedGives(next, rest, reachable, name);
      forall inner ensures Carries(Named(elements), inner, name) <==>
          Carries(Named(rest), inner, name) || (!e.typeOnly && e.Source() == inner && e.name == name)
      {
        if Carries(Named(rest), inner, name) {
          var i :| 0 <= i < |rest| && !rest[i].typeOnly && rest[i].Source() == inner && rest[i].name == name;
          assert elements[i + 1] == rest[i];
        }
        if Carries(Named(elements), inner, name) {
          var i :| 0 <= i < |elements| && !elements[i].typeOnly && elements[i].Source() == inner && elements[i].name == name;
          if i > 0 {
            assert rest[i - 1] == elements[i];
          }
        }
      }
    }
  }

  lemma MergeGives(exports: Exports, clause: Clause, reachable: Exports, name: string)
    ensures name in Merge(exports, clause, reachable) <==>
            name in exports || exists inner :: inner in reachable && Carries(clause, inner, name)
    ensures name in Merge(exports, clause, reachable) ==>
            var source := Merge(exports, clause, reachable)[name];
            || (name in exports && exports[name] == source)
            || exists inner :: inner in reachable && reachable[inner] == source && Carries(clause, inner, name)
  {
    if clause.Named? {
      MergeNamedGives(exports, clause.elements, reachable, name);
    } else if clause.Star? {
      assert Carries(clause, name, name);
    }
  }

  /** The last element, or star, that hands a name on says where it is from. */
  lemma LaterNamesWin(exports: Exports, elements: seq<Spec>, e: Spec, reachable: Exports, source: string, name: string)
    requires source in reachable && Specifies(e, source, name)
    ensures name in Merge(exports, Named(elements + [e]), reachable)
    ensures Merge(exports, Named(elements + [e]), reachable)[name] == reachable[source]
    ensures source in Merge(exports, Star, reachable) && Merge(exports, Star, reachable)[source] == reachable[source]
  {
    MergeNamedLast(exports, elements, e, reachable);
  }

  lemma {:induction false} MergeNamedLast(exports: Exports, elements: seq<Spec>, e: Spec, reachable: Exports)
    requires !e.typeOnly && e.Source() in reachable
    ensures MergeNamed(exports, elements + [e], reachable) == MergeNamed(exports, elements, reachable)[e.name := reachable[e.Source()]]
    decreases |elements|
  {
    if elements == [] {
      assert [] + [e] == [e] && [e][1..] == [];
    } else {
      var f := elements[0];
      assert (elements + [e])[0] == f && (elements + [e])[1..] == elements[1..] + [e];
      MergeNamedLast(if !f.typeOnly && f.Source() in reachable then exports[f.name := reachable[f.Source()]] else exports,
                     elements[1..], e, reachable);
    }
  }

  // ---- Exactness where no cycle can be reached ----

  /** Where no cycle can be reached, the plain recursion exposes every derivable name. */
  lemma {:induction false} DerivableIsExported(
    d: Detection, rank: string -> nat, part: set<string>, path: string, name: string, source: string, k: nat)
    requires Ranked(d, rank, part) && path in part && DerivableIn(d, path, name, source, k)
    ensures name in PlainExports(d, path, {})
    decreases k, 1
  {
    hide PublishedPrimitive, Carries, Merge, Ranked, Resolve;
    if path !in d.registered {
      var i: nat, to, inner :| 0 <= i < |d.files[path]| && Forwards(d, d.files[path][i], to, inner, name) &&
                          DerivableIn(d, to, inner, source, k - 1);
      RankFalls(d, rank, part, path, i, to);
      DerivableIsExported(d, rank, part, to, inner, source, k - 1);
      StackDoesNotMatter(d, rank, part, to, {}, {path});
      assert {} + {path} == {path};
      FoldKeeps(d, d.files[path], {path}, map[], i, to, inner, name);
    }
  }

  lemma RankFalls(d: Detection, rank: string -> nat, part: set<string>, path: string, i: nat, to: string)
    requires Ranked(d, rank, part) && path in part && path in d.files && path !in d.registered && i < |d.files[path]|
    requires Target(d, d.files[path][i]) == Some(to)
    ensures to in part && rank(to) < rank(path)
  {
  }

  lemma {:induction false} FoldKeeps(
    d: Detection, stmts: seq<Statement>, stack: set<string>, exports: Exports, i: nat, to: string, inner: string, name: string)
    requires i < |stmts| && Forwards(d, stmts[i], to, inner, name)
    requires inner in PlainExports(d, to, stack)
    ensures name in FoldExports(d, stmts, stack, exports)
    decreases |stmts|
  {
    var next := match Target(d, stmts[0]) case None => exports
                case Some(t) => Merge(exports, stmts[0].clause, PlainExports(d, t, stack));
    if i == 0 {
      MergeGives(exports, stmts[0].clause, PlainExports(d, to, stack), name);
      FoldGrows(d, stmts[1..], stack, next, name);
    } else {
      FoldKeeps(d, stmts[1..], stack, next, i - 1, to, inner, name);
    }
  }

  lemma {:induction false} FoldGrows(d: Detection, stmts: seq<Statement>, stack: set<string>, exports: Exports, name: string)
    requires name in exports
    ensures name in FoldExports(d, stmts, stack, exports)
    decreases |stmts|
  {
    if stmts != [] {
      match Target(d, stmts[0])
      case None => FoldGrows(d, stmts[1..], stack, exports, name);
      case Some(to) =>
        var next := Merge(exports, stmts[0].clause, PlainExports(d, to, stack));
        MergeGives(exports, stmts[0].clause, PlainExports(d, to, stack), name);
        FoldGrows(d, stmts[1..], stack, next, name);
    }
  }

  /** Whatever the graph, the plain recursion exposes derivable names only. */
  lemma {:induction false} ExportedIsDerivable(d: Detection, path: string, stack: set<string>, name: string)
    requires name in PlainExports(d, path, stack)
    ensures Derivable(d, path, name, PlainExports(d, path, stack)[name])
    decreases d.files.Keys - stack, 1, 0
  {
    if path in d.registered {
      assert DerivableIn(d, path, name, path, 0);
    } else {
      FoldIsDerivable(d, path, 0, stack + {path}, map[], name);
      assert d.files[path][0..] == d.files[path];
    }
  }

  lemma {:induction false} FoldIsDerivable(d: Detection, path: string, i: nat, stack: set<string>, exports: Exports, name: string)
    requires path in d.files && path !in d.registered && i <= |d.files[path]|
    requires forall n :: n in exports ==> Derivable(d, path, n, exports[n])
    requires name in FoldExports(d, d.files[path][i..], stack, exports)
    ensures Derivable(d, path, name, FoldExports(d, d.files[path][i..], stack, exports)[name])
    decreases d.files.Keys - stack, 2, |d.files[path]| - i
  {
    var stmts := d.files[path];
    if i < |stmts| {
      assert stmts[i..][0] == stmts[i] && stmts[i..][1..] == stmts[i + 1..];
      match Target(d, stmts[i])
      case None => FoldIsDerivable(d, path, i + 1, stack, exports, name);
      case Some(to) =>
        var reachable := PlainExports(d, to, stack);
        forall inner | inner in reachable ensures Derivable(d, to, inner, reachable[inner]) {
          ExportedIsDerivable(d, to, stack, inner);
        }
        MergeIsDerivable(d, path, i, to, exports, reachable);
        FoldIsDerivable(d, path, i + 1, stack, Merge(exports, stmts[i].clause, reachable), name);
    }
  }

  lemma MergeIsDerivable(d: Detection, path: string, i: nat, to: string, exports: Exports, reachable: Exports)
    requires path in d.files && path !in d.registered && i < |d.files[path]|
    requires Target(d, d.files[path][i]) == Some(to)
    requires forall n :: n in exports ==> Derivable(d, path, n, exports[n])
    requires forall n :: n in reachable ==> Derivable(d, to, n, reachable[n])
    ensures var merged := Merge(exports, d.files[path][i].clause, reachable);
            forall n :: n in merged ==> Derivable(d, path, n, merged[n])
  {
    var clause := d.files[path][i].clause;
    var merged := Merge(exports, clause, reachable);
    forall n | n in merged ensures Derivable(d, path, n, merged[n]) {
      MergeGives(exports, clause, reachable, n);
      if !(n in exports && exports[n] == merged[n]) {
        var inner :| inner in reachable && reachable[inner] == merged[n] && Carries(clause, inner, n);
        var k: nat :| DerivableIn(d, to, inner, merged[n], k);
        assert Forwards(d, d.files[path][i], to, inner, n);
        assert DerivableIn(d, path, n, merged[n], k + 1);
      }
    }
  }

  /** Where no cycle can be reached, a name is exposed exactly when it is derivable. */
  lemma ExposedExactlyWhenDerivable(d: Detection, path: string, name: string)
    requires AcyclicFrom(d, path)
    ensures name in PlainExports(d, path, {}) <==> exists source :: Derivable(d, path, name, source)
  {
    var rank: string -> nat, part :| Ranked(d, rank, part) && path in part;
    if name in PlainExports(d, path, {}) {
      ExportedIsDerivable(d, path, {}, name);
    }
    if source :| Derivable(d, path, name, source) {
      var k: nat :| DerivableIn(d, path, name, source, k);
      DerivableIsExported(d, rank, part, path, name, source, k);
    }
  }

  // ---- The memo table ----

  type Cache = map<string, Exports>

  datatype Memoised = Memoised(exports: Exports, cache: Cache)

  /** What a query yields, and the memo table it leaves. */
  ghost function Memo(d: Detection, path: string, cache: Cache, stack: set<string>): Memoised
    decreases d.files.Keys - stack, 1, 0
  {
    if path in cache then Memoised(cache[path], cache)
    else if path in stack then Memoised(map[], cache)
    else if path in d.registered || path !in d.files then
      var own := PlainExports(d, path, {});
      Memoised(own, cache[path := own])
    else
      var m := FoldMemo(d, d.files[path], stack + {path}, Memoised(map[], cache));
      Memoised(m.exports, m.cache[path := m.exports])
  }

  ghost function FoldMemo(d: Detection, stmts: seq<Statement>, stack: set<string>, m: Memoised): Memoised
    decreases d.files.Keys - stack, 2, |stmts|
  {
    if stmts == [] then m
    else
      match Target(d, stmts[0])
      case None => FoldMemo(d, stmts[1..], stack, m)
      case Some(to) =>
        var r := Memo(d, to, m.cache, stack);
        FoldMemo(d, stmts[1..], stack, Memoised(Merge(m.exports, stmts[0].clause, r.exports), r.cache))
  }

  ghost predicate SoundFor(d: Detection, path: string, exports: Exports) {
    forall name :: name in exports ==> Derivable(d, path, name, exports[name])
  }

  /** Every cached name is derivable. */
  ghost predicate SoundCache(d: Detection, cache: Cache) {
    forall q :: q in cache ==> SoundFor(d, q, cache[q])
  }

  /** Within `part`, every cached map is the one the plain recursion computes from scratch. */
  ghost predicate ExactCache(d: Detection, cache: Cache, part: set<string>) {
    forall q :: q in cache && q in part ==> cache[q] == PlainExports(d, q, {})
  }

  /** Whatever the graph and the queries before, only derivable names are reported. */
  lemma {:induction false} MemoIsSound(d: Detection, path: string, cache: Cache, stack: set<string>)
    requires SoundCache(d, cache)
    ensures var m := Memo(d, path, cache, stack); SoundFor(d, path, m.exports) && SoundCache(d, m.cache)
    decreases d.files.Keys - stack, 1, 0
  {
    hide Derivable;
    if path !in cache && path !in stack {
      if path in d.registered || path !in d.files {
        forall name | name in PlainExports(d, path, {}) ensures Derivable(d, path, name, PlainExports(d, path, {})[name]) {
          ExportedIsDerivable(d, path, {}, name);
        }
      } else {
        assert d.files[path][0..] == d.files[path];
        FoldMemoIsSound(d, path, 0, stack + {path}, Memoised(map[], cache));
      }
    }
  }

  lemma {:induction false} FoldMemoIsSound(d: Detection, path: string, i: nat, stack: set<string>, m: Memoised)
    requires path in d.files && path !in d.registered && i <= |d.files[path]|
    requires SoundFor(d, path, m.exports) && SoundCache(d, m.cache)
    ensures var r := FoldMemo(d, d.files[path][i..], stack, m); SoundFor(d, path, r.exports) && SoundCache(d, r.cache)
    decreases d.files.Keys - stack, 2, |d.files[path]| - i
  {
    hide Derivable;
    var stmts := d.files[path];
    if i < |stmts| {
      assert stmts[i..][0] == stmts[i] && stmts[i..][1..] == stmts[i + 1..];
      match Target(d, stmts[i])
      case None => FoldMemoIsSound(d, path, i + 1, stack, m);
      case Some(to) =>
        MemoIsSound(d, to, m.cache, stack);
        var r := Memo(d, to, m.cache, stack);
        MergeIsDerivable(d, path, i, to, m.exports, r.exports);
        FoldMemoIsSound(d, path, i + 1, stack, Memoised(Merge(m.exports, stmts[i].clause, r.exports), r.cache));
    }
  }

  /**
   A query for a module from which no cycle can be reached yields what the plain recursion does;
   and no query, for whatever module and in the middle of whatever cycle, spoils that.
   */
  lemma {:induction false} MemoIsExact(
    d: Detection, rank: string -> nat, part: set<string>, path: string, cache: Cache, stack: set<string>)
    requires Ranked(d, rank, part) && ExactCache(d, cache, part)
    requires if path in part then AllAbove(rank, part, stack, path) else stack !! part
    ensures var m := Memo(d, path, cache, stack);
            (path in part ==> m.exports == PlainExports(d, path, {})) && ExactCache(d, m.cache, part)
    decreases d.files.Keys - stack, 1, 0
  {
    if path !in cache && path !in stack && path !in d.registered && path in d.files {
      FoldMemoIsExact(d, rank, part, path, 0, stack + {path}, Memoised(map[], cache));
      assert d.files[path][0..] == d.files[path] && {} + {path} == {path};
    }
  }

  lemma {:induction false} FoldMemoIsExact(
    d: Detection, rank: string -> nat, part: set<string>, path: string, i: nat, stack: set<string>, m: Memoised)
    requires Ranked(d, rank, part) && ExactCache(d, m.cache, part)
    requires path in d.files && path !in d.registered && i <= |d.files[path]| && path in stack
    requires path in part ==> forall q :: q in stack && q in part ==> rank(q) >= rank(path)
    requires path !in part ==> stack !! part
    ensures var r := FoldMemo(d, d.files[path][i..], stack, m);
            && (path in part ==> r.exports == FoldExports(d, d.files[path][i..], {path}, m.exports))
            && ExactCache(d, r.cache, part)
    decreases d.files.Keys - stack, 2, |d.files[path]| - i
  {
    var stmts := d.files[path];
    if i < |stmts| {
      assert stmts[i..][0] == stmts[i] && stmts[i..][1..] == stmts[i + 1..];
      match Target(d, stmts[i])
      case None => FoldMemoIsExact(d, rank, part, path, i + 1, stack, m);
      case Some(to) =>
        if path in part {
          RankFalls(d, rank, part, path, i, to);
          StackDoesNotMatter(d, rank, part, to, {}, {path});
        }
        MemoIsExact(d, rank, part, to, m.cache, stack);
        var r := Memo(d, to, m.cache, stack);
        FoldMemoIsExact(d, rank, part, path, i + 1, stack, Memoised(Merge(m.exports, stmts[i].clause, r.exports), r.cache));
    }
  }

  /** The memo table after a series of queries. */
  ghost function Asked(d: Detection, paths: seq<string>): Cache {
    if paths == [] then map[]
    else Memo(d, paths[|paths| - 1], Asked(d, paths[..|paths| - 1]), {}).cache
  }

  /**
   A query for a module from which no cycle can be reached yields what the plain recursion does,
   after any series of queries, for modules on cycles too.
   */
  lemma OrderOfQueriesDoesNotMatter(d: Detection, paths: seq<string>, path: string)
    requires AcyclicFrom(d, path)
    ensures Memo(d, path, Asked(d, paths), {}).exports == PlainExports(d, path, {})
  {
    var rank: string -> nat, part :| Ranked(d, rank, part) && path in part;
    AskedIsExact(d, rank, part, paths);
    MemoIsExact(d, rank, part, path, Asked(d, paths), {});
  }

  lemma {:induction false} AskedIsExact(d: Detection, rank: string -> nat, part: set<string>, paths: seq<string>)
    requires Ranked(d, rank, part)
    ensures ExactCache(d, Asked(d, paths), part)
  {
    if paths != [] {
      AskedIsExact(d, rank, part, paths[..|paths| - 1]);
      MemoIsExact(d, rank, part, paths[|paths| - 1], Asked(d, paths[..|paths| - 1]), {});
    }
  }

  /** Nothing cached changes, and no module in progress is cached. */
  lemma {:induction false} MemoKeeps(d: Detection, path: string, cache: Cache, stack: set<string>)
    ensures var m := Memo(d, path, cache, stack);
            && (forall q :: q in cache ==> q in m.cache && m.cache[q] == cache[q])
            && (forall q :: q in stack && q !in cache ==> q !in m.cache)
    decreases d.files.Keys - stack, 1, 0
  {
    if path !in cache && path !in stack && path !in d.registered && path in d.files {
      FoldMemoKeeps(d, d.files[path], stack + {path}, Memoised(map[], cache));
    }
  }

  lemma {:induction false} FoldMemoKeeps(d: Detection, stmts: seq<Statement>, stack: set<string>, m: Memoised)
    ensures var r := FoldMemo(d, stmts, stack, m);
            && (forall q :: q in m.cache ==> q in r.cache && r.cache[q] == m.cache[q])
            && (forall q :: q in stack && q !in m.cache ==> q !in r.cache)
    decreases d.files.Keys - stack, 2, |stmts|
  {
    if stmts != [] {
      match Target(d, stmts[0])
      case None => FoldMemoKeeps(d, stmts[1..], stack, m);
      case Some(to) =>
        MemoKeeps(d, to, m.cache, stack);
        var r := Memo(d, to, m.cache, stack);
        FoldMemoKeeps(d, stmts[1..], stack, Memoised(Merge(m.exports, stmts[0].clause, r.exports), r.cache));
    }
  }

  /** The names a registered file owns. */
  method OwnExports(d: Detection, path: string) returns (exports: Exports)
    requires path in d.registered
    ensures exports == PlainExports(d, path, {})
  {
    exports := map[];
    if path in d.files {
      var names := OverlayPrimitiveExports(d.files[path]);
      exports := map name | name in names :: path;
      assert names == PublishedNames(d.files[path]);
    }
  }

  method MergeClause(exports: Exports, clause: Clause, reachable: Exports) returns (merged: Exports)
    ensures merged == Merge(exports, clause, reachable)
  {
    merged := exports;
    match clause {
      case Star => merged := merged + reachable;
      case Namespace =>
      case Named(elements) =>
        var i := 0;
        while i < |elements|
          invariant 0 <= i <= |elements|
          invariant MergeNamed(merged, elements[i..], reachable) == MergeNamed(exports, elements, reachable)
        {
          assert elements[i..][0] == elements[i] && elements[i..][1..] == elements[i + 1..];
          if !elements[i].typeOnly && elements[i].Source() in reachable {
            merged := merged[elements[i].name := reachable[elements[i].Source()]];
          }
          i := i + 1;
        }
    }
  }

  class Resolver {
    const d: Detection
    var cache: Cache
    var stack: set<string>

    constructor (d: Detection)
      ensures this.d == d && stack == {} && cache == map[]
    {
      this.d := d;
      cache, stack := map[], {};
    }

    method PrimitiveExportsOf(path: string) returns (exports: Exports)
      modifies this
      ensures Memo(d, path, old(cache), old(stack)) == Memoised(exports, cache)
      ensures stack == old(stack)
      decreases d.files.Keys - stack, path !in stack
    {
      hide Merge, PlainExports, Resolve;
      if path in cache {
        return cache[path];
      }
      exports := map[];
      if path in stack {
        return;
      }
      stack := stack + {path};

      if path in d.registered {
        exports := OwnExports(d, path);
        stack := stack - {path};
        cache := cache[path := exports];
        return;
      }

      if path !in d.files {
        MissingExportsNothing(d, path);
        stack := stack - {path};
        cache := cache[path := exports];
        return;
      }
      var stmts := d.files[path];
      var i := 0;
      assert stmts[0..] == stmts;
      while i < |stmts|
        invariant 0 <= i <= |stmts| && stack == old(stack) + {path}
        invariant FoldMemo(d, stmts[i..], stack, Memoised(exports, cache)) ==
                  FoldMemo(d, stmts, stack, Memoised(map[], old(cache)))
      {
        assert stmts[i..][0] == stmts[i] && stmts[i..][1..] == stmts[i + 1..];
        match Target(d, stmts[i]) {
          case None =>
          case Some(to) =>
            var reachable := PrimitiveExportsOf(to);
            exports := MergeClause(exports, stmts[i].clause, reachable);
        }
        i := i + 1;
      }
      assert stmts[|stmts|..] == [];
      stack := stack - {path};
      cache := cache[path := exports];
    }
  }

  lemma MissingExportsNothing(d: Detection, path: string)
    requires path !in d.registered && path !in d.files
    ensures PlainExports(d, path, {}) == map[]
  {
  }

  // ---- Cycles ----

  /** `a` re-exports `b` and the primitives of `p`, and `b` re-exports `a`. */
  ghost predicate Ring(d: Detection) {
    && d.registered == {"p.ts"} && d.files.Keys == {"a.ts", "b.ts", "p.ts"}
    && d.files["a.ts"] == [ReExport(false, Relative("b"), Star), ReExport(false, Relative("p"), Star)]
    && d.files["b.ts"] == [ReExport(false, Relative("a"), Star)]
  }

  /**
   Inside an import cycle an incomplete result is cached: a query for `a` caches `b` as
   exposing nothing, and `b` stays so, although it exposes whatever `p` owns over `a`, and a
   query for `b` alone finds that.
   */
  lemma CyclesAreCachedIncomplete(d: Detection, name: string)
    requires Ring(d) && PublishedPrimitive(d.files["p.ts"], name)
    ensures Memo(d, "b.ts", Asked(d, ["a.ts"]), {}).exports == map[]
    ensures Derivable(d, "b.ts", name, "p.ts")
    ensures name in Memo(d, "b.ts", map[], {}).exports
  {
    Candidates(d);
    RingIsDerivable(d, name);
    RingFromA(d);
    RingFromB(d, name);
    assert ["a.ts"][..0] == [] && Asked(d, []) == map[];
  }

  lemma RingIsDerivable(d: Detection, name: string)
    requires Ring(d) && PublishedPrimitive(d.files["p.ts"], name)
    ensures Derivable(d, "b.ts", name, "p.ts")
  {
    Candidates(d);
    assert DerivableIn(d, "p.ts", name, "p.ts", 0);
    assert Forwards(d, d.files["a.ts"][1], "p.ts", name, name);
    assert DerivableIn(d, "a.ts", name, "p.ts", 1);
    assert Forwards(d, d.files["b.ts"][0], "a.ts", name, name);
    assert DerivableIn(d, "b.ts", name, "p.ts", 2);
  }

  lemma RingFromA(d: Detection)
    requires Ring(d)
    ensures var m := Memo(d, "a.ts", map[], {}); "b.ts" in m.cache && m.cache["b.ts"] == map[]
  {
    Candidates(d);
    hide Resolve, PlainExports;
    var a, b, none := d.files["a.ts"], d.files["b.ts"], Memoised(map[], map[]);
    var up := {} + {"a.ts"};
    OneReExport(d, b, "a.ts", up + {"b.ts"}, none);
    assert Memo(d, "a.ts", map[], up + {"b.ts"}) == none;
    assert Memo(d, "b.ts", map[], up) == Memoised(map[], map["b.ts" := map[]]);
    var m := Memoised(Merge(map[], Star, map[]), map["b.ts" := map[]]);
    assert FoldMemo(d, a, up, none) == FoldMemo(d, a[1..], up, m);
    FoldMemoKeeps(d, a[1..], up, m);
  }

  lemma RingFromB(d: Detection, name: string)
    requires Ring(d) && PublishedPrimitive(d.files["p.ts"], name)
    ensures name in Memo(d, "b.ts", map[], {}).exports
  {
    Candidates(d);
    hide Resolve, PublishedPrimitive, PlainExports;
    var up := {} + {"b.ts"};
    RingFromAAgain(d, name, up + {"a.ts"});
    assert name in Memo(d, "a.ts", map[], up).exports;
    OneReExport(d, d.files["b.ts"], "a.ts", up, Memoised(map[], map[]));
  }

  lemma RingFromAAgain(d: Detection, name: string, stack: set<string>)
    requires Ring(d) && PublishedPrimitive(d.files["p.ts"], name) && stack == {"a.ts", "b.ts"}
    ensures name in FoldMemo(d, d.files["a.ts"], stack, Memoised(map[], map[])).exports
  {
    Candidates(d);
    RegisteredExports(d, name);
    hide Resolve, PublishedPrimitive, PlainExports;
    var a, none := d.files["a.ts"], Memoised(map[], map[]);
    assert Memo(d, "b.ts", map[], stack) == none;
    assert Merge(map[], Star, map[]) == map[];
    assert FoldMemo(d, a, stack, none) == FoldMemo(d, a[1..], stack, none);
    OneReExport(d, a[1..], "p.ts", stack, none);
  }

  lemma RegisteredExports(d: Detection, name: string)
    requires Ring(d) && PublishedPrimitive(d.files["p.ts"], name)
    ensures name in PlainExports(d, "p.ts", {})
  {
  }

  lemma OneReExport(d: Detection, stmts: seq<Statement>, to: string, stack: set<string>, m: Memoised)
    requires |stmts| == 1 && Target(d, stmts[0]) == Some(to) && stmts[0].clause == Star
    ensures var r := Memo(d, to, m.cache, stack);
            FoldMemo(d, stmts, stack, m) == Memoised(m.exports + r.exports, r.cache)
  {
    var r := Memo(d, to, m.cache, stack);
    assert stmts[1..] == [];
    assert FoldMemo(d, [], stack, Memoised(m.exports + r.exports, r.cache)) == Memoised(m.exports + r.exports, r.cache);
  }

  lemma Candidates(d: Detection)
    requires d.files.Keys == {"a.ts", "b.ts", "p.ts"}
    ensures Resolve(d, Relative("a")) == Some("a.ts")
    ensures Resolve(d, Relative("b")) == Some("b.ts")
    ensures Resolve(d, Relative("p")) == Some("p.ts")
    ensures "a.ts" != "b.ts" && "a.ts" != "p.ts" && "b.ts" != "p.ts"
  {
    assert "a.ts"[0] == 'a' && "b.ts"[0] == 'b' && "p.ts"[0] == 'p';
    assert |"a" + ".tsx"| == 5 && |"b" + ".tsx"| == 5 && |"p" + ".tsx"| == 5;
    assert "a" + ".ts" == "a.ts" && "b" + ".ts" == "b.ts" && "p" + ".ts" == "p.ts";
  }
}
