/**
 Laws of the redaction policy: when a value is handed on untouched, when a second pass
 changes nothing, when the walk lets an exception out, and that sharing is never mistaken
 for a cycle.
 */
module RedactionLaws {
  import opened Outcomes
  import opened JsHeap
  import opened Redaction

  /** No NaN anywhere, and no container whose `toJSON` lookup would run code. */
  ghost predicate Settled(t: Tree) {
    match t
    case Leaf(v) => !v.NaN?
    case Node(_, _, kids, _, live) => !live && forall i :: 0 <= i < |kids| ==> Settled(kids[i].tree)
    case _ => true
  }

  ghost predicate SettledKids(kids: seq<Kid>) {
    forall i :: 0 <= i < |kids| ==> Settled(kids[i].tree)
  }

  /** A tree the policy has nothing to do to. */
  ghost predicate Pristine(keys: set<string>, t: Tree) {
    Clean(keys, t) && Settled(t)
  }

  // ---- Heights, and clean unfoldings as rank functions ----

  ghost function Height(t: Tree): nat
    decreases t
  {
    if t.Node? then 1 + Tallest(t.kids) else 0
  }

  ghost function Tallest(kids: seq<Kid>): nat
    decreases kids
  {
    if kids == [] then 0
    else
      var a, b := KidHeight(kids[0]), Tallest(kids[1..]);
      if a > b then a else b
  }

  ghost function KidHeight(k: Kid): nat
    decreases k
  {
    match k
    case Kid(_, t) => Height(t)
  }

  lemma {:induction false} KidIsLower(kids: seq<Kid>, i: nat)
    requires i < |kids|
    ensures Height(kids[i].tree) <= Tallest(kids)
  {
    if i > 0 {
      KidIsLower(kids[1..], i - 1);
    }
  }

  /** A clean unfolding is the whole graph below the value: more room shows nothing more. */
  lemma {:induction false} CleanIsComplete(keys: set<string>, h: Heap, v: Value, room: nat, more: nat)
    requires Closed(h) && ValueIn(h, v) && room <= more
    requires Clean(keys, Unfold(h, v, room))
    ensures Unfold(h, v, more) == Unfold(h, v, room)
    decreases room, 1, 0
  {
    if v.Obj? && room > 0 {
      NodeEdgesIn(h, v.ref);
      if !h[v.ref].kind.Scalar? && !h[v.ref].kind.Url? {
        CleanEdgesAreComplete(keys, h, Edges(h[v.ref]), room - 1, more - 1);
      }
    }
  }

  lemma {:induction false} CleanEdgesAreComplete(keys: set<string>, h: Heap, es: seq<Edge>, room: nat, more: nat)
    requires Closed(h) && EdgesIn(h, es) && room <= more
    requires CleanKids(keys, UnfoldEdges(h, es, room))
    ensures UnfoldEdges(h, es, more) == UnfoldEdges(h, es, room)
    decreases room, 2, |es|
  {
    if es != [] {
      var kids := UnfoldEdges(h, es, room);
      assert Clean(keys, kids[0].tree) && kids[0].tree == UnfoldSlot(h, es[0].slot, room);
      assert kids[1..] == UnfoldEdges(h, es[1..], room);
      CleanEdgesAreComplete(keys, h, es[1..], room, more);
      if !es[0].slot.Throwing? {
        CleanIsComplete(keys, h, es[0].slot.v, room, more);
      }
    }
  }

  // ---- Handed on by reference exactly when there is nothing to do ----

  lemma {:induction false} SameIsSettled(keys: set<string>, g: Heap, v: Value, room: nat, path: set<Ref>)
    requires Closed(g) && ValueIn(g, v)
    ensures var r := Redact(keys, g, v, room, path); r.Done? && r.value.same ==> Settled(r.value.tree)
    decreases g.Keys - path, 1, 0
  {
    if v.Obj? && v.ref !in path && room > 0 && !g[v.ref].kind.Scalar? && !g[v.ref].kind.Url? {
      NodeEdgesIn(g, v.ref);
      SameKidsAreSettled(keys, g, Edges(g[v.ref]), room - 1, path + {v.ref});
    }
  }

  lemma {:induction false} SameKidsAreSettled(keys: set<string>, g: Heap, es: seq<Edge>, room: nat, path: set<Ref>)
    requires Closed(g) && EdgesIn(g, es)
    ensures var r := RedactEdges(keys, g, es, room, path); r.Done? && r.value.same ==> SettledKids(r.value.kids)
    decreases g.Keys - path, 2, |es|
  {
    if es != [] {
      SameKidsAreSettled(keys, g, es[1..], room, path);
      if !es[0].slot.Throwing? {
        SameIsSettled(keys, g, es[0].slot.v, room, path);
      }
    }
  }

  /** Every container of `path` stands higher than `v` in the unfolding with `top` levels. */
  ghost predicate Above(g: Heap, path: set<Ref>, v: Value, top: nat)
    requires Closed(g) && ValueIn(g, v)
  {
    forall a :: a in path ==> a in g && Height(Unfold(g, Obj(a), top)) > Height(Unfold(g, v, top))
  }

  predicate IsContainer(o: Object) {
    !o.kind.Scalar? && !o.kind.Url?
  }

  /** Nothing on the path is met on the way down from `v`, over `room` levels of containers. */
  ghost predicate Apart(g: Heap, v: Value, room: nat, path: set<Ref>)
    requires Closed(g) && ValueIn(g, v)
    decreases room, 1
  {
    if v.Obj? && IsContainer(g[v.ref]) then
      NodeEdgesIn(g, v.ref);
      v.ref !in path && (room > 0 ==> ApartEdges(g, Edges(g[v.ref]), room - 1, path))
    else true
  }

  ghost predicate ApartEdges(g: Heap, es: seq<Edge>, room: nat, path: set<Ref>)
    requires Closed(g) && EdgesIn(g, es)
    decreases room, 2
  {
    forall i :: 0 <= i < |es| && !es[i].slot.Throwing? ==> Apart(g, es[i].slot.v, room, path)
  }

  lemma {:induction false} ApartFromBoth(g: Heap, v: Value, room: nat, path: set<Ref>, more: set<Ref>)
    requires Closed(g) && ValueIn(g, v)
    ensures Apart(g, v, room, path + more) <==> Apart(g, v, room, path) && Apart(g, v, room, more)
    decreases room
  {
    if v.Obj? && IsContainer(g[v.ref]) && room > 0 {
      NodeEdgesIn(g, v.ref);
      var es := Edges(g[v.ref]);
      forall i | 0 <= i < |es| && !es[i].slot.Throwing?
        ensures Apart(g, es[i].slot.v, room - 1, path + more) <==>
                Apart(g, es[i].slot.v, room - 1, path) && Apart(g, es[i].slot.v, room - 1, more)
      {
        ApartFromBoth(g, es[i].slot.v, room - 1, path, more);
      }
    }
  }

  /** Everything is apart from nothing. */
  lemma {:induction false} ApartFromNothing(g: Heap, v: Value, room: nat)
    requires Closed(g) && ValueIn(g, v)
    ensures Apart(g, v, room, {})
    decreases room
  {
    if v.Obj? && IsContainer(g[v.ref]) && room > 0 {
      NodeEdgesIn(g, v.ref);
      forall i | 0 <= i < |Edges(g[v.ref])| && !Edges(g[v.ref])[i].slot.Throwing?
        ensures Apart(g, Edges(g[v.ref])[i].slot.v, room - 1, {})
      {
        ApartFromNothing(g, Edges(g[v.ref])[i].slot.v, room - 1);
      }
    }
  }

  /** A value is apart from whatever stands higher. */
  lemma {:induction false} AboveIsApart(keys: set<string>, g: Heap, v: Value, room: nat, path: set<Ref>, top: nat)
    requires Closed(g) && ValueIn(g, v) && room <= top
    requires Clean(keys, Unfold(g, v, room)) && Above(g, path, v, top)
    ensures Apart(g, v, room, path)
    decreases room
  {
    if v.Obj? && IsContainer(g[v.ref]) {
      hide Edges, Height, Closed;
      NodeEdgesIn(g, v.ref);
      var es := Edges(g[v.ref]);
      forall i | 0 <= i < |es| && !es[i].slot.Throwing? ensures Apart(g, es[i].slot.v, room - 1, path) {
        CleanEdge(keys, g, v.ref, room, i);
        CleanIsComplete(keys, g, v, room, top);
        CleanIsComplete(keys, g, es[i].slot.v, room - 1, top);
        AboveIsApart(keys, g, es[i].slot.v, room - 1, path, top);
      }
    }
  }

  /** Below the edges of a clean container, the container is not met again. */
  lemma EdgesAreApart(keys: set<string>, g: Heap, n: Ref, room: nat, path: set<Ref>)
    requires Closed(g) && n in g && IsContainer(g[n]) && EdgesIn(g, Edges(g[n]))
    requires room > 0 && Clean(keys, Unfold(g, Obj(n), room)) && ApartEdges(g, Edges(g[n]), room - 1, path)
    ensures ApartEdges(g, Edges(g[n]), room - 1, path + {n})
  {
    hide Edges, Height, Closed;
    var es := Edges(g[n]);
    forall i | 0 <= i < |es| && !es[i].slot.Throwing? ensures Apart(g, es[i].slot.v, room - 1, path + {n}) {
      CleanEdge(keys, g, n, room, i);
      CleanIsComplete(keys, g, es[i].slot.v, room - 1, room);
      AboveIsApart(keys, g, es[i].slot.v, room - 1, {n}, room);
      ApartFromBoth(g, es[i].slot.v, room - 1, path, {n});
    }
  }

  lemma {:induction false} PristineIsSame(keys: set<string>, g: Heap, v: Value, room: nat, path: set<Ref>)
    requires Closed(g) && ValueIn(g, v)
    requires Pristine(keys, Unfold(g, v, room)) && Apart(g, v, room, path)
    ensures var r := Redact(keys, g, v, room, path); r.Done? && r.value.same
    decreases g.Keys - path, 1, 0
  {
    if v.Obj? && IsContainer(g[v.ref]) {
      hide Edges;
      var n, es := v.ref, Edges(g[v.ref]);
      NodeEdgesIn(g, n);
      EdgesAreApart(keys, g, n, room, path);
      PristineEdgesAreSame(keys, g, es, room - 1, path + {n});
      assert Redact(keys, g, v, room, path) == RedactNode(keys, g, n, room, path + {n});
    }
  }

  lemma {:induction false} PristineEdgesAreSame(keys: set<string>, g: Heap, es: seq<Edge>, room: nat, path: set<Ref>)
    requires Closed(g) && EdgesIn(g, es)
    requires CleanKids(keys, UnfoldEdges(g, es, room)) && SettledKids(UnfoldEdges(g, es, room))
    requires ApartEdges(g, es, room, path)
    ensures var r := RedactEdges(keys, g, es, room, path); r.Done? && r.value.same
    decreases g.Keys - path, 2, |es|
  {
    if es != [] {
      var kids := UnfoldEdges(g, es, room);
      assert kids[0] == Kid(es[0].at, UnfoldSlot(g, es[0].slot, room));
      assert Pristine(keys, kids[0].tree) && !Erased(keys, kids[0].at);
      assert kids[1..] == UnfoldEdges(g, es[1..], room);
      assert ApartEdges(g, es[1..], room, path);
      PristineEdgesAreSame(keys, g, es[1..], room, path);
      PristineIsSame(keys, g, es[0].slot.v, room, path);
    }
  }

  lemma {:induction false} SameIsApart(keys: set<string>, g: Heap, v: Value, room: nat, path: set<Ref>)
    requires Closed(g) && ValueIn(g, v)
    ensures var r := Redact(keys, g, v, room, path); r.Done? && r.value.same ==> Apart(g, v, room, path)
    decreases g.Keys - path, 1, 0
  {
    var r := Redact(keys, g, v, room, path);
    if v.Obj? && IsContainer(g[v.ref]) && r.Done? && r.value.same {
      hide Edges;
      var n, es := v.ref, Edges(g[v.ref]);
      NodeEdgesIn(g, n);
      assert r == RedactNode(keys, g, n, room, path + {n});
      SameEdgesAreApart(keys, g, es, room - 1, path + {n});
      forall i | 0 <= i < |es| && !es[i].slot.Throwing? ensures Apart(g, es[i].slot.v, room - 1, path) {
        ApartFromBoth(g, es[i].slot.v, room - 1, path, {n});
      }
    }
  }

  lemma {:induction false} SameEdgesAreApart(keys: set<string>, g: Heap, es: seq<Edge>, room: nat, path: set<Ref>)
    requires Closed(g) && EdgesIn(g, es)
    ensures var r := RedactEdges(keys, g, es, room, path); r.Done? && r.value.same ==> ApartEdges(g, es, room, path)
    decreases g.Keys - path, 2, |es|
  {
    if es != [] {
      SameEdgesAreApart(keys, g, es[1..], room, path);
      assert forall i :: 0 < i < |es| ==> es[i] == es[1..][i - 1];
      if !es[0].slot.Throwing? {
        SameIsApart(keys, g, es[0].slot.v, room, path);
      }
    }
  }

  /**
   A value is handed on under its own identity exactly when its unfolding, to the depth left,
   holds nothing to erase, mark, cut or redirect and no NaN, and never leads back to the path.
   */
  lemma SameExactlyWhenPristine(keys: set<string>, g: Heap, v: Value, room: nat, path: set<Ref>)
    requires Closed(g) && ValueIn(g, v)
    ensures var r := Redact(keys, g, v, room, path);
            r.Done? && r.value.same <==> Pristine(keys, Unfold(g, v, room)) && Apart(g, v, room, path)
  {
    var r := Redact(keys, g, v, room, path);
    if r.Done? && r.value.same {
      SameIsUnfolded(keys, g, v, room, path);
      RedactedIsClean(keys, g, v, room, path);
      SameIsSettled(keys, g, v, room, path);
      SameIsApart(keys, g, v, room, path);
    }
    if Pristine(keys, Unfold(g, v, room)) && Apart(g, v, room, path) {
      PristineIsSame(keys, g, v, room, path);
    }
  }

  /** For the walk from the top, with nothing on the path. */
  lemma HandedOnExactlyWhenPristine(keys: set<string>, g: Heap, n: Ref)
    requires Closed(g) && n in g
    ensures var r := Redact(keys, g, Obj(n), MAX_DEPTH, {});
            r.Done? && r.value.same <==> Pristine(keys, Unfold(g, Obj(n), MAX_DEPTH))
  {
    ApartFromNothing(g, Obj(n), MAX_DEPTH);
    SameExactlyWhenPristine(keys, g, Obj(n), MAX_DEPTH, {});
  }

  // ---- The graph behind a clean unfolding ----

  ghost predicate Step(h: Heap, n: Ref, m: Ref)
    requires n in h
  {
    exists i :: 0 <= i < |Edges(h[n])| && !Edges(h[n])[i].slot.Throwing? && Edges(h[n])[i].slot.v == Obj(m)
  }

  /** A chain of containers along walked edges. */
  ghost predicate Chain(h: Heap, ns: seq<Ref>) {
    && (forall i :: 0 <= i < |ns| ==> ns[i] in h && IsContainer(h[ns[i]]))
    && (forall i :: 0 <= i < |ns| - 1 ==> Step(h, ns[i], ns[i + 1]))
  }

  /** Every walked edge of the object can be read, is not a secret key and is not a URL object. */
  ghost predicate Harmless(keys: set<string>, h: Heap, o: Object) {
    forall i :: 0 <= i < |Edges(o)| ==>
      var e := Edges(o)[i];
      && (e.at.Field? ==> e.at.name !in keys && e.at.name != "__proto__")
      && !e.slot.Throwing?
      && (e.slot.v.Obj? && e.slot.v.ref in h ==> !h[e.slot.v.ref].kind.Url?)
  }

  /**
   A clean unfolding means a harmless, acyclic graph of bounded depth: along walked edges
   no chain is longer than `room`, none meets a container twice, and every object met is
   harmless.
   */
  lemma {:induction false} CleanGraph(keys: set<string>, h: Heap, ns: seq<Ref>, room: nat)
    requires Closed(h) && |ns| > 0 && Chain(h, ns)
    requires Clean(keys, Unfold(h, Obj(ns[0]), room))
    ensures |ns| <= room
    ensures forall i, j :: 0 <= i < j < |ns| ==> ns[i] != ns[j]
    ensures forall i :: 0 <= i < |ns| ==> Harmless(keys, h, h[ns[i]])
  {
    ChainDescends(keys, h, ns, room, room);
  }

  lemma CleanNode(keys: set<string>, h: Heap, n: Ref, room: nat, top: nat)
    requires Closed(h) && n in h && IsContainer(h[n]) && room <= top
    requires Clean(keys, Unfold(h, Obj(n), room))
    ensures room > 0 && Harmless(keys, h, h[n])
    ensures forall m :: Step(h, n, m) ==>
              && m in h
              && Clean(keys, Unfold(h, Obj(m), room - 1))
              && Height(Unfold(h, Obj(n), top)) > Height(Unfold(h, Obj(m), top))
  {
    hide Closed, ToJson, Erased, Edges, Height;
    var es := Edges(h[n]);
    NodeEdgesIn(h, n);
    forall i | 0 <= i < |es|
      ensures room > 0 && Clean(keys, UnfoldSlot(h, es[i].slot, room - 1))
      ensures es[i].at.Field? ==> es[i].at.name !in keys && es[i].at.name != "__proto__"
      ensures Height(UnfoldSlot(h, es[i].slot, room - 1)) < Height(Unfold(h, Obj(n), room))
    {
      CleanEdge(keys, h, n, room, i);
      NotErased(keys, es[i].at);
    }
    CleanIsComplete(keys, h, Obj(n), room, top);
    forall m | Step(h, n, m)
      ensures m in h && Clean(keys, Unfold(h, Obj(m), room - 1))
      ensures Height(Unfold(h, Obj(n), top)) > Height(Unfold(h, Obj(m), top))
    {
      var i :| 0 <= i < |es| && !es[i].slot.Throwing? && es[i].slot.v == Obj(m);
      CleanIsComplete(keys, h, Obj(m), room - 1, top);
    }
  }

  lemma NotErased(keys: set<string>, at: Label)
    ensures !Erased(keys, at) && at.Field? ==> at.name !in keys && at.name != "__proto__"
  {
  }

  /** The kid behind an edge of a clean node is clean and stands lower. */
  lemma CleanEdge(keys: set<string>, h: Heap, n: Ref, room: nat, i: nat)
    requires Closed(h) && n in h && IsContainer(h[n]) && i < |Edges(h[n])| && EdgesIn(h, Edges(h[n]))
    requires Clean(keys, Unfold(h, Obj(n), room))
    ensures room > 0 && !Erased(keys, Edges(h[n])[i].at)
    ensures Clean(keys, UnfoldSlot(h, Edges(h[n])[i].slot, room - 1))
    ensures Height(UnfoldSlot(h, Edges(h[n])[i].slot, room - 1)) < Height(Unfold(h, Obj(n), room))
  {
    hide Closed, ToJson, Erased, Edges;
    var kids := UnfoldEdges(h, Edges(h[n]), room - 1);
    assert CleanKids(keys, kids);
    UnfoldEdgesAt(h, Edges(h[n]), room - 1, i);
    KidIsLower(kids, i);
  }

  lemma {:induction false} ChainDescends(keys: set<string>, h: Heap, ns: seq<Ref>, room: nat, top: nat)
    requires Closed(h) && |ns| > 0 && Chain(h, ns) && room <= top
    requires Clean(keys, Unfold(h, Obj(ns[0]), room))
    ensures |ns| <= room
    ensures forall i, j :: 0 <= i < j < |ns| ==>
              Height(Unfold(h, Obj(ns[i]), top)) > Height(Unfold(h, Obj(ns[j]), top))
    ensures forall i :: 0 <= i < |ns| ==> Harmless(keys, h, h[ns[i]])
    decreases |ns|
  {
    hide Clean, Height, Unfold, Harmless, Step, Closed;
    CleanNode(keys, h, ns[0], room, top);
    if |ns| > 1 {
      var tail := ns[1..];
      assert Step(h, ns[0], ns[1]);
      forall k | 0 <= k < |tail| - 1 ensures Step(h, tail[k], tail[k + 1]) {
        assert tail[k] == ns[k + 1] && tail[k + 1] == ns[k + 2];
      }
      ChainDescends(keys, h, tail, room - 1, top);
      forall i, j | 0 <= i < j < |ns|
        ensures Height(Unfold(h, Obj(ns[i]), top)) > Height(Unfold(h, Obj(ns[j]), top))
      {
        assert ns[j] == tail[j - 1] && tail[0] == ns[1];
        assert i > 0 ==> ns[i] == tail[i - 1];
      }
      assert forall i :: 0 < i < |ns| ==> ns[i] == tail[i - 1];
    }
  }

  // ---- Sharing ----

  predicate Within(v: Value, part: set<Ref>) {
    v.Obj? ==> v.ref in part
  }

  predicate EdgesWithin(es: seq<Edge>, part: set<Ref>) {
    forall i :: 0 <= i < |es| && !es[i].slot.Throwing? ==> Within(es[i].slot.v, part)
  }

  /** A part of the graph that the walk does not leave once inside. */
  ghost predicate SelfContained(g: Heap, part: set<Ref>) {
    forall n :: n in part ==>
      && n in g
      && EdgesWithin(Edges(g[n]), part)
      && (!ToJson(g[n]).Throwing? && ToJson(g[n]).v.Fn? && ToJson(g[n]).v.call.Returns? ==>
            Within(ToJson(g[n]).v.call.result, part))
  }

  /**
   Containers on the path matter only where they are met again: a value inside a part of the
   graph they do not belong to is treated as if they were not there. So an object shared by
   two branches is treated alike in both, and marked circular only below itself.
   */
  lemma {:induction false} SharingIsNotACycle(keys: set<string>,
    g: Heap, v: Value, room: nat, path: set<Ref>, above: set<Ref>, part: set<Ref>)
    requires Closed(g) && ValueIn(g, v)
    requires SelfContained(g, part) && Within(v, part) && above !! part
    ensures Redact(keys, g, v, room, path + above) == Redact(keys, g, v, room, path)
    decreases g.Keys - path, 1, 0
  {
    if v.Obj? && v.ref !in path && room > 0 && !g[v.ref].kind.Scalar? && !g[v.ref].kind.Url? {
      var n, o, onPath := v.ref, g[v.ref], path + {v.ref};
      ToJsonIn(g, n);
      NodeEdgesIn(g, n);
      assert path + above + {n} == onPath + above;
      if !ToJson(o).Throwing? && ToJson(o).v.Fn? {
        if ToJson(o).v.call.Returns? {
          SharingIsNotACycle(keys, g, ToJson(o).v.call.result, room, onPath, above, part);
        }
      } else {
        SharedEdgesAlike(keys, g, Edges(o), room - 1, onPath, above, part);
      }
    }
  }

  lemma {:induction false} SharedEdgesAlike(keys: set<string>,
    g: Heap, es: seq<Edge>, room: nat, path: set<Ref>, above: set<Ref>, part: set<Ref>)
    requires Closed(g) && EdgesIn(g, es)
    requires SelfContained(g, part) && EdgesWithin(es, part) && above !! part
    ensures RedactEdges(keys, g, es, room, path + above) == RedactEdges(keys, g, es, room, path)
    decreases g.Keys - path, 2, |es|
  {
    if es != [] {
      SharedEdgesAlike(keys, g, es[1..], room, path, above, part);
      if !es[0].slot.Throwing? {
        SharingIsNotACycle(keys, g, es[0].slot.v, room, path, above, part);
      }
    }
  }
}
