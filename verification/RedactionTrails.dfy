/**
 What on its way decides how the walk ends, read off the graph it is given: the objects that let
 an exception out, and those that keep a second pass from leaving the first result alone.
 */
module RedactionTrails {
  import opened Outcomes
  import opened JsHeap
  import opened Redaction
  import opened RedactionLaws

  // ---- Rebuilt or not ----

  /** The walk has nothing to change at the container, nor below it. */
  ghost predicate Untouched(keys: set<string>, g: Heap, n: Ref, room: nat, path: set<Ref>)
    requires Closed(g) && n in g
  {
    Pristine(keys, Unfold(g, Obj(n), room)) && Apart(g, Obj(n), room, path)
  }

  predicate Redirected(o: Object) {
    !ToJson(o).Throwing? && ToJson(o).v.Fn?
  }

  /** A container that is walked is kept exactly when it is untouched. */
  lemma KeptExactlyWhenUntouched(keys: set<string>, g: Heap, n: Ref, room: nat, path: set<Ref>)
    requires Closed(g) && n in g && IsContainer(g[n]) && n !in path && room > 0 && !Live(ToJson(g[n]))
    ensures EdgesIn(g, Edges(g[n]))
    ensures var r := RedactEdges(keys, g, Edges(g[n]), room - 1, path + {n});
            r.Done? && r.value.same <==> Untouched(keys, g, n, room, path)
  {
    NodeEdgesIn(g, n);
    SameExactlyWhenPristine(keys, g, Obj(n), room, path);
    assert Redact(keys, g, Obj(n), room, path) == RedactNode(keys, g, n, room, path + {n});
  }

  // ---- Exceptions ----

  /**
   Walking this object itself throws: its `toJSON` accessor does, an array element does, or
   the tag of a record that has to be rebuilt does.
   */
  ghost predicate Hostile(keys: set<string>, g: Heap, n: Ref, room: nat, path: set<Ref>)
    requires Closed(g) && n in g
  {
    var o := g[n];
    || ToJson(o).Throwing?
    || (!ToJson(o).v.Fn? && o.kind.Array? && exists i :: 0 <= i < |o.elems| && o.elems[i].Throwing?)
    || (!ToJson(o).v.Fn? && !o.kind.Array? && Tag(o).Throwing? && !Untouched(keys, g, n, room, path))
  }

  predicate Enters(g: Heap, n: Ref, room: nat, path: set<Ref>) {
    n in g && IsContainer(g[n]) && n !in path && room > 0
  }

  /**
   `ns` are objects the walk enters one inside the other, through `toJSON` or through an edge
   that is not erased, and the last one is hostile, or a URL that cannot be read.
   */
  ghost predicate Trail(keys: set<string>, g: Heap, v: Value, room: nat, path: set<Ref>, ns: seq<Ref>)
    requires Closed(g)
    decreases |ns|, 0
  {
    && |ns| > 0 && v == Obj(ns[0]) && ns[0] in g
    && var o := g[ns[0]];
       if o.kind.Url? then |ns| == 1 && o.kind.shown.None?
       else
         && Enters(g, ns[0], room, path)
         && if |ns| == 1 then Hostile(keys, g, ns[0], room, path)
            else if Redirected(o) then
              ToJson(o).v.call.Returns? && Trail(keys, g, ToJson(o).v.call.result, room, path + {ns[0]}, ns[1..])
            else
              && !ToJson(o).Throwing?
              && exists i :: 0 <= i < |Edges(o)| && TrailFrom(keys, g, Edges(o)[i], room - 1, path + {ns[0]}, ns[1..])
  }

  ghost predicate TrailFrom(keys: set<string>, g: Heap, e: Edge, room: nat, path: set<Ref>, ns: seq<Ref>)
    requires Closed(g)
    decreases |ns|, 1
  {
    !Erased(keys, e.at) && !e.slot.Throwing? && Trail(keys, g, e.slot.v, room, path, ns)
  }

  lemma {:induction false} ThrewLeavesTrail(keys: set<string>, g: Heap, v: Value, room: nat, path: set<Ref>) returns (ns: seq<Ref>)
    requires Closed(g) && ValueIn(g, v) && Redact(keys, g, v, room, path).Threw?
    ensures Trail(keys, g, v, room, path, ns)
    decreases g.Keys - path, 1, 0
  {
    var n, o, onPath := v.ref, g[v.ref], path + {v.ref};
    if o.kind.Url? {
      return [n];
    }
    ToJsonIn(g, n);
    NodeEdgesIn(g, n);
    if Hostile(keys, g, n, room, path) {
      return [n];
    }
    assert Redact(keys, g, v, room, path) == RedactNode(keys, g, n, room, onPath);
    var tail;
    if Redirected(o) {
      tail := ThrewLeavesTrail(keys, g, ToJson(o).v.call.result, room, onPath);
    } else {
      var i;
      i, tail := EdgesThrew(keys, g, n, room, path);
      assert TrailFrom(keys, g, Edges(o)[i], room - 1, onPath, tail);
    }
    ns := [n] + tail;
    assert ns[1..] == tail && |tail| > 0;
  }

  /** If a walked container is not hostile itself, one of its edges leads to what is. */
  lemma {:induction false} EdgesThrew(keys: set<string>, g: Heap, n: Ref, room: nat, path: set<Ref>)
    returns (i: nat, ns: seq<Ref>)
    requires Closed(g) && Enters(g, n, room, path) && EdgesIn(g, Edges(g[n]))
    requires !Hostile(keys, g, n, room, path) && !Redirected(g[n])
    requires RedactNode(keys, g, n, room, path + {n}).Threw?
    ensures i < |Edges(g[n])| && TrailFrom(keys, g, Edges(g[n])[i], room - 1, path + {n}, ns)
    decreases g.Keys - path, 0, 0
  {
    var o := g[n];
    KeptExactlyWhenUntouched(keys, g, n, room, path);
    if !o.kind.Array? {
      forall i | 0 <= i < |Edges(o)| ensures Edges(o)[i].at.Field? {
        var j := FieldEdgeFrom(o.props, i);
      }
    }
    i, ns := ThrewAtEdge(keys, g, Edges(o), room - 1, path + {n}, o.kind.Array?);
  }

  lemma {:induction false} ThrewAtEdge(keys: set<string>, g: Heap, es: seq<Edge>, room: nat, path: set<Ref>, items: bool)
    returns (i: nat, ns: seq<Ref>)
    requires Closed(g) && EdgesIn(g, es) && RedactEdges(keys, g, es, room, path).Threw?
    requires forall i :: 0 <= i < |es| ==> if items then !es[i].slot.Throwing? else es[i].at.Field?
    ensures i < |es| && TrailFrom(keys, g, es[i], room, path, ns)
    decreases g.Keys - path, 2, |es|
  {
    if RedactEdges(keys, g, es[1..], room, path).Threw? {
      i, ns := ThrewAtEdge(keys, g, es[1..], room, path, items);
      i := i + 1;
    } else {
      i := 0;
      ns := ThrewLeavesTrail(keys, g, es[0].slot.v, room, path);
    }
  }

  lemma {:induction false} TrailThrows(keys: set<string>, g: Heap, v: Value, room: nat, path: set<Ref>, ns: seq<Ref>)
    requires Closed(g) && ValueIn(g, v) && Trail(keys, g, v, room, path, ns)
    ensures Redact(keys, g, v, room, path).Threw?
    decreases |ns|
  {
    var n, o, onPath := v.ref, g[v.ref], path + {v.ref};
    if !o.kind.Url? {
      ToJsonIn(g, n);
      NodeEdgesIn(g, n);
      assert Redact(keys, g, v, room, path) == RedactNode(keys, g, n, room, onPath);
      if |ns| == 1 {
        HostileThrows(keys, g, n, room, path);
      } else if Redirected(o) {
        TrailThrows(keys, g, ToJson(o).v.call.result, room, onPath, ns[1..]);
      } else {
        var i :| 0 <= i < |Edges(o)| && TrailFrom(keys, g, Edges(o)[i], room - 1, onPath, ns[1..]);
        TrailThrows(keys, g, Edges(o)[i].slot.v, room - 1, onPath, ns[1..]);
        BadEdgeThrows(keys, g, Edges(o), room - 1, onPath, i);
      }
    }
  }

  lemma HostileThrows(keys: set<string>, g: Heap, n: Ref, room: nat, path: set<Ref>)
    requires Closed(g) && Enters(g, n, room, path) && Hostile(keys, g, n, room, path)
    ensures RedactNode(keys, g, n, room, path + {n}).Threw?
  {
    var o := g[n];
    NodeEdgesIn(g, n);
    if !Live(ToJson(o)) {
      if o.kind.Array? {
        var i :| 0 <= i < |o.elems| && o.elems[i].Throwing?;
        BadEdgeThrows(keys, g, Edges(o), room - 1, path + {n}, i);
      } else {
        KeptExactlyWhenUntouched(keys, g, n, room, path);
      }
    }
  }

  lemma {:induction false} BadEdgeThrows(keys: set<string>, g: Heap, es: seq<Edge>, room: nat, path: set<Ref>, i: nat)
    requires Closed(g) && EdgesIn(g, es) && i < |es|
    requires if es[i].slot.Throwing? then es[i].at.Index?
             else !Erased(keys, es[i].at) && Redact(keys, g, es[i].slot.v, room, path).Threw?
    ensures RedactEdges(keys, g, es, room, path).Threw?
    decreases |es|
  {
    if i > 0 {
      BadEdgeThrows(keys, g, es[1..], room, path, i - 1);
    }
  }

  /** The walk lets an exception out exactly when it enters a hostile object. */
  lemma ThrowsExactlyOnTrail(keys: set<string>, g: Heap, v: Value, room: nat, path: set<Ref>)
    requires Closed(g) && ValueIn(g, v)
    ensures Redact(keys, g, v, room, path).Threw? <==> exists ns :: Trail(keys, g, v, room, path, ns)
  {
    if Redact(keys, g, v, room, path).Threw? {
      var ns := ThrewLeavesTrail(keys, g, v, room, path);
      assert Trail(keys, g, v, room, path, ns);
    } else {
      forall ns ensures !Trail(keys, g, v, room, path, ns) {
        if Trail(keys, g, v, room, path, ns) {
          TrailThrows(keys, g, v, room, path, ns);
        }
      }
    }
  }

  // ---- What keeps a result from being settled ----

  /** What stands in the place of a value after every `toJSON` on the way, one after the other. */
  ghost function Rendered(g: Heap, v: Value, room: nat, path: set<Ref>): Value
    requires Closed(g) && ValueIn(g, v)
    decreases g.Keys - path
  {
    if v.Obj? && Enters(g, v.ref, room, path) && Redirected(g[v.ref]) && ToJson(g[v.ref]).v.call.Returns? then
      ToJsonIn(g, v.ref);
      Rendered(g, ToJson(g[v.ref]).v.call.result, room, path + {v.ref})
    else v
  }

  /** If that is no object, it is what comes out, as it is. */
  lemma {:induction false} RenderedIsLeaf(keys: set<string>, g: Heap, v: Value, room: nat, path: set<Ref>)
    requires Closed(g) && ValueIn(g, v)
    ensures var r, w := Redact(keys, g, v, room, path), Rendered(g, v, room, path);
            && (!w.Obj? ==> r.Done? && r.value.tree == Leaf(w))
            && (w.NaN? <==> r.Done? && r.value.tree == Leaf(NaN))
            && (w.Fn? <==> r.Done? && r.value.tree.Leaf? && r.value.tree.v.Fn?)
    decreases g.Keys - path
  {
    if v.Obj? && Enters(g, v.ref, room, path) {
      var n, o := v.ref, g[v.ref];
      ToJsonIn(g, n);
      assert Redact(keys, g, v, room, path) == RedactNode(keys, g, n, room, path + {n});
      if Redirected(o) && ToJson(o).v.call.Returns? {
        RenderedIsLeaf(keys, g, ToJson(o).v.call.result, room, path + {n});
      }
    }
  }

  /** What the edge leads to is part of the result: only a rebuilt Error drops its own `toJSON`. */
  predicate Carried(keys: set<string>, o: Object, e: Edge) {
    !Erased(keys, e.at) && !e.slot.Throwing? && (e.at == Field(TO_JSON) ==> !IsError(o))
  }

  /**
   The container comes out unsettled by itself: NaN comes to stand right below it; or it is
   rebuilt, and then either an Error's own `toJSON`, no function, uncovers a live inherited one,
   or what comes to stand under the record's own `toJSON` is a function.
   */
  ghost predicate Unsettling(keys: set<string>, g: Heap, n: Ref, room: nat, path: set<Ref>)
    requires Closed(g) && Enters(g, n, room, path)
  {
    NodeEdgesIn(g, n);
    var o, es := g[n], Edges(g[n]);
    || (exists i :: 0 <= i < |es| && Carried(keys, o, es[i]) && Rendered(g, es[i].slot.v, room - 1, path + {n}).NaN?)
    || (!o.kind.Array? && !Untouched(keys, g, n, room, path) &&
        if IsError(o) then Live(o.proto.toJson)
        else exists i :: 0 <= i < |es| && Carried(keys, o, es[i]) && es[i].at == Field(TO_JSON) &&
                         Rendered(g, es[i].slot.v, room - 1, path + {n}).Fn?)
  }

  /** The walk enters `ns` one inside the other, and the last one comes out unsettled. */
  ghost predicate UnsettledTrail(keys: set<string>, g: Heap, v: Value, room: nat, path: set<Ref>, ns: seq<Ref>)
    requires Closed(g)
    decreases |ns|, 0
  {
    && |ns| > 0 && v == Obj(ns[0]) && Enters(g, ns[0], room, path) && !ToJson(g[ns[0]]).Throwing?
    && var o := g[ns[0]];
       if Redirected(o) then
         |ns| > 1 && ToJson(o).v.call.Returns? &&
         UnsettledTrail(keys, g, ToJson(o).v.call.result, room, path + {ns[0]}, ns[1..])
       else if |ns| == 1 then Unsettling(keys, g, ns[0], room, path)
       else
         exists i :: 0 <= i < |Edges(o)| &&
                     UnsettledTrailFrom(keys, g, o, Edges(o)[i], room - 1, path + {ns[0]}, ns[1..])
  }

  ghost predicate UnsettledTrailFrom(keys: set<string>, g: Heap, o: Object, e: Edge, room: nat, path: set<Ref>, ns: seq<Ref>)
    requires Closed(g)
    decreases |ns|, 1
  {
    Carried(keys, o, e) && UnsettledTrail(keys, g, e.slot.v, room, path, ns)
  }

  lemma {:induction false} DropToJsonHas(kids: seq<Kid>, k: Kid)
    ensures k in DropToJson(kids) <==> k in kids && k.at != Field(TO_JSON)
  {
    if kids != [] {
      DropToJsonHas(kids[1..], k);
    }
  }

  /** The walked kids that are in the container around them. */
  lemma KidsInContainer(keys: set<string>, o: Object, r: WalkedKids, k: Kid)
    ensures k in Container(keys, o, r).kids <==>
            k in r.kids && (k.at == Field(TO_JSON) ==> r.same || o.kind.Array? || !IsError(o))
  {
    DropToJsonHas(r.kids, k);
  }

  lemma {:induction false} KidOf(keys: set<string>, g: Heap, es: seq<Edge>, room: nat, path: set<Ref>, i: nat)
    requires Closed(g) && EdgesIn(g, es) && i < |es| && RedactEdges(keys, g, es, room, path).Done?
    requires !Erased(keys, es[i].at) && !es[i].slot.Throwing?
    ensures var r := Redact(keys, g, es[i].slot.v, room, path);
            r.Done? && Kid(es[i].at, r.value.tree) in RedactEdges(keys, g, es, room, path).value.kids
    decreases |es|
  {
    if i > 0 {
      KidOf(keys, g, es[1..], room, path, i - 1);
    }
  }

  lemma {:induction false} KidFrom(keys: set<string>, g: Heap, es: seq<Edge>, room: nat, path: set<Ref>, k: Kid)
    returns (i: nat)
    requires Closed(g) && EdgesIn(g, es) && RedactEdges(keys, g, es, room, path).Done?
    requires k in RedactEdges(keys, g, es, room, path).value.kids
    ensures i < |es| && !Erased(keys, es[i].at) && es[i].at == k.at
    ensures if es[i].slot.Throwing? then k.tree == Leaf(UNREADABLE)
            else Redact(keys, g, es[i].slot.v, room, path).Done? &&
                 Redact(keys, g, es[i].slot.v, room, path).value.tree == k.tree
    decreases |es|
  {
    var rest := RedactEdges(keys, g, es[1..], room, path);
    if k in rest.value.kids {
      i := KidFrom(keys, g, es[1..], room, path, k);
      i := i + 1;
    } else {
      i := 0;
    }
  }

  ghost predicate Unsettled(t: Tree) {
    !t.Leaf? && !Settled(t)
  }

  lemma {:induction false} UnsettledLeavesTrail(keys: set<string>, g: Heap, v: Value, room: nat, path: set<Ref>)
    returns (ns: seq<Ref>)
    requires Closed(g) && ValueIn(g, v)
    requires Redact(keys, g, v, room, path).Done? && Unsettled(Redact(keys, g, v, room, path).value.tree)
    ensures UnsettledTrail(keys, g, v, room, path, ns)
    decreases g.Keys - path, 1
  {
    var n, o, onPath := v.ref, g[v.ref], path + {v.ref};
    ToJsonIn(g, n);
    NodeEdgesIn(g, n);
    assert Redact(keys, g, v, room, path) == RedactNode(keys, g, n, room, onPath);
    var tail;
    if Redirected(o) {
      tail := UnsettledLeavesTrail(keys, g, ToJson(o).v.call.result, room, onPath);
    } else if Unsettling(keys, g, n, room, path) {
      return [n];
    } else {
      var i := UnsettledEdge(keys, g, n, room, path);
      tail := UnsettledLeavesTrail(keys, g, Edges(o)[i].slot.v, room - 1, onPath);
      assert UnsettledTrailFrom(keys, g, o, Edges(o)[i], room - 1, onPath, tail);
    }
    ns := [n] + tail;
    assert ns[1..] == tail && |tail| > 0;
  }

  /** If a container comes out unsettled, though not by itself, one of its edges does. */
  lemma UnsettledEdge(keys: set<string>, g: Heap, n: Ref, room: nat, path: set<Ref>) returns (i: nat)
    requires Closed(g) && Enters(g, n, room, path) && EdgesIn(g, Edges(g[n])) && !Live(ToJson(g[n]))
    requires RedactNode(keys, g, n, room, path + {n}).Done?
    requires Unsettled(RedactNode(keys, g, n, room, path + {n}).value.tree) && !Unsettling(keys, g, n, room, path)
    ensures i < |Edges(g[n])| && Carried(keys, g[n], Edges(g[n])[i])
    ensures var r := Redact(keys, g, Edges(g[n])[i].slot.v, room - 1, path + {n}); r.Done? && Unsettled(r.value.tree)
  {
    var o, es, onPath := g[n], Edges(g[n]), path + {n};
    var r := RedactEdges(keys, g, es, room - 1, onPath).value;
    var t := Container(keys, o, r);
    KeptExactlyWhenUntouched(keys, g, n, room, path);
    SameKidsAreSettled(keys, g, es, room - 1, onPath);
    if t.live {
      LiveIsUnsettling(keys, g, n, room, path);
      assert false;
    }
    var j :| 0 <= j < |t.kids| && !Settled(t.kids[j].tree);
    var k := t.kids[j];
    KidsInContainer(keys, o, r, k);
    if r.same {
      assert false;
    }
    i := KidFrom(keys, g, es, room - 1, onPath, k);
    IndexedIfArray(o, i);
    RenderedIsLeaf(keys, g, es[i].slot.v, room - 1, onPath);
  }

  lemma IndexedIfArray(o: Object, i: nat)
    requires i < |Edges(o)|
    ensures o.kind.Array? ==> Edges(o)[i].at == Index
  {
  }

  lemma LiveIsUnsettling(keys: set<string>, g: Heap, n: Ref, room: nat, path: set<Ref>)
    requires Closed(g) && Enters(g, n, room, path) && EdgesIn(g, Edges(g[n])) && !Live(ToJson(g[n]))
    requires RedactEdges(keys, g, Edges(g[n]), room - 1, path + {n}).Done?
    requires Container(keys, g[n], RedactEdges(keys, g, Edges(g[n]), room - 1, path + {n}).value).live
    ensures Unsettling(keys, g, n, room, path)
  {
    var o, es, onPath := g[n], Edges(g[n]), path + {n};
    var r := RedactEdges(keys, g, es, room - 1, onPath).value;
    KeptExactlyWhenUntouched(keys, g, n, room, path);
    if !IsError(o) {
      var k :| k in r.kids && k.at == Field(TO_JSON) && k.tree.Leaf? && k.tree.v.Fn?;
      var i := KidFrom(keys, g, es, room - 1, onPath, k);
      RenderedIsLeaf(keys, g, es[i].slot.v, room - 1, onPath);
      assert Carried(keys, o, es[i]);
    }
  }

  lemma {:induction false} TrailUnsettles(keys: set<string>, g: Heap, v: Value, room: nat, path: set<Ref>, ns: seq<Ref>)
    requires Closed(g) && ValueIn(g, v) && UnsettledTrail(keys, g, v, room, path, ns)
    requires Redact(keys, g, v, room, path).Done?
    ensures Unsettled(Redact(keys, g, v, room, path).value.tree)
    decreases |ns|
  {
    hide Unsettled, Unsettling, Container, Closed;
    var n, o, onPath := v.ref, g[v.ref], path + {v.ref};
    ToJsonIn(g, n);
    NodeEdgesIn(g, n);
    assert Redact(keys, g, v, room, path) == RedactNode(keys, g, n, room, onPath);
    if Redirected(o) {
      TrailUnsettles(keys, g, ToJson(o).v.call.result, room, onPath, ns[1..]);
    } else if |ns| == 1 {
      UnsettlingIsUnsettled(keys, g, n, room, path);
    } else {
      var i :| 0 <= i < |Edges(o)| && UnsettledTrailFrom(keys, g, o, Edges(o)[i], room - 1, onPath, ns[1..]);
      KidOf(keys, g, Edges(o), room - 1, onPath, i);
      TrailUnsettles(keys, g, Edges(o)[i].slot.v, room - 1, onPath, ns[1..]);
      NotSettled(Redact(keys, g, Edges(o)[i].slot.v, room - 1, onPath).value.tree);
      UnsettledKid(keys, g, n, room, path, i);
    }
  }

  lemma NotSettled(t: Tree)
    ensures Unsettled(t) ==> !Settled(t)
  {
  }

  /** A carried edge that comes out unsettled, or as NaN, unsettles the container. */
  lemma UnsettledKid(keys: set<string>, g: Heap, n: Ref, room: nat, path: set<Ref>, i: nat)
    requires Closed(g) && Enters(g, n, room, path) && EdgesIn(g, Edges(g[n])) && !Live(ToJson(g[n]))
    requires RedactNode(keys, g, n, room, path + {n}).Done? && i < |Edges(g[n])| && Carried(keys, g[n], Edges(g[n])[i])
    requires var r := Redact(keys, g, Edges(g[n])[i].slot.v, room - 1, path + {n}); r.Done? && !Settled(r.value.tree)
    ensures Unsettled(RedactNode(keys, g, n, room, path + {n}).value.tree)
  {
    var o, e, onPath := g[n], Edges(g[n])[i], path + {n};
    var r := RedactEdges(keys, g, Edges(o), room - 1, onPath).value;
    KidOf(keys, g, Edges(o), room - 1, onPath, i);
    var k := Kid(e.at, Redact(keys, g, e.slot.v, room - 1, onPath).value.tree);
    KidsInContainer(keys, o, r, k);
    var j :| 0 <= j < |Container(keys, o, r).kids| && Container(keys, o, r).kids[j] == k;
  }

  lemma UnsettlingIsUnsettled(keys: set<string>, g: Heap, n: Ref, room: nat, path: set<Ref>)
    requires Closed(g) && Enters(g, n, room, path) && !Live(ToJson(g[n])) && Unsettling(keys, g, n, room, path)
    requires RedactNode(keys, g, n, room, path + {n}).Done?
    ensures Unsettled(RedactNode(keys, g, n, room, path + {n}).value.tree)
  {
    var o, es, onPath := g[n], Edges(g[n]), path + {n};
    KeptExactlyWhenUntouched(keys, g, n, room, path);
    if i :| 0 <= i < |es| && Carried(keys, o, es[i]) && Rendered(g, es[i].slot.v, room - 1, onPath).NaN? {
      RenderedIsLeaf(keys, g, es[i].slot.v, room - 1, onPath);
      UnsettledKid(keys, g, n, room, path, i);
    } else if !IsError(o) {
      var i :| 0 <= i < |es| && Carried(keys, o, es[i]) && es[i].at == Field(TO_JSON) &&
               Rendered(g, es[i].slot.v, room - 1, onPath).Fn?;
      RenderedIsLeaf(keys, g, es[i].slot.v, room - 1, onPath);
      KidOf(keys, g, es, room - 1, onPath, i);
    }
  }

  /** A result is unsettled exactly when the walk enters a container that comes out so. */
  lemma UnsettledExactlyOnTrail(keys: set<string>, g: Heap, v: Value, room: nat, path: set<Ref>)
    requires Closed(g) && ValueIn(g, v) && Redact(keys, g, v, room, path).Done?
    ensures Unsettled(Redact(keys, g, v, room, path).value.tree) <==>
            exists ns :: UnsettledTrail(keys, g, v, room, path, ns)
  {
    if Unsettled(Redact(keys, g, v, room, path).value.tree) {
      var ns := UnsettledLeavesTrail(keys, g, v, room, path);
      assert UnsettledTrail(keys, g, v, room, path, ns);
    } else {
      forall ns ensures !UnsettledTrail(keys, g, v, room, path, ns) {
        if UnsettledTrail(keys, g, v, room, path, ns) {
          TrailUnsettles(keys, g, v, room, path, ns);
        }
      }
    }
  }

  // ---- Graphs whose results are always settled ----

  /** No slot of the object holds NaN, or a function that returns it. */
  predicate NeverNaN(v: Value) {
    match v
    case NaN => false
    case Fn(Returns(w)) => NeverNaN(w)
    case _ => true
  }

  predicate NaNFree(o: Object) {
    && (forall i :: 0 <= i < |o.elems| ==> o.elems[i].Throwing? || NeverNaN(o.elems[i].v))
    && (forall i :: 0 <= i < |o.props| ==> o.props[i].slot.Throwing? || NeverNaN(o.props[i].slot.v))
    && (o.proto.toJson.Throwing? || NeverNaN(o.proto.toJson.v))
  }

  /** An own `toJSON` that is not a function (so the walk treats it as an ordinary field). */
  predicate InertToJson(o: Object) {
    exists i :: 0 <= i < |o.props| && o.props[i].key == Name(TO_JSON) && !Live(o.props[i].slot)
  }

  predicate Ordinary(o: Object) {
    NaNFree(o) && !InertToJson(o)
  }

  lemma {:induction false} LookupCases(props: seq<Prop>, key: Key, inherited: Slot)
    ensures Lookup(props, key, inherited) == inherited ||
            exists i :: 0 <= i < |props| && props[i].key == key && props[i].slot == Lookup(props, key, inherited)
    ensures (exists i :: 0 <= i < |props| && props[i].key == key) ==>
              exists i :: 0 <= i < |props| && props[i].key == key && props[i].slot == Lookup(props, key, inherited)
  {
    if props != [] && props[0].key != key {
      LookupCases(props[1..], key, inherited);
      if i :| 0 <= i < |props[1..]| && props[1..][i].key == key && props[1..][i].slot == Lookup(props, key, inherited) {
        assert props[i + 1] == props[1..][i];
      }
      if i :| 0 <= i < |props| && props[i].key == key {
        assert props[1..][i - 1] == props[i];
      }
    }
  }

  lemma OrdinaryToJson(o: Object)
    requires Ordinary(o) && !Live(ToJson(o))
    ensures !Live(o.proto.toJson)
    ensures forall i :: 0 <= i < |Edges(o)| ==>
              Edges(o)[i].at != Field(TO_JSON) && (Edges(o)[i].slot.Throwing? || NeverNaN(Edges(o)[i].slot.v))
  {
    LookupCases(o.props, Name(TO_JSON), o.proto.toJson);
    if !o.kind.Array? {
      forall i | 0 <= i < |Edges(o)|
        ensures Edges(o)[i].at != Field(TO_JSON) && (Edges(o)[i].slot.Throwing? || NeverNaN(Edges(o)[i].slot.v))
      {
        var j := FieldEdgeFrom(o.props, i);
      }
    }
  }

  /** The walk does not leave `part`, and every object in it is ordinary. */
  ghost predicate OrdinaryPart(g: Heap, part: set<Ref>) {
    SelfContained(g, part) && forall r :: r in part ==> Ordinary(g[r])
  }

  lemma OrdinaryLookup(o: Object)
    requires Ordinary(o) && !ToJson(o).Throwing?
    ensures NeverNaN(ToJson(o).v)
  {
    LookupCases(o.props, Name(TO_JSON), o.proto.toJson);
  }

  lemma {:induction false} OrdinaryIsNotRenderedNaN(g: Heap, part: set<Ref>, v: Value, room: nat, path: set<Ref>)
    requires Closed(g) && ValueIn(g, v) && OrdinaryPart(g, part) && Within(v, part) && NeverNaN(v)
    ensures NeverNaN(Rendered(g, v, room, path))
    decreases g.Keys - path
  {
    if v.Obj? && Enters(g, v.ref, room, path) && Redirected(g[v.ref]) && ToJson(g[v.ref]).v.call.Returns? {
      ToJsonIn(g, v.ref);
      OrdinaryLookup(g[v.ref]);
      OrdinaryIsNotRenderedNaN(g, part, ToJson(g[v.ref]).v.call.result, room, path + {v.ref});
    }
  }

  lemma {:induction false} OrdinaryHasNoTrail(keys: set<string>,
    g: Heap, part: set<Ref>, v: Value, room: nat, path: set<Ref>, ns: seq<Ref>)
    requires Closed(g) && ValueIn(g, v) && OrdinaryPart(g, part) && Within(v, part)
    ensures !UnsettledTrail(keys, g, v, room, path, ns)
    decreases |ns|
  {
    if UnsettledTrail(keys, g, v, room, path, ns) {
      var n, o := ns[0], g[ns[0]];
      ToJsonIn(g, n);
      NodeEdgesIn(g, n);
      if Redirected(o) {
        OrdinaryHasNoTrail(keys, g, part, ToJson(o).v.call.result, room, path + {n}, ns[1..]);
      } else if |ns| == 1 {
        OrdinaryIsNotUnsettling(keys, g, part, n, room, path);
      } else {
        var i :| 0 <= i < |Edges(o)| && UnsettledTrailFrom(keys, g, o, Edges(o)[i], room - 1, path + {n}, ns[1..]);
        OrdinaryHasNoTrail(keys, g, part, Edges(o)[i].slot.v, room - 1, path + {n}, ns[1..]);
      }
    }
  }

  lemma OrdinaryIsNotUnsettling(keys: set<string>, g: Heap, part: set<Ref>, n: Ref, room: nat, path: set<Ref>)
    requires Closed(g) && OrdinaryPart(g, part) && n in part && Enters(g, n, room, path) && !Live(ToJson(g[n]))
    ensures !Unsettling(keys, g, n, room, path)
  {
    var es := Edges(g[n]);
    NodeEdgesIn(g, n);
    OrdinaryToJson(g[n]);
    forall i | 0 <= i < |es| && !es[i].slot.Throwing?
      ensures !Rendered(g, es[i].slot.v, room - 1, path + {n}).NaN?
    {
      OrdinaryIsNotRenderedNaN(g, part, es[i].slot.v, room - 1, path + {n});
    }
  }

  /**
   If nothing the walk can reach holds NaN or owns a `toJSON` that is no function, every result
   is settled, whatever else is in the heap.
   */
  lemma OrdinaryGraphsSettle(keys: set<string>, g: Heap, part: set<Ref>, v: Value, room: nat, path: set<Ref>)
    requires Closed(g) && ValueIn(g, v) && OrdinaryPart(g, part) && Within(v, part) && NeverNaN(v)
    ensures var r := Redact(keys, g, v, room, path); r.Done? ==> Settled(r.value.tree)
  {
    var r := Redact(keys, g, v, room, path);
    if r.Done? {
      if Unsettled(r.value.tree) {
        UnsettledExactlyOnTrail(keys, g, v, room, path);
        var ns :| UnsettledTrail(keys, g, v, room, path, ns);
        OrdinaryHasNoTrail(keys, g, part, v, room, path, ns);
      }
      OrdinaryIsNotRenderedNaN(g, part, v, room, path);
      RenderedIsLeaf(keys, g, v, room, path);
    }
  }

  // ---- An Error over two passes ----

  /** `isError` holds because of the tag, whatever the object is. */
  predicate TaggedError(o: Object) {
    !Tag(o).Throwing? && Tag(o).v == Str("Error")
  }

  predicate SameRead(a: Slot, b: Slot) {
    (a.Throwing? <==> b.Throwing?) && (!a.Throwing? ==> a.v == b.v)
  }

  lemma {:induction false} HiddenTag(props: seq<Prop>, inherited: Slot)
    ensures SameRead(Lookup(Hidden(props), TAG, inherited), Lookup(props, TAG, inherited))
  {
    if props != [] {
      HiddenTag(props[1..], inherited);
      var mine, rest := HiddenProp(props[0]), Hidden(props[1..]);
      assert mine == [] ==> mine + rest == rest;
      assert mine != [] ==> (mine + rest)[1..] == rest;
    }
  }

  lemma {:induction false} KeptTag(keys: set<string>, hidden: seq<Prop>, inherited: Slot)
    requires !Lookup(hidden, TAG, inherited).Throwing?
    ensures Lookup(KeepHidden(keys, hidden), TAG, inherited) == Lookup(hidden, TAG, inherited)
  {
    if hidden != [] {
      var mine, rest := Keep(keys, hidden[0]), KeepHidden(keys, hidden[1..]);
      if hidden[0].key != TAG {
        KeptTag(keys, hidden[1..], inherited);
      }
      assert mine == [] ==> mine + rest == rest;
      assert mine != [] ==> (mine + rest)[1..] == rest;
    }
  }

  lemma {:induction false} KeptOnce(keys: set<string>, hidden: seq<Prop>)
    ensures KeepHidden(keys, KeepHidden(keys, hidden)) == KeepHidden(keys, hidden)
  {
    if hidden != [] {
      KeptOnce(keys, hidden[1..]);
      var mine, rest := Keep(keys, hidden[0]), KeepHidden(keys, hidden[1..]);
      assert mine == [] ==> mine + rest == rest;
      assert mine != [] ==> (mine + rest)[1..] == rest;
    }
  }

  /** The object that stands for a rebuilt Error counts as an Error only by its tag. */
  lemma RebuiltTag(keys: set<string>, o: Object, c: Object)
    requires !o.kind.Array? && !Tag(o).Throwing?
    requires c.kind.Plain? && c.proto == o.proto && Hidden(c.props) == KeepHidden(keys, Hidden(o.props))
    ensures !Tag(c).Throwing? && Tag(c).v == Tag(o).v
  {
    HiddenTag(o.props, o.proto.tag);
    KeptTag(keys, Hidden(o.props), o.proto.tag);
    HiddenTag(c.props, c.proto.tag);
  }

  /**
   An Error that the first pass met anywhere and rebuilt, as the object `c`, keeps its prototype and
   its hidden properties, message and stack among them. The second pass, wherever it meets `c`,
   leaves them alone exactly when everything below is settled and does not lead back to the path,
   or the tag alone makes `c` an Error; else they are gone.
   */
  lemma ErrorOverTwoPasses(keys: set<string>, g: Heap, n: Ref, room: nat, path: set<Ref>, h: Heap, c: Ref, again: set<Ref>)
    requires Closed(g) && Enters(g, n, room, path) && !g[n].kind.Array? && IsError(g[n]) && !Live(ToJson(g[n]))
    requires var first := Redact(keys, g, Obj(n), room, path);
             first.Done? && !first.value.same && Closed(h) && c in h && Unfold(h, Obj(c), room) == first.value.tree
    requires c !in again
    ensures var t := Unfold(h, Obj(c), room);
            && t.Node? && t.hidden == KeepHidden(keys, Hidden(g[n].props)) && t.proto == g[n].proto
            && (!t.live ==>
                  var second := Redact(keys, h, Obj(c), room, again);
                  second.Done? ==>
                    && second.value.tree.Node?
                    && (second.value.tree.hidden == t.hidden && second.value.tree.proto == t.proto <==>
                        (Settled(t) && Apart(h, Obj(c), room, again)) || TaggedError(g[n]) ||
                        (t.hidden == [] && t.proto == OBJECT_PROTO)))
  {
    var t := Unfold(h, Obj(c), room);
    RebuiltOnce(keys, g, n, room, path);
    if !t.live {
      assert h[c].kind.Plain? && HiddenOf(h[c]) == t.hidden;
      RebuiltTag(keys, g[n], h[c]);
      KeptOnce(keys, Hidden(g[n].props));
      RedactedIsClean(keys, g, Obj(n), room, path);
      if Settled(t) && Apart(h, Obj(c), room, again) {
        SameExactlyWhenPristine(keys, h, Obj(c), room, again);
        SameIsUnfolded(keys, h, Obj(c), room, again);
      } else {
        RebuiltAgain(keys, h, c, room, again);
      }
    }
  }

  lemma RebuiltOnce(keys: set<string>, g: Heap, n: Ref, room: nat, path: set<Ref>)
    requires Closed(g) && Enters(g, n, room, path) && !g[n].kind.Array? && IsError(g[n]) && !Live(ToJson(g[n]))
    requires Redact(keys, g, Obj(n), room, path).Done? && !Redact(keys, g, Obj(n), room, path).value.same
    ensures var t := Redact(keys, g, Obj(n), room, path).value.tree;
            t.Node? && t.shape == Record && t.proto == g[n].proto && t.hidden == KeepHidden(keys, Hidden(g[n].props))
    ensures !Tag(g[n]).Throwing?
  {
    assert Redact(keys, g, Obj(n), room, path) == RedactNode(keys, g, n, room, path + {n});
  }

  lemma RebuiltAgain(keys: set<string>, h: Heap, c: Ref, room: nat, path: set<Ref>)
    requires Closed(h) && Enters(h, c, room, path) && h[c].kind.Plain? && !Live(ToJson(h[c]))
    requires !Settled(Unfold(h, Obj(c), room)) || !Apart(h, Obj(c), room, path)
    ensures var r := Redact(keys, h, Obj(c), room, path);
            r.Done? ==>
              && r.value.tree.Node?
              && r.value.tree.proto == (if IsError(h[c]) then h[c].proto else OBJECT_PROTO)
              && r.value.tree.hidden == (if IsError(h[c]) then KeepHidden(keys, Hidden(h[c].props)) else [])
  {
    KeptExactlyWhenUntouched(keys, h, c, room, path);
    assert Redact(keys, h, Obj(c), room, path) == RedactNode(keys, h, c, room, path + {c});
  }
}
