/**
 The walk itself: a recursive method over a heap it only ever adds to, with one mutable set
 of the containers on the current path, proved to compute the redaction policy.
 */
module LogWalk {
  import opened Outcomes
  import opened JsHeap
  import opened Redaction
  import opened RedactionLaws
  import opened RedactionTrails
  import opened RedactionScrub
  import SecretKeys

  // ---- Rebuilt objects ----

  /** The property a rebuilt Error carries for the original's property `p`, if any. */
  function RebuiltProp(keys: set<string>, p: Prop, kept: seq<Prop>): Option<Prop> {
    if p.key.Name? && (IsErased(keys, p.key.name) || p.key.name == TO_JSON) then None
    else if p.key.Name? && HasOwn(kept, p.key.name) then
      Some(Prop(p.key, Lookup(kept, p.key, Throwing), p.enumerable))
    else
      match p.slot
      case Data(_) => Some(p)
      case Getter(v) => Some(Prop(p.key, Data(v), p.enumerable))
      case Throwing => Some(Prop(p.key, Data(UNREADABLE), p.enumerable))
  }

  predicate HasOwn(props: seq<Prop>, name: string) {
    exists i :: 0 <= i < |props| && props[i].key == Name(name)
  }

  function RebuiltProps(keys: set<string>, props: seq<Prop>, kept: seq<Prop>): seq<Prop> {
    if props == [] then []
    else
      Rebuilt(keys, props[0], kept) + RebuiltProps(keys, props[1..], kept)
  }

  /** Fields as an object literal filled in order holds them. */
  predicate PlainData(kept: seq<Prop>) {
    forall i :: 0 <= i < |kept| ==> kept[i].enumerable && kept[i].key.Name? && kept[i].slot.Data?
  }

  /** The names of the edges that are not erased. */
  function Surviving(keys: set<string>, es: seq<Edge>): seq<Key> {
    if es == [] then []
    else (if es[0].at.Field? && !Erased(keys, es[0].at) then [Name(es[0].at.name)] else []) + Surviving(keys, es[1..])
  }

  function KeysOf(props: seq<Prop>): (ks: seq<Key>)
    ensures |ks| == |props|
    ensures forall i :: 0 <= i < |ks| ==> ks[i] == props[i].key
  {
    seq(|props|, i requires 0 <= i < |props| => props[i].key)
  }

  lemma {:induction false} SurvivingConcat(keys: set<string>, es: seq<Edge>, fs: seq<Edge>)
    ensures Surviving(keys, es + fs) == Surviving(keys, es) + Surviving(keys, fs)
  {
    if es == [] {
      assert es + fs == fs;
    } else {
      assert (es + fs)[1..] == es[1..] + fs;
      SurvivingConcat(keys, es[1..], fs);
    }
  }

  lemma {:induction false} FieldEdgesConcat(ps: seq<Prop>, qs: seq<Prop>)
    ensures FieldEdges(ps + qs) == FieldEdges(ps) + FieldEdges(qs)
  {
    if ps == [] {
      assert ps + qs == qs;
    } else {
      assert (ps + qs)[1..] == ps[1..] + qs;
      FieldEdgesConcat(ps[1..], qs);
    }
  }

  /** A surviving name is the key of an enumerable own property. */
  lemma {:induction false} SurvivingFrom(keys: set<string>, props: seq<Prop>, i: nat) returns (j: nat)
    requires i < |Surviving(keys, FieldEdges(props))|
    ensures j < |props| && props[j].enumerable && props[j].key == Surviving(keys, FieldEdges(props))[i]
    ensures props[j].key.Name? && !IsErased(keys, props[j].key.name)
  {
    var p := props[0];
    var head := FieldEdges([p]);
    assert [p] + props[1..] == props;
    FieldEdgesConcat([p], props[1..]);
    SurvivingConcat(keys, head, FieldEdges(props[1..]));
    if i < |Surviving(keys, head)| {
      j := 0;
    } else {
      j := SurvivingFrom(keys, props[1..], i - |Surviving(keys, head)|);
      j := j + 1;
    }
  }

  lemma {:induction false} SurvivingUnique(keys: set<string>, props: seq<Prop>)
    requires UniqueKeys(props)
    ensures forall i, j :: 0 <= i < j < |Surviving(keys, FieldEdges(props))| ==>
              Surviving(keys, FieldEdges(props))[i] != Surviving(keys, FieldEdges(props))[j]
  {
    if props != [] {
      var p, rest := props[0], Surviving(keys, FieldEdges(props[1..]));
      SurvivingUnique(keys, props[1..]);
      assert [p] + props[1..] == props;
      FieldEdgesConcat([p], props[1..]);
      SurvivingConcat(keys, FieldEdges([p]), FieldEdges(props[1..]));
      forall j | 0 <= j < |rest| ensures rest[j] != p.key {
        var k := SurvivingFrom(keys, props[1..], j);
        assert props[1..][k] == props[k + 1];
      }
    }
  }

  lemma KeptUnique(keys: set<string>, props: seq<Prop>, kept: seq<Prop>)
    requires UniqueKeys(props) && KeysOf(kept) == Surviving(keys, FieldEdges(props))
    ensures UniqueKeys(kept)
  {
    SurvivingUnique(keys, props);
    forall i, j | 0 <= i < j < |kept| ensures kept[i].key != kept[j].key {
      assert KeysOf(kept)[i] == kept[i].key && KeysOf(kept)[j] == kept[j].key;
    }
  }

  lemma {:induction false} LookupAt(props: seq<Prop>, i: nat, key: Key, inherited: Slot)
    requires UniqueKeys(props) && i < |props| && props[i].key == key
    ensures Lookup(props, key, inherited) == props[i].slot
  {
    if i > 0 {
      assert props[0].key != props[i].key;
      LookupAt(props[1..], i - 1, key, inherited);
    }
  }

  function DropToJsonEdges(es: seq<Edge>): seq<Edge> {
    if es == [] then []
    else (if es[0].at == Field(TO_JSON) then [] else [es[0]]) + DropToJsonEdges(es[1..])
  }

  lemma {:induction false} DropToJsonUnfolds(h: Heap, es: seq<Edge>, room: nat)
    requires Closed(h) && EdgesIn(h, es)
    ensures EdgesIn(h, DropToJsonEdges(es))
    ensures UnfoldEdges(h, DropToJsonEdges(es), room) == DropToJson(UnfoldEdges(h, es, room))
  {
    if es != [] {
      var rest := DropToJsonEdges(es[1..]);
      DropToJsonUnfolds(h, es[1..], room);
      var kids := UnfoldEdges(h, es, room);
      assert kids[0].at == es[0].at && kids[1..] == UnfoldEdges(h, es[1..], room);
      if es[0].at == Field(TO_JSON) {
        assert DropToJsonEdges(es) == rest;
      } else {
        assert DropToJsonEdges(es)[1..] == rest;
      }
    }
  }

  function Rebuilt(keys: set<string>, p: Prop, kept: seq<Prop>): seq<Prop> {
    match RebuiltProp(keys, p, kept) case Some(r) => [r] case None => []
  }

  predicate Survives(keys: set<string>, p: Prop) {
    p.enumerable && p.key.Name? && !IsErased(keys, p.key.name)
  }

  lemma SurvivingHead(keys: set<string>, p: Prop, rest: seq<Prop>)
    ensures FieldEdges([p] + rest) == FieldEdges([p]) + FieldEdges(rest)
    ensures Surviving(keys, FieldEdges([p] + rest)) ==
            (if Survives(keys, p) then [p.key] else []) + Surviving(keys, FieldEdges(rest))
  {
    assert ([p] + rest)[1..] == rest;
    SurvivingConcat(keys, FieldEdges([p]), FieldEdges(rest));
  }

  lemma RebuiltHead(keys: set<string>, p: Prop, kept: seq<Prop>, i: nat)
    requires UniqueKeys(kept) && PlainData(kept)
    requires Survives(keys, p) ==> i < |kept| && kept[i].key == p.key
    ensures FieldEdges(Rebuilt(keys, p, kept)) ==
            if Survives(keys, p) && p.key != Name(TO_JSON) then [Edge(Field(p.key.name), kept[i].slot)] else []
  {
    if Survives(keys, p) {
      LookupAt(kept, i, p.key, Throwing);
      assert HasOwn(kept, p.key.name);
    }
  }

  /**
   The walked edges of a rebuilt Error are the kept fields without `toJSON`. `from` is where
   the fields of `props` start in `kept`.
   */
  lemma {:induction false} RebuiltEdges(keys: set<string>, props: seq<Prop>, kept: seq<Prop>, from: nat)
    requires UniqueKeys(kept) && PlainData(kept) && from <= |kept|
    requires KeysOf(kept[from..]) == Surviving(keys, FieldEdges(props))
    ensures FieldEdges(RebuiltProps(keys, props, kept)) == DropToJsonEdges(FieldEdges(kept[from..]))
  {
    if props == [] {
      assert kept[from..] == [];
    } else {
      var p, rest := props[0], props[1..];
      assert [p] + rest == props;
      SurvivingHead(keys, p, rest);
      FieldEdgesConcat(Rebuilt(keys, p, kept), RebuiltProps(keys, rest, kept));
      if Survives(keys, p) {
        assert kept[from..][0].key == KeysOf(kept[from..])[0];
        assert KeysOf(kept[from + 1..]) == KeysOf(kept[from..])[1..];
        RebuiltHead(keys, p, kept, from);
        RebuiltEdges(keys, rest, kept, from + 1);
        FieldEdgesSplit(kept, from);
      } else {
        RebuiltHead(keys, p, kept, from);
        RebuiltEdges(keys, rest, kept, from);
      }
    }
  }

  lemma FieldEdgesSplit(kept: seq<Prop>, from: nat)
    requires PlainData(kept) && from < |kept|
    ensures FieldEdges(kept[from..]) == [Edge(Field(kept[from].key.name), kept[from].slot)] + FieldEdges(kept[from + 1..])
  {
    assert kept[from..][1..] == kept[from + 1..];
  }

  lemma {:induction false} RebuiltFrom(keys: set<string>, props: seq<Prop>, kept: seq<Prop>, i: nat) returns (j: nat)
    requires i < |RebuiltProps(keys, props, kept)|
    ensures j < |props| && RebuiltProp(keys, props[j], kept) == Some(RebuiltProps(keys, props, kept)[i])
  {
    var mine := Rebuilt(keys, props[0], kept);
    if i < |mine| {
      j := 0;
    } else {
      assert RebuiltProps(keys, props, kept)[i] == RebuiltProps(keys, props[1..], kept)[i - |mine|];
      j := RebuiltFrom(keys, props[1..], kept, i - |mine|);
      j := j + 1;
    }
  }

  lemma {:induction false} RebuiltUnique(keys: set<string>, props: seq<Prop>, kept: seq<Prop>)
    requires UniqueKeys(props)
    ensures UniqueKeys(RebuiltProps(keys, props, kept))
  {
    if props != [] {
      RebuiltUnique(keys, props[1..], kept);
      forall i | 0 <= i < |RebuiltProps(keys, props[1..], kept)|
        ensures RebuiltProps(keys, props[1..], kept)[i].key != props[0].key
      {
        var j := RebuiltFrom(keys, props[1..], kept, i);
        assert props[1..][j] == props[j + 1];
      }
    }
  }

  lemma {:induction false} NoOwnToJson(keys: set<string>, props: seq<Prop>, kept: seq<Prop>, inherited: Slot)
    ensures Lookup(RebuiltProps(keys, props, kept), Name(TO_JSON), inherited) == inherited
  {
    if props != [] {
      NoOwnToJson(keys, props[1..], kept, inherited);
      var mine, rest := Rebuilt(keys, props[0], kept), RebuiltProps(keys, props[1..], kept);
      assert mine == [] ==> mine + rest == rest;
      assert mine != [] ==> (mine + rest)[1..] == rest;
    }
  }

  lemma RebuiltPropIn(keys: set<string>, h: Heap, p: Prop, kept: seq<Prop>)
    requires SlotIn(h, p.slot) && forall i :: 0 <= i < |kept| ==> SlotIn(h, kept[i].slot)
    ensures RebuiltProp(keys, p, kept).Some? ==> SlotIn(h, RebuiltProp(keys, p, kept).value.slot)
  {
    if p.key.Name? {
      LookupIn(h, kept, p.key, Throwing);
    }
  }

  lemma RebuiltErrorIn(keys: set<string>, h: Heap, o: Object, kept: seq<Prop>)
    requires ObjectIn(h, o)
    requires forall i :: 0 <= i < |kept| ==> SlotIn(h, kept[i].slot)
    ensures ObjectIn(h, Object(Plain, [], RebuiltProps(keys, o.props, kept), o.proto))
  {
    RebuiltUnique(keys, o.props, kept);
    var props := RebuiltProps(keys, o.props, kept);
    forall i | 0 <= i < |props| ensures SlotIn(h, props[i].slot) {
      var j := RebuiltFrom(keys, o.props, kept, i);
      RebuiltPropIn(keys, h, o.props[j], kept);
    }
  }

  /**
   A rebuilt Error keeps every own property that is not walked, erased or `toJSON` (message
   and stack among them), readable and with the value a read of the original yields.
   */
  lemma {:induction false} RebuiltKeepsHidden(keys: set<string>, props: seq<Prop>, kept: seq<Prop>, j: nat) returns (i: nat)
    requires UniqueKeys(props) && KeysOf(kept) == Surviving(keys, FieldEdges(props))
    requires j < |props| && !(props[j].enumerable && props[j].key.Name?)
    requires props[j].key.Name? ==> !IsErased(keys, props[j].key.name) && props[j].key.name != TO_JSON
    ensures i < |RebuiltProps(keys, props, kept)|
    ensures var v := if props[j].slot.Throwing? then UNREADABLE else props[j].slot.v;
            RebuiltProps(keys, props, kept)[i] == Prop(props[j].key, Data(v), props[j].enumerable)
  {
    if props[j].key.Name? {
      HiddenIsNotKept(keys, props, kept, j);
    }
    i := RebuiltAt(keys, props, kept, j);
  }

  /** What is not walked of a rebuilt Error is what was not walked of the original, less what is erased. */
  lemma {:induction false} RebuiltHidden(keys: set<string>, props: seq<Prop>, kept: seq<Prop>)
    requires forall j :: 0 <= j < |props| && props[j].key.Name? && !props[j].enumerable ==> !HasOwn(kept, props[j].key.name)
    ensures Hidden(RebuiltProps(keys, props, kept)) == KeepHidden(keys, Hidden(props))
  {
    if props != [] {
      var p, rest := props[0], RebuiltProps(keys, props[1..], kept);
      RebuiltHidden(keys, props[1..], kept);
      HiddenConcat(Rebuilt(keys, p, kept), rest);
      KeepHiddenConcat(keys, HiddenProp(p), Hidden(props[1..]));
      RebuiltHiddenProp(keys, p, kept);
    }
  }

  lemma RebuiltHiddenProp(keys: set<string>, p: Prop, kept: seq<Prop>)
    requires p.key.Name? && !p.enumerable ==> !HasOwn(kept, p.key.name)
    ensures Hidden(Rebuilt(keys, p, kept)) == KeepHidden(keys, HiddenProp(p))
  {
    var q := RebuiltProp(keys, p, kept);
    assert q.Some? ==> Hidden([q.value]) == HiddenProp(q.value) + Hidden([]);
    assert HiddenProp(p) != [] ==> KeepHidden(keys, HiddenProp(p)) == Keep(keys, HiddenProp(p)[0]) + KeepHidden(keys, []);
  }

  lemma {:induction false} HiddenConcat(ps: seq<Prop>, qs: seq<Prop>)
    ensures Hidden(ps + qs) == Hidden(ps) + Hidden(qs)
  {
    if ps == [] {
      assert ps + qs == qs;
    } else {
      assert (ps + qs)[1..] == ps[1..] + qs;
      HiddenConcat(ps[1..], qs);
    }
  }

  lemma {:induction false} KeepHiddenConcat(keys: set<string>, ps: seq<Prop>, qs: seq<Prop>)
    ensures KeepHidden(keys, ps + qs) == KeepHidden(keys, ps) + KeepHidden(keys, qs)
  {
    if ps == [] {
      assert ps + qs == qs;
    } else {
      assert (ps + qs)[1..] == ps[1..] + qs;
      KeepHiddenConcat(keys, ps[1..], qs);
    }
  }

  /** Hidden properties have names the kept fields do not have. */
  lemma HiddenIsNotKept(keys: set<string>, props: seq<Prop>, kept: seq<Prop>, j: nat)
    requires UniqueKeys(props) && KeysOf(kept) == Surviving(keys, FieldEdges(props))
    requires j < |props| && props[j].key.Name? && !props[j].enumerable
    ensures !HasOwn(kept, props[j].key.name)
  {
    if HasOwn(kept, props[j].key.name) {
      var k :| 0 <= k < |kept| && kept[k].key == props[j].key;
      assert KeysOf(kept)[k] == kept[k].key;
      var l := SurvivingFrom(keys, props, k);
      assert false;
    }
  }

  lemma {:induction false} PlainDataHidesNothing(kept: seq<Prop>)
    requires PlainData(kept)
    ensures Hidden(kept) == []
  {
    if kept != [] {
      PlainDataHidesNothing(kept[1..]);
    }
  }

  lemma {:induction false} RebuiltAt(keys: set<string>, props: seq<Prop>, kept: seq<Prop>, j: nat) returns (i: nat)
    requires j < |props| && RebuiltProp(keys, props[j], kept).Some?
    ensures i < |RebuiltProps(keys, props, kept)|
    ensures RebuiltProps(keys, props, kept)[i] == RebuiltProp(keys, props[j], kept).value
  {
    if j == 0 {
      i := 0;
    } else {
      i := RebuiltAt(keys, props[1..], kept, j - 1);
      i := i + |Rebuilt(keys, props[0], kept)|;
    }
  }

  /** A rebuilt plain object runs code on `toJSON` exactly when that kid came out as a function. */
  lemma {:induction false} KeptToJson(h: Heap, kept: seq<Prop>, room: nat)
    requires Closed(h) && PlainData(kept) && UniqueKeys(kept) && EdgesIn(h, FieldEdges(kept))
    ensures Live(Lookup(kept, Name(TO_JSON), Data(Undefined))) <==> RendersFunction(UnfoldEdges(h, FieldEdges(kept), room))
  {
    if kept != [] {
      var es := FieldEdges(kept);
      assert es == [Edge(Field(kept[0].key.name), kept[0].slot)] + FieldEdges(kept[1..]);
      assert es[1..] == FieldEdges(kept[1..]);
      KeptToJson(h, kept[1..], room);
      var kids := UnfoldEdges(h, es, room);
      UnfoldEdgesAt(h, es, room, 0);
      assert kids[1..] == UnfoldEdges(h, es[1..], room);
      assert forall k :: k in kids <==> k == kids[0] || k in kids[1..];
      if kept[0].key == Name(TO_JSON) {
        forall k | k in kids[1..] ensures k.at != Field(TO_JSON) {
          var i :| 0 <= i < |kids[1..]| && kids[1..][i] == k;
          UnfoldEdgesAt(h, es[1..], room, i);
          var j := FieldEdgeFrom(kept[1..], i);
          assert kept[j + 1] == kept[1..][j];
        }
      }
    }
  }

  /** Kids already settled, then whatever the rest of the edges yields. */
  function Prepend(kids: seq<Kid>, same: bool, rest: Outcome<WalkedKids>): Outcome<WalkedKids> {
    if rest.Threw? then Threw else Done(WalkedKids(kids + rest.value.kids, same && rest.value.same))
  }

  lemma SurvivingNext(keys: set<string>, es: seq<Edge>, i: nat)
    requires i < |es| && es[i].at.Field?
    ensures Surviving(keys, es[..i + 1]) == Surviving(keys, es[..i]) + if Erased(keys, es[i].at) then [] else [Name(es[i].at.name)]
  {
    assert es[..i + 1] == es[..i] + [es[i]];
    SurvivingConcat(keys, es[..i], [es[i]]);
  }

  lemma NothingKept(keys: set<string>)
    ensures FieldEdges([]) == [] && Surviving(keys, []) == []
  {
  }

  lemma KeepField(kept: seq<Prop>, key: string, next: Value)
    ensures var p := Prop(Name(key), Data(next), true);
            FieldEdges(kept + [p]) == FieldEdges(kept) + [Edge(Field(key), Data(next))]
  {
    FieldEdgesConcat(kept, [Prop(Name(key), Data(next), true)]);
  }

  lemma {:induction false} KeptSlotsIn(h: Heap, kept: seq<Prop>)
    requires PlainData(kept) && EdgesIn(h, FieldEdges(kept))
    ensures forall i :: 0 <= i < |kept| ==> SlotIn(h, kept[i].slot)
  {
    if kept != [] {
      FieldEdgesSplit(kept, 0);
      assert kept[0..] == kept;
      assert FieldEdges(kept)[0].slot == kept[0].slot;
      assert FieldEdges(kept)[1..] == FieldEdges(kept[1..]);
      KeptSlotsIn(h, kept[1..]);
    }
  }

  lemma PrependNothing(rest: Outcome<WalkedKids>)
    ensures Prepend([], true, rest) == rest
  {
    if rest.Done? {
      assert [] + rest.value.kids == rest.value.kids;
    }
  }

  /** What becomes of an edge that is not erased. */
  ghost function EdgeOutcome(keys: set<string>, g: Heap, e: Edge, room: nat, path: set<Ref>): Outcome<Walked>
    requires Closed(g) && SlotIn(g, e.slot)
  {
    if !e.slot.Throwing? then Redact(keys, g, e.slot.v, room, path)
    else if e.at.Index? then Threw
    else Done(Walked(Leaf(UNREADABLE), false))
  }

  /** The walk of `es` has come to edge `i` with `acc` rebuilt so far, in heap `h`. */
  ghost predicate Progress(keys: set<string>, g: Heap, es: seq<Edge>, room: nat, path: set<Ref>, i: nat, h: Heap, acc: seq<Edge>, same: bool)
    requires Closed(g) && EdgesIn(g, es) && i <= |es|
  {
    && Closed(h) && EdgesIn(h, acc)
    && RedactEdges(keys, g, es, room, path) ==
       Prepend(UnfoldEdges(h, acc, room), same, RedactEdges(keys, g, es[i..], room, path))
  }

  /** A container whose `toJSON` is not called is its edges' outcome in a new container. */
  lemma NodeOutcome(keys: set<string>, g: Heap, n: Ref, room: nat, path: set<Ref>)
    requires Closed(g) && n in g && n in path && room > 0 && !Live(ToJson(g[n]))
    ensures EdgesIn(g, Edges(g[n]))
    ensures var r := RedactEdges(keys, g, Edges(g[n]), room - 1, path);
            RedactNode(keys, g, n, room, path) ==
            if r.Threw? then Threw
            else if !r.value.same && !g[n].kind.Array? && Tag(g[n]).Throwing? then Threw
            else Done(Walked(Container(keys, g[n], r.value), r.value.same))
  {
    NodeEdgesIn(g, n);
  }

  lemma EdgeIsWalked(keys: set<string>, g: Heap, e: Edge, room: nat, path: set<Ref>, h: Heap)
    requires Closed(g) && SlotIn(g, e.slot) && Closed(h)
    ensures !e.slot.Throwing? ==> EdgeOutcome(keys, g, e, room, path) == Redact(keys, g, e.slot.v, room, path)
    ensures e.slot.Throwing? && e.at.Index? ==> EdgeOutcome(keys, g, e, room, path).Threw?
    ensures e.slot.Throwing? && e.at.Field? ==>
              EdgeOutcome(keys, g, e, room, path) == Done(Walked(Unfold(h, UNREADABLE, room), false))
  {
  }

  lemma ProgressStarts(keys: set<string>, g: Heap, es: seq<Edge>, room: nat, path: set<Ref>, h: Heap)
    requires Closed(g) && EdgesIn(g, es) && Closed(h)
    ensures Progress(keys, g, es, room, path, 0, h, [], true)
  {
    assert es[0..] == es;
    PrependNothing(RedactEdges(keys, g, es, room, path));
  }

  lemma ProgressOverErased(keys: set<string>,
    g: Heap, es: seq<Edge>, room: nat, path: set<Ref>, i: nat, h: Heap, acc: seq<Edge>, same: bool)
    requires Closed(g) && EdgesIn(g, es) && i < |es|
    requires Progress(keys, g, es, room, path, i, h, acc, same) && Erased(keys, es[i].at)
    ensures Progress(keys, g, es, room, path, i + 1, h, acc, false)
  {
    assert es[i..][0] == es[i] && es[i..][1..] == es[i + 1..];
  }

  lemma ProgressStops(keys: set<string>,
    g: Heap, es: seq<Edge>, room: nat, path: set<Ref>, i: nat, h: Heap, acc: seq<Edge>, same: bool)
    requires Closed(g) && EdgesIn(g, es) && i < |es|
    requires Progress(keys, g, es, room, path, i, h, acc, same) && !Erased(keys, es[i].at)
    requires EdgeOutcome(keys, g, es[i], room, path).Threw?
    ensures RedactEdges(keys, g, es, room, path).Threw?
  {
    assert es[i..][0] == es[i];
  }

  lemma ProgressGoesOn(keys: set<string>,
    g: Heap, es: seq<Edge>, room: nat, path: set<Ref>, i: nat, h: Heap, acc: seq<Edge>, same: bool,
    h': Heap, next: Value)
    requires Closed(g) && EdgesIn(g, es) && i < |es|
    requires Progress(keys, g, es, room, path, i, h, acc, same) && !Erased(keys, es[i].at)
    requires Closed(h') && Extends(h, h') && ValueIn(h', next)
    requires EdgeOutcome(keys, g, es[i], room, path).Done?
    requires EdgeOutcome(keys, g, es[i], room, path).value.tree == Unfold(h', next, room)
    ensures Progress(keys, g, es, room, path, i + 1, h', acc + [Edge(es[i].at, Data(next))],
                     same && EdgeOutcome(keys, g, es[i], room, path).value.same)
  {
    hide RedactEdges, EdgeOutcome, Redact, Closed;
    var e, out := [Edge(es[i].at, Data(next))], EdgeOutcome(keys, g, es[i], room, path).value;
    OneEdge(keys, g, es, room, path, i);
    UnfoldEdgesExtends(h, h', acc, room);
    assert UnfoldEdges(h', e, room) == [Kid(es[i].at, Unfold(h', next, room))];
    UnfoldEdgesConcat(h', acc, e, room);
    PrependTwice(UnfoldEdges(h, acc, room), same, [Kid(es[i].at, out.tree)], out.same, RedactEdges(keys, g, es[i + 1..], room, path));
  }

  /** An edge that is not erased puts its kid ahead of what the rest yields. */
  lemma OneEdge(keys: set<string>, g: Heap, es: seq<Edge>, room: nat, path: set<Ref>, i: nat)
    requires Closed(g) && EdgesIn(g, es) && i < |es| && !Erased(keys, es[i].at)
    requires EdgeOutcome(keys, g, es[i], room, path).Done?
    ensures var out := EdgeOutcome(keys, g, es[i], room, path).value;
            RedactEdges(keys, g, es[i..], room, path) ==
            Prepend([Kid(es[i].at, out.tree)], out.same, RedactEdges(keys, g, es[i + 1..], room, path))
  {
    assert es[i..][0] == es[i] && es[i..][1..] == es[i + 1..];
  }

  lemma PrependTwice(kids: seq<Kid>, same: bool, more: seq<Kid>, sameToo: bool, rest: Outcome<WalkedKids>)
    ensures Prepend(kids, same, Prepend(more, sameToo, rest)) == Prepend(kids + more, same && sameToo, rest)
  {
    if rest.Done? {
      assert kids + more + rest.value.kids == kids + (more + rest.value.kids);
    }
  }

  lemma ProgressEnds(keys: set<string>, g: Heap, es: seq<Edge>, room: nat, path: set<Ref>, h: Heap, acc: seq<Edge>, same: bool)
    requires Closed(g) && EdgesIn(g, es)
    requires Progress(keys, g, es, room, path, |es|, h, acc, same)
    ensures Closed(h) && EdgesIn(h, acc)
    ensures RedactEdges(keys, g, es, room, path) == Done(WalkedKids(UnfoldEdges(h, acc, room), same))
  {
    assert es[|es|..] == [];
    var kids := UnfoldEdges(h, acc, room);
    assert kids + [] == kids;
  }

  // ---- The walk ----

  /** An Error whose own fields are walked. */
  predicate WalkedError(g: Heap, n: Ref) {
    n in g && IsContainer(g[n]) && !g[n].kind.Array? && IsError(g[n]) && !Live(ToJson(g[n]))
  }

  /** What a rebuilt Error shows, hides and renders. */
  lemma CloneOf(keys: set<string>, o: Object, kept: seq<Prop>)
    requires UniqueKeys(o.props) && UniqueKeys(kept) && PlainData(kept)
    requires KeysOf(kept) == Surviving(keys, FieldEdges(o.props))
    ensures var clone := Object(Plain, [], RebuiltProps(keys, o.props, kept), o.proto);
            && Edges(clone) == DropToJsonEdges(FieldEdges(kept))
            && HiddenOf(clone) == KeepHidden(keys, Hidden(o.props))
            && ToJson(clone) == o.proto.toJson
  {
    assert kept[0..] == kept;
    RebuiltEdges(keys, o.props, kept, 0);
    NoOwnToJson(keys, o.props, kept, o.proto.toJson);
    forall j | 0 <= j < |o.props| && o.props[j].key.Name? && !o.props[j].enumerable
      ensures !HasOwn(kept, o.props[j].key.name)
    {
      HiddenIsNotKept(keys, o.props, kept, j);
    }
    RebuiltHidden(keys, o.props, kept);
  }

  /** What a rebuilt plain object shows, hides and renders. */
  lemma PlainOf(kept: seq<Prop>)
    requires PlainData(kept)
    ensures var plain := Object(Plain, [], kept, OBJECT_PROTO);
            && Edges(plain) == FieldEdges(kept) && HiddenOf(plain) == []
            && ToJson(plain) == Lookup(kept, Name(TO_JSON), Data(Undefined))
  {
    PlainDataHidesNothing(kept);
  }

  predicate NothingToKeep(keys: set<string>, o: Object) {
    KeepHidden(keys, Hidden(o.props)) == [] && o.proto == OBJECT_PROTO
  }

  class Walker {
    const keys: set<string>
    var heap: Heap
    var next: Ref
    var ancestors: set<Ref>

    ghost predicate Valid()
      reads this
    {
      Closed(heap) && forall r :: r in heap ==> r < next
    }

    constructor (secretKeys: set<string>, h: Heap, unused: Ref)
      requires Closed(h) && forall r :: r in h ==> r < unused
      ensures Valid() && keys == secretKeys && heap == h && ancestors == {}
    {
      keys := secretKeys;
      heap, next, ancestors := h, unused, {};
    }

    /** Allocate an object; nothing that exists changes. */
    method Alloc(o: Object) returns (r: Ref)
      requires Valid() && ObjectIn(heap, o)
      modifies this`heap, this`next
      ensures Valid() && Extends(old(heap), heap)
      ensures r !in old(heap) && r in heap && heap[r] == o
    {
      r := next;
      heap := heap[r := o];
      next := next + 1;
      forall q | q in heap ensures ObjectIn(heap, heap[q]) {
        assert Extends(old(heap), heap);
        ObjectInExtends(old(heap), heap, heap[q]);
      }
    }

    /**
     The outcome of a walk of `value`, as the policy prescribes it on the graph `g` as it was
     when the walk began: the same exception, or a value that unfolds to the redacted tree
     and is the very value walked exactly when the policy hands it on.
     */
    ghost predicate Agrees(r: Outcome<Value>, value: Value, room: nat, path: set<Ref>, g: Heap)
      requires Closed(g) && ValueIn(g, value)
      reads this
    {
      var spec := Redact(keys, g, value, room, path);
      && Closed(heap)
      && (r.Threw? <==> spec.Threw?)
      && (r.Done? ==>
            && ValueIn(heap, r.value)
            && Unfold(heap, r.value, room) == spec.value.tree
            && (spec.value.same <==> r.value == value && !value.NaN?))
    }

    /** The same of a container already on the path. */
    ghost predicate NodeAgrees(r: Outcome<Value>, node: Ref, room: nat, path: set<Ref>, g: Heap)
      requires Closed(g) && node in g && node in path && room > 0
      reads this
    {
      var spec := RedactNode(keys, g, node, room, path);
      && Closed(heap)
      && (r.Threw? <==> spec.Threw?)
      && (r.Done? ==>
            && ValueIn(heap, r.value)
            && Unfold(heap, r.value, room) == spec.value.tree
            && (spec.value.same <==> r.value == Obj(node)))
    }

    /** Where a result object comes from: it is new, opaque, or off the path. */
    ghost predicate Placed(r: Outcome<Value>, path: set<Ref>, g: Heap) {
      r.Done? && r.value.Obj? ==>
        r.value.ref in g ==> g[r.value.ref].kind.Scalar? || r.value.ref !in path
    }

    /** `redactForLog`: the walk from the top, with nothing on the path. */
    method RedactForLog(value: Value) returns (r: Outcome<Value>)
      requires Valid() && ValueIn(heap, value)
      modifies this
      ensures Valid() && Extends(old(heap), heap) && ancestors == {}
      ensures Agrees(r, value, MAX_DEPTH, {}, old(heap))
      ensures (r.Done? ==> ValueIn(heap, r.value)) &&
              var scrubbed := Scrub(keys, Shown(old(heap), value, 24, {}));
              && (r.Threw? <==> scrubbed.Threw?)
              && (r.Done? ==> Unfold(heap, r.value, 24) == scrubbed.value.tree &&
                              (scrubbed.value.same <==> r.value == value && !value.NaN?))
      ensures r.Done? ==> Clean(keys, Unfold(heap, r.value, MAX_DEPTH))
      ensures value.Obj? ==>
                (r == Done(value) <==> Pristine(keys, Unfold(old(heap), value, MAX_DEPTH)))
      ensures r.Threw? <==> exists ns :: Trail(keys, old(heap), value, MAX_DEPTH, {}, ns)
    {
      ancestors := {};
      r := Walk(value, 0, heap);
      RedactIsScrub(keys, old(heap), value, MAX_DEPTH, {});
      RedactedIsClean(keys, old(heap), value, MAX_DEPTH, {});
      ThrowsExactlyOnTrail(keys, old(heap), value, MAX_DEPTH, {});
      if value.Obj? {
        HandedOnExactlyWhenPristine(keys, old(heap), value.ref);
      }
    }

    /**
     A second pass hands the first result on unchanged exactly when the first one enters no
     container that comes out unsettled; and where that result runs no `toJSON`, the second pass
     makes of it what scrubbing it says, at every depth.
     */
    method RedactTwice(value: Value) returns (once: Outcome<Value>, twice: Outcome<Value>)
      requires Valid() && ValueIn(heap, value)
      modifies this
      ensures Valid() && Extends(old(heap), heap)
      ensures once.Threw? <==> exists ns :: Trail(keys, old(heap), value, MAX_DEPTH, {}, ns)
      ensures once.Done? ==>
                (twice == once <==> !exists ns :: UnsettledTrail(keys, old(heap), value, MAX_DEPTH, {}, ns))
      ensures value.Obj? && WalkedError(old(heap), value.ref) && once.Done? && once.value != value ==>
                && KeepsError(once.value, old(heap)[value.ref])
                && (twice.Done? && !Live(ToJson(heap[once.value.ref])) ==>
                      var o := old(heap)[value.ref];
                      KeepsError(twice.value, o) <==> twice == once || TaggedError(o) || NothingToKeep(keys, o))
      ensures (once.Done? ==> ValueIn(heap, once.value)) && (twice.Done? ==> ValueIn(heap, twice.value))
      ensures once.Done? && Dead(Unfold(heap, once.value, MAX_DEPTH)) ==>
                var scrubbed := Scrub(keys, Unfold(heap, once.value, MAX_DEPTH));
                && (twice.Threw? <==> scrubbed.Threw?)
                && (twice.Done? ==> Unfold(heap, twice.value, MAX_DEPTH) == scrubbed.value.tree)
    {
      hide KeepsError, UnfoldEdges, RedactEdges, RedactNode, Container, Closed, Clean;
      ghost var g := heap;
      once := RedactForLog(value);
      if once.Threw? {
        return once, once;
      }
      ghost var h := heap;
      twice := RedactForLog(once.value);
      UnsettledExactlyOnTrail(keys, g, value, MAX_DEPTH, {});
      UnfoldExtends(h, heap, once.value, MAX_DEPTH);
      if Dead(Unfold(h, once.value, MAX_DEPTH)) {
        SecondPassIsScrub(keys, g, value, MAX_DEPTH, h, once.value);
      }
      if value.Obj? && WalkedError(g, value.ref) && once.value != value {
        RebuiltOnce(keys, g, value.ref, MAX_DEPTH, {});
        ErrorOverTwoPasses(keys, g, value.ref, MAX_DEPTH, {}, h, once.value.ref, {});
        ApartFromNothing(h, once.value, MAX_DEPTH);
        ErrorRead(h, once.value, MAX_DEPTH, g[value.ref]);
        if twice.Done? && !Live(ToJson(heap[once.value.ref])) {
          ErrorRead(heap, twice.value, MAX_DEPTH, g[value.ref]);
        }
      }
    }

    /** The object has the prototype and, but for what is erased, the hidden properties of an Error. */
    ghost predicate KeepsError(v: Value, o: Object)
      reads this
    {
      && v.Obj? && v.ref in heap && heap[v.ref].proto == o.proto
      && HiddenOf(heap[v.ref]) == KeepHidden(keys, Hidden(o.props))
    }

    lemma ErrorRead(h: Heap, v: Value, room: nat, o: Object)
      requires Closed(h) && ValueIn(h, v) && Extends(h, heap) && Unfold(h, v, room).Node?
      ensures var t := Unfold(h, v, room);
              KeepsError(v, o) <==> t.hidden == KeepHidden(keys, Hidden(o.props)) && t.proto == o.proto
    {
    }

    method Walk(value: Value, depth: nat, ghost g: Heap) returns (r: Outcome<Value>)
      requires Valid() && Closed(g) && Extends(g, heap) && ValueIn(g, value) && depth <= MAX_DEPTH
      requires forall a :: a in ancestors ==> a in g && IsContainer(g[a])
      modifies this
      ensures Valid() && Extends(old(heap), heap) && ancestors == old(ancestors)
      ensures Agrees(r, value, MAX_DEPTH - depth, old(ancestors), g) && Placed(r, ancestors, g)
      decreases g.Keys - ancestors, 0
    {
      ValueInExtends(g, heap, value);
      if !value.Obj? {
        return Done(value);
      }
      var node := value.ref;
      match heap[node].kind {
        case Scalar => return Done(value);
        case Url(None) => return Threw;
        case Url(Some(shown)) => return Done(Str(shown));
        case _ =>
      }
      if node in ancestors {
        return Done(CIRCULAR);
      }
      if depth >= MAX_DEPTH {
        return Done(TOO_DEEP);
      }

      ancestors := ancestors + {node};
      assert Redact(keys, g, value, MAX_DEPTH - depth, old(ancestors)) == RedactNode(keys, g, node, MAX_DEPTH - depth, ancestors);
      r := WalkNode(node, depth, g);
      ancestors := ancestors - {node};
      assert ancestors == old(ancestors);
    }

    /** What stands in the place of a container, while the container is on the path. */
    method WalkNode(node: Ref, depth: nat, ghost g: Heap) returns (r: Outcome<Value>)
      requires Valid() && Closed(g) && Extends(g, heap) && depth < MAX_DEPTH
      requires node in g && node in ancestors
      requires forall a :: a in ancestors ==> a in g && IsContainer(g[a])
      modifies this
      ensures Valid() && Extends(old(heap), heap) && ancestors == old(ancestors)
      ensures NodeAgrees(r, node, MAX_DEPTH - depth, old(ancestors), g)
      ensures Placed(r, ancestors - {node}, g)
      decreases g.Keys - ancestors, 2
    {
      hide RedactEdges, UnfoldEdges, Container, Closed, Lookup, FieldEdges, Tag, HiddenOf, UniqueKeys;
      ToJsonIn(g, node);
      var render := ToJson(heap[node]);
      match render {
        case Throwing =>
          r := Threw;
        case _ =>
          match render.v {
            case Fn(Raises) =>
              r := Done(TOJSON_THREW);
            case Fn(Returns(rendered)) =>
              r := Walk(rendered, depth, g);
            case _ =>
              if heap[node].kind.Array? {
                r := WalkArray(node, depth, g);
              } else {
                r := WalkRecord(node, depth, g);
              }
          }
      }
    }

    method WalkArray(node: Ref, depth: nat, ghost g: Heap) returns (r: Outcome<Value>)
      requires Valid() && Closed(g) && Extends(g, heap) && depth < MAX_DEPTH
      requires node in g && g[node].kind.Array? && !Live(ToJson(g[node])) && node in ancestors
      requires forall a :: a in ancestors ==> a in g && IsContainer(g[a])
      modifies this
      ensures Valid() && Extends(old(heap), heap) && ancestors == old(ancestors)
      ensures NodeAgrees(r, node, MAX_DEPTH - depth, old(ancestors), g)
      ensures r.Done? ==> r.value.Obj? && (r.value.ref == node || r.value.ref !in g)
      decreases g.Keys - ancestors, 1
    {
      hide Progress, EdgeOutcome, Redact, RedactNode, RedactEdges, Unfold, UnfoldEdges, Closed, ToJson, IsErased;
      ghost var es, room, path := Edges(g[node]), MAX_DEPTH - depth - 1, ancestors;
      NodeEdgesIn(g, node);
      NodeOutcome(keys, g, node, room + 1, path);
      var elems := heap[node].elems;
      var out: seq<Slot> := [];
      var changed := false;
      var i := 0;
      ProgressStarts(keys, g, es, room, path, heap);
      while i < |elems|
        invariant 0 <= i <= |elems| == |es|
        invariant Valid() && Extends(old(heap), heap) && Extends(g, heap) && ancestors == path
        invariant Progress(keys, g, es, room, path, i, heap, ItemEdges(out), !changed)
      {
        ghost var before := heap;
        EdgeIsWalked(keys, g, es[i], room, path, heap);
        if elems[i].Throwing? {
          ProgressStops(keys, g, es, room, path, i, heap, ItemEdges(out), !changed);
          return Threw;
        }
        var child := elems[i].v;
        var walked := Walk(child, depth + 1, g);
        if walked.Threw? {
          ProgressStops(keys, g, es, room, path, i, before, ItemEdges(out), !changed);
          return Threw;
        }
        ProgressGoesOn(keys, g, es, room, path, i, before, ItemEdges(out), !changed, heap, walked.value);
        assert ItemEdges(out + [Data(walked.value)]) == ItemEdges(out) + [Edge(Index, Data(walked.value))];
        if walked.value != child || child.NaN? {
          changed := true;
        }
        out := out + [Data(walked.value)];
        i := i + 1;
      }
      ProgressEnds(keys, g, es, room, path, heap, ItemEdges(out), !changed);
      if !changed {
        HandedOn(node, room + 1, g);
        return Done(Obj(node));
      }
      var copy := RebuildArray(out, room);
      return Done(Obj(copy));
    }

    method RebuildArray(out: seq<Slot>, ghost room: nat) returns (copy: Ref)
      requires Valid() && EdgesIn(heap, ItemEdges(out))
      modifies this`heap, this`next
      ensures Valid() && Extends(old(heap), heap) && copy !in old(heap) && copy in heap
      ensures Unfold(heap, Obj(copy), room + 1) == Node(Items, ARRAY_PROTO, UnfoldEdges(old(heap), ItemEdges(out), room), [], false)
    {
      assert forall j :: 0 <= j < |out| ==> ItemEdges(out)[j].slot == out[j];
      copy := Alloc(Object(Array, out, [], ARRAY_PROTO));
      UnfoldEdgesExtends(old(heap), heap, ItemEdges(out), room);
    }

    /** The original object stands for itself when no edge changed. */
    lemma HandedOn(node: Ref, room: nat, g: Heap)
      requires Valid() && Closed(g) && Extends(g, heap) && room > 0
      requires node in g && IsContainer(g[node]) && !Live(ToJson(g[node])) && node in ancestors
      requires EdgesIn(g, Edges(g[node]))
      requires var r := RedactEdges(keys, g, Edges(g[node]), room - 1, ancestors); r.Done? && r.value.same
      ensures NodeAgrees(Done(Obj(node)), node, room, ancestors, g)
    {
      SameEdgesAreUnfolded(keys, g, Edges(g[node]), room - 1, ancestors);
      UnfoldEdgesExtends(g, heap, Edges(g[node]), room - 1);
    }

    method WalkRecord(node: Ref, depth: nat, ghost g: Heap) returns (r: Outcome<Value>)
      requires Valid() && Closed(g) && Extends(g, heap) && depth < MAX_DEPTH
      requires node in g && !g[node].kind.Array? && IsContainer(g[node]) && !Live(ToJson(g[node])) && node in ancestors
      requires forall a :: a in ancestors ==> a in g && IsContainer(g[a])
      modifies this
      ensures Valid() && Extends(old(heap), heap) && ancestors == old(ancestors)
      ensures NodeAgrees(r, node, MAX_DEPTH - depth, old(ancestors), g)
      ensures r.Done? ==> r.value.Obj? && (r.value.ref == node || r.value.ref !in g)
      decreases g.Keys - ancestors, 1
    {
      hide Progress, EdgeOutcome, Redact, RedactNode, RedactEdges, Unfold, UnfoldEdges, Closed, ToJson, IsErased, FieldEdges, Surviving, Container;
      ghost var es, room, path := Edges(g[node]), MAX_DEPTH - depth - 1, ancestors;
      NodeEdgesIn(g, node);
      NodeOutcome(keys, g, node, room + 1, path);
      var source := FieldEdges(heap[node].props);
      var kept: seq<Prop> := [];
      var changed := false;
      var i := 0;
      ProgressStarts(keys, g, es, room, path, heap);
      NothingKept(keys);
      assert es[..0] == [];
      while i < |source|
        invariant 0 <= i <= |source| && source == es
        invariant Valid() && Extends(old(heap), heap) && Extends(g, heap) && ancestors == path
        invariant PlainData(kept) && KeysOf(kept) == Surviving(keys, es[..i])
        invariant Progress(keys, g, es, room, path, i, heap, FieldEdges(kept), !changed)
      {
        ghost var before := heap;
        ghost var j := FieldEdgeFrom(g[node].props, i);
        EdgeIsWalked(keys, g, es[i], room, path, heap);
        var key := source[i].at.name;
        if IsErased(keys, key) {
          ProgressOverErased(keys, g, es, room, path, i, heap, FieldEdges(kept), !changed);
          SurvivingNext(keys, es, i);
          changed := true;
          i := i + 1;
          continue;
        }
        var next := UNREADABLE;
        var same := false;
        if !source[i].slot.Throwing? {
          var child := source[i].slot.v;
          var walked := Walk(child, depth + 1, g);
          if walked.Threw? {
            ProgressStops(keys, g, es, room, path, i, before, FieldEdges(kept), !changed);
            return Threw;
          }
          next := walked.value;
          same := next == child && !child.NaN?;
        }
        ProgressGoesOn(keys, g, es, room, path, i, before, FieldEdges(kept), !changed, heap, next);
        KeepField(kept, key, next);
        SurvivingNext(keys, es, i);
        if !same {
          changed := true;
        }
        kept := kept + [Prop(Name(key), Data(next), true)];
        i := i + 1;
      }
      ProgressEnds(keys, g, es, room, path, heap, FieldEdges(kept), !changed);
      assert es[..|es|] == es;
      if !changed {
        HandedOn(node, room + 1, g);
        return Done(Obj(node));
      }
      if Tag(heap[node]).Throwing? {
        return Threw;
      }
      var copy := RebuildRecord(node, kept, room, g);
      return Done(Obj(copy));
    }

    /** Allocate the object that takes the place of one that lost or changed a field. */
    method RebuildRecord(node: Ref, kept: seq<Prop>, ghost room: nat, ghost g: Heap) returns (copy: Ref)
      requires Valid() && Closed(g) && Extends(g, heap)
      requires node in g && !g[node].kind.Array? && IsContainer(g[node]) && !Tag(g[node]).Throwing?
      requires PlainData(kept) && KeysOf(kept) == Surviving(keys, FieldEdges(g[node].props))
      requires EdgesIn(heap, FieldEdges(kept))
      modifies this`heap, this`next
      ensures Valid() && Extends(old(heap), heap) && copy !in old(heap) && copy in heap
      ensures Unfold(heap, Obj(copy), room + 1) ==
              Container(keys, g[node], WalkedKids(UnfoldEdges(old(heap), FieldEdges(kept), room), false))
    {
      hide ToJson, Hidden, KeepHidden, DropToJson, DropToJsonEdges, FieldEdges, UnfoldEdges, RendersFunction, Surviving;
      KeptUnique(keys, g[node].props, kept);
      KeptSlotsIn(heap, kept);
      if IsError(heap[node]) {
        var clone := RebuildError(heap[node], kept);
        RebuiltErrorIn(keys, heap, heap[node], kept);
        copy := Alloc(clone);
        CloneOf(keys, g[node], kept);
        UnfoldEdgesExtends(old(heap), heap, FieldEdges(kept), room);
        DropToJsonUnfolds(heap, FieldEdges(kept), room);
      } else {
        copy := Alloc(Object(Plain, [], kept, OBJECT_PROTO));
        UnfoldEdgesExtends(old(heap), heap, FieldEdges(kept), room);
        KeptToJson(heap, kept, room);
        PlainOf(kept);
      }
    }

    /** Own properties in own-key order, each copied, replaced by its kept value, or dropped. */
    method RebuildError(node: Object, kept: seq<Prop>) returns (clone: Object)
      ensures clone == Object(Plain, [], RebuiltProps(keys, node.props, kept), node.proto)
    {
      hide RebuiltProp;
      var defined: seq<Prop> := [];
      var i := 0;
      while i < |node.props|
        invariant 0 <= i <= |node.props|
        invariant defined + RebuiltProps(keys, node.props[i..], kept) == RebuiltProps(keys, node.props, kept)
      {
        var own := Rebuilt(keys, node.props[i], kept);
        ghost var rest := RebuiltProps(keys, node.props[i + 1..], kept);
        assert node.props[i..][0] == node.props[i] && node.props[i..][1..] == node.props[i + 1..];
        assert (defined + own) + rest == defined + (own + rest);
        defined := defined + own;
        i := i + 1;
      }
      assert node.props[|node.props|..] == [] && defined + [] == defined;
      clone := Object(Plain, [], defined, node.proto);
    }
  }

  /** The walker the logger uses: the walk under the production policy. */
  method ProductionWalker(h: Heap, unused: Ref) returns (w: Walker)
    requires Closed(h) && forall r :: r in h ==> r < unused
    ensures fresh(w) && w.Valid() && w.heap == h && w.keys == SecretKeys.SECRET_KEYS
  {
    w := new Walker(SecretKeys.SECRET_KEYS, h, unused);
  }

  lemma ObjectInExtends(h: Heap, h': Heap, o: Object)
    requires Extends(h, h') && ObjectIn(h, o)
    ensures ObjectIn(h', o)
  {
    forall s: Slot | SlotIn(h, s) ensures SlotIn(h', s) {
      if !s.Throwing? {
        ValueInExtends(h, h', s.v);
      }
    }
  }
}
