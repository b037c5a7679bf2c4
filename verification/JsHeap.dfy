/**
 The object graphs a logger is handed: JavaScript values and a heap of objects that may
 share structure, form cycles, define `toJSON` and carry accessors that throw.

 `Unfold` reads a graph back as a finite tree, down to a given number of container levels.
 It looks at what serialization looks at: array elements and own enumerable string keys.
 */
module JsHeap {
  import opened Outcomes

  /** Object identity. */
  type Ref = nat

  datatype Value =
    | Undefined
    | Null
    | Bool(b: bool)
    | Number(n: real)
    | NaN
    | Str(s: string)
    | Fn(call: Call)
    | Obj(ref: Ref)

  /** What calling a function value does, every time it is called. */
  datatype Call = Returns(result: Value) | Raises

  /** A property slot: a data property, an accessor with a stable result, or one that throws. */
  datatype Slot = Data(v: Value) | Getter(v: Value) | Throwing

  datatype Key = Name(name: string) | Symbol(id: nat)

  /** `Symbol.toStringTag`. */
  const TAG := Symbol(0)

  datatype Prop = Prop(key: Key, slot: Slot, enumerable: bool)

  /**
   What an object is internally, whatever its prototype. `Error` is what an Error constructor
   makes; `Scalar` stands for Date, RegExp and Buffer; a URL carries its origin and path, or
   nothing if reading them throws (an object that only inherits from `URL.prototype`).
   */
  datatype Kind = Plain | Array | Error | Scalar | Url(shown: Option<string>)

  /** A prototype, and the slots that lookups of `toJSON` and the tag find from there on. */
  datatype Proto = Proto(id: nat, toJson: Slot, tag: Slot)

  const OBJECT_PROTO := Proto(0, Data(Undefined), Data(Undefined))

  const ARRAY_PROTO := Proto(1, Data(Undefined), Data(Undefined))

  /** An object: array elements (holes read as undefined) and own properties in own-key order. */
  datatype Object = Object(kind: Kind, elems: seq<Slot>, props: seq<Prop>, proto: Proto)

  type Heap = map<Ref, Object>

  predicate ValueIn(h: Heap, v: Value) {
    match v
    case Obj(r) => r in h
    case Fn(Returns(w)) => ValueIn(h, w)
    case _ => true
  }

  predicate SlotIn(h: Heap, s: Slot) {
    s.Throwing? || ValueIn(h, s.v)
  }

  predicate UniqueKeys(props: seq<Prop>) {
    forall i, j :: 0 <= i < j < |props| ==> props[i].key != props[j].key
  }

  predicate ObjectIn(h: Heap, o: Object) {
    && (forall i :: 0 <= i < |o.elems| ==> SlotIn(h, o.elems[i]))
    && (forall i :: 0 <= i < |o.props| ==> SlotIn(h, o.props[i].slot))
    && SlotIn(h, o.proto.toJson)
    && UniqueKeys(o.props)
  }

  /** No reference leaves the heap, and no object has two own properties under one key. */
  ghost predicate Closed(h: Heap) {
    forall r :: r in h ==> ObjectIn(h, h[r])
  }

  /** `to` holds every object of `from`, unchanged. */
  ghost predicate Extends(from: Heap, to: Heap) {
    forall r :: r in from ==> r in to && to[r] == from[r]
  }

  /** The slot a property read finds: the own property, or else what is inherited. */
  function Lookup(props: seq<Prop>, key: Key, inherited: Slot): Slot {
    if props == [] then inherited
    else if props[0].key == key then props[0].slot
    else Lookup(props[1..], key, inherited)
  }

  const TO_JSON := "toJSON"

  function ToJson(o: Object): Slot {
    Lookup(o.props, Name(TO_JSON), o.proto.toJson)
  }

  function Tag(o: Object): Slot {
    Lookup(o.props, TAG, o.proto.tag)
  }

  /** `isError`, if its read of the tag does not throw: a string tag hides what the object is. */
  predicate IsError(o: Object) {
    var tag := Tag(o);
    if !tag.Throwing? && tag.v.Str? then tag.v.s == "Error" else o.kind.Error?
  }

  /** Whether reading the slot throws or yields something callable. */
  predicate Live(s: Slot) {
    s.Throwing? || s.v.Fn?
  }

  // The walked edges of an object: array elements, or own enumerable string keys.

  datatype Label = Index | Field(name: string)

  datatype Edge = Edge(at: Label, slot: Slot)

  function ItemEdges(elems: seq<Slot>): (es: seq<Edge>)
    ensures |es| == |elems|
    ensures forall i :: 0 <= i < |es| ==> es[i] == Edge(Index, elems[i])
  {
    seq(|elems|, i requires 0 <= i < |elems| => Edge(Index, elems[i]))
  }

  /** `Object.keys`, each with the slot it names. */
  function FieldEdges(props: seq<Prop>): seq<Edge> {
    if props == [] then []
    else
      var p := props[0];
      (if p.enumerable && p.key.Name? then [Edge(Field(p.key.name), p.slot)] else []) + FieldEdges(props[1..])
  }

  function Edges(o: Object): seq<Edge> {
    if o.kind.Array? then ItemEdges(o.elems) else FieldEdges(o.props)
  }

  // The own properties that are not walked: hidden ones and symbols, as a read finds them.

  function Hidden(props: seq<Prop>): seq<Prop> {
    if props == [] then [] else HiddenProp(props[0]) + Hidden(props[1..])
  }

  function HiddenProp(p: Prop): seq<Prop> {
    if p.enumerable && p.key.Name? then []
    else [p.(slot := if p.slot.Getter? then Data(p.slot.v) else p.slot)]
  }

  function HiddenOf(o: Object): seq<Prop> {
    if o.kind.Array? then [] else Hidden(o.props)
  }

  ghost predicate EdgesIn(h: Heap, es: seq<Edge>) {
    forall i :: 0 <= i < |es| ==> SlotIn(h, es[i].slot)
  }

  lemma {:induction false} FieldEdgesIn(h: Heap, props: seq<Prop>)
    requires forall i :: 0 <= i < |props| ==> SlotIn(h, props[i].slot)
    ensures EdgesIn(h, FieldEdges(props))
  {
    if props != [] {
      FieldEdgesIn(h, props[1..]);
    }
  }

  predicate FieldOf(e: Edge, p: Prop) {
    p.enumerable && p.key.Name? && e == Edge(Field(p.key.name), p.slot)
  }

  lemma {:induction false} FieldEdgeFrom(props: seq<Prop>, i: nat) returns (j: nat)
    requires i < |FieldEdges(props)|
    ensures j < |props| && FieldOf(FieldEdges(props)[i], props[j])
  {
    var own := |FieldEdges(props)| - |FieldEdges(props[1..])|;
    if i < own {
      j := 0;
    } else {
      assert FieldEdges(props)[i] == FieldEdges(props[1..])[i - own];
      j := FieldEdgeFrom(props[1..], i - own);
      j := j + 1;
    }
  }

  lemma NodeEdgesIn(h: Heap, r: Ref)
    requires Closed(h) && r in h
    ensures EdgesIn(h, Edges(h[r]))
  {
    if !h[r].kind.Array? {
      FieldEdgesIn(h, h[r].props);
    }
  }

  lemma {:induction false} LookupIn(h: Heap, props: seq<Prop>, key: Key, inherited: Slot)
    requires forall i :: 0 <= i < |props| ==> SlotIn(h, props[i].slot)
    requires SlotIn(h, inherited)
    ensures SlotIn(h, Lookup(props, key, inherited))
  {
    if props != [] {
      LookupIn(h, props[1..], key, inherited);
    }
  }

  lemma ToJsonIn(h: Heap, r: Ref)
    requires Closed(h) && r in h
    ensures SlotIn(h, ToJson(h[r]))
  {
    LookupIn(h, h[r].props, Name(TO_JSON), h[r].proto.toJson);
  }

  // Trees read back from a heap.

  datatype Shape = Items | Record | Failure

  datatype Kid = Kid(at: Label, tree: Tree)

  /**
   `Opaque` is a Date, RegExp or Buffer, `Link` a URL object and what it shows, `Deep` a container below the
   last level looked at, `Broken` a slot that throws when read. A container has a prototype
   and properties that are not walked; `live` says that its `toJSON` lookup would run code: it
   throws or finds a function. The last four are for reading a graph through its `toJSON`s: what
   one returns instead of its container, a call that raises, a lookup that throws, and a container
   met again below itself.
   */
  datatype Tree =
    | Leaf(v: Value)
    | Opaque(ref: Ref)
    | Link(ref: Ref, shown: Option<string>)
    | Deep
    | Broken
    | Node(shape: Shape, proto: Proto, kids: seq<Kid>, hidden: seq<Prop>, live: bool)
    | Instead(tree: Tree)
    | Raised
    | Untouchable
    | Repeated

  function ShapeOf(k: Kind): Shape {
    if k.Array? then Items else if k.Error? then Failure else Record
  }

  /** The tree below `v`, reading at most `room` levels of containers. */
  ghost function Unfold(h: Heap, v: Value, room: nat): Tree
    requires Closed(h) && ValueIn(h, v)
    decreases room, 1, 0
  {
    if !v.Obj? then Leaf(v)
    else
      var o := h[v.ref];
      if o.kind.Scalar? then Opaque(v.ref)
      else if o.kind.Url? then Link(v.ref, o.kind.shown)
      else if room == 0 then Deep
      else
        NodeEdgesIn(h, v.ref);
        Node(ShapeOf(o.kind), o.proto, UnfoldEdges(h, Edges(o), room - 1), HiddenOf(o), Live(ToJson(o)))
  }

  ghost function UnfoldEdges(h: Heap, es: seq<Edge>, room: nat): (kids: seq<Kid>)
    requires Closed(h) && EdgesIn(h, es)
    ensures |kids| == |es|
    decreases room, 2, |es|
  {
    if es == [] then []
    else [Kid(es[0].at, UnfoldSlot(h, es[0].slot, room))] + UnfoldEdges(h, es[1..], room)
  }

  ghost function UnfoldSlot(h: Heap, s: Slot, room: nat): Tree
    requires Closed(h) && SlotIn(h, s)
    decreases room, 2, 0
  {
    if s.Throwing? then Broken else Unfold(h, s.v, room)
  }

  lemma {:induction false} UnfoldEdgesAt(h: Heap, es: seq<Edge>, room: nat, i: nat)
    requires Closed(h) && EdgesIn(h, es) && i < |es|
    ensures UnfoldEdges(h, es, room)[i] == Kid(es[i].at, UnfoldSlot(h, es[i].slot, room))
  {
    if i > 0 {
      UnfoldEdgesAt(h, es[1..], room, i - 1);
    }
  }

  lemma {:induction false} UnfoldEdgesConcat(h: Heap, es: seq<Edge>, fs: seq<Edge>, room: nat)
    requires Closed(h) && EdgesIn(h, es) && EdgesIn(h, fs)
    ensures EdgesIn(h, es + fs)
    ensures UnfoldEdges(h, es + fs, room) == UnfoldEdges(h, es, room) + UnfoldEdges(h, fs, room)
  {
    if es == [] {
      assert es + fs == fs;
    } else {
      assert (es + fs)[1..] == es[1..] + fs;
      UnfoldEdgesConcat(h, es[1..], fs, room);
    }
  }

  lemma {:induction false} ValueInExtends(h: Heap, h': Heap, v: Value)
    requires Extends(h, h') && ValueIn(h, v)
    ensures ValueIn(h', v)
  {
    match v
    case Fn(Returns(w)) => ValueInExtends(h, h', w);
    case _ =>
  }

  lemma EdgesInExtends(h: Heap, h': Heap, es: seq<Edge>)
    requires Extends(h, h') && EdgesIn(h, es)
    ensures EdgesIn(h', es)
  {
    forall i | 0 <= i < |es| ensures SlotIn(h', es[i].slot) {
      if !es[i].slot.Throwing? {
        ValueInExtends(h, h', es[i].slot.v);
      }
    }
  }

  /** Allocating more objects never changes what an existing value unfolds to. */
  lemma {:induction false} UnfoldExtends(h: Heap, h': Heap, v: Value, room: nat)
    requires Closed(h) && Closed(h') && Extends(h, h') && ValueIn(h, v)
    ensures ValueIn(h', v) && Unfold(h', v, room) == Unfold(h, v, room)
    decreases room, 1, 0
  {
    ValueInExtends(h, h', v);
    if v.Obj? && room > 0 {
      NodeEdgesIn(h, v.ref);
      UnfoldEdgesExtends(h, h', Edges(h[v.ref]), room - 1);
    }
  }

  lemma {:induction false} UnfoldEdgesExtends(h: Heap, h': Heap, es: seq<Edge>, room: nat)
    requires Closed(h) && Closed(h') && Extends(h, h') && EdgesIn(h, es)
    ensures EdgesIn(h', es) && UnfoldEdges(h', es, room) == UnfoldEdges(h, es, room)
    decreases room, 2, |es|
  {
    EdgesInExtends(h, h', es);
    if es != [] {
      if !es[0].slot.Throwing? {
        UnfoldExtends(h, h', es[0].slot.v, room);
      }
      UnfoldEdgesExtends(h, h', es[1..], room);
    }
  }
}
