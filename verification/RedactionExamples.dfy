/**
 Concrete graphs behind the exact conditions: what throws although every field can be read, and
 the ways in which a second pass does not leave the first result alone.
 */
module RedactionExamples {
  import opened Outcomes
  import opened JsHeap
  import opened Redaction
  import opened RedactionLaws
  import opened RedactionTrails
  import opened SecretKeys

  function Own(name: string, v: Value): Prop {
    Prop(Name(name), Data(v), true)
  }

  /** One edge that is walked, ahead of edges whose outcome is known. */
  lemma FirstEdge(keys: set<string>, g: Heap, e: Edge, es: seq<Edge>, room: nat, path: set<Ref>, kids: seq<Kid>, same: bool)
    requires Closed(g) && SlotIn(g, e.slot) && EdgesIn(g, es)
    requires RedactEdges(keys, g, es, room, path) == Done(WalkedKids(kids, same))
    requires !e.slot.Throwing? && !e.slot.v.Obj?
    ensures EdgesIn(g, [e] + es)
    ensures RedactEdges(keys, g, [e] + es, room, path) ==
            if Erased(keys, e.at) then Done(WalkedKids(kids, false))
            else Done(WalkedKids([Kid(e.at, Leaf(e.slot.v))] + kids, !e.slot.v.NaN? && same))
  {
    assert ([e] + es)[1..] == es;
  }

  // ---- NaN ----

  /** `{ name: NaN }`, read back. */
  function HoldsNaN(name: string): Tree {
    Node(Record, OBJECT_PROTO, [Kid(Field(name), Leaf(NaN))], [], false)
  }

  /** Walking the one field of an object that reads back as NaN. */
  lemma OneNaN(keys: set<string>, g: Heap, c: Ref, room: nat, path: set<Ref>, name: string)
    requires Closed(g) && c in g && !IsErased(keys, name) && EdgesIn(g, Edges(g[c]))
    requires UnfoldEdges(g, Edges(g[c]), room) == [Kid(Field(name), Leaf(NaN))]
    ensures RedactEdges(keys, g, Edges(g[c]), room, path) == Done(WalkedKids([Kid(Field(name), Leaf(NaN))], false))
  {
    hide IsErased;
    var es := Edges(g[c]);
    UnfoldEdgesAt(g, es, room, 0);
    assert es == [es[0]] + [];
    FirstEdge(keys, g, es[0], [], room, path, [], true);
    assert [Kid(Field(name), Leaf(NaN))] + [] == [Kid(Field(name), Leaf(NaN))];
  }

  /**
   An object that reads back as `{ name: NaN }` is cloned, because NaN never equals itself; and
   the clone reads back alike, so it is cloned again on every later pass.
   */
  lemma NaNIsClonedEveryTime(keys: set<string>, g: Heap, c: Ref, name: string)
    requires Closed(g) && c in g && !IsErased(keys, name) && name != TO_JSON
    requires Unfold(g, Obj(c), MAX_DEPTH) == HoldsNaN(name)
    ensures Redact(keys, g, Obj(c), MAX_DEPTH, {}) == Done(Walked(HoldsNaN(name), false))
  {
    hide IsErased;
    NodeEdgesIn(g, c);
    OneNaN(keys, g, c, MAX_DEPTH - 1, {} + {c}, name);
    HiddenTag(g[c].props, OBJECT_PROTO.tag);
    LookupPast(HiddenOf(g[c]), TAG, OBJECT_PROTO.tag);
    assert Redact(keys, g, Obj(c), MAX_DEPTH, {}) == RedactNode(keys, g, c, MAX_DEPTH, {} + {c});
  }

  // ---- A tag that throws ----

  /** `{ secret: null, get [Symbol.toStringTag]() { throw … } }` */
  function ThrowingTag(secret: string): Object {
    Object(Plain, [], [Own(secret, Null), Prop(TAG, Throwing, true)], OBJECT_PROTO)
  }

  /**
   Every field can be read, and `toJSON` is not even there; but losing the secret makes the walk
   ask whether the object is an Error, and that read of the tag throws.
   */
  lemma RebuildingReadsTheTag(keys: set<string>, g: Heap, secret: string)
    requires IsErased(keys, secret) && secret != TO_JSON
    requires g == map[0 := ThrowingTag(secret)]
    ensures Closed(g)
    ensures Redact(keys, g, Obj(0), MAX_DEPTH, {}).Threw?
  {
    hide IsErased;
    var o, e := g[0], Edge(Field(secret), Data(Null));
    assert UniqueKeys(o.props) && ObjectIn(g, o);
    assert o.props[1..] == [Prop(TAG, Throwing, true)] && o.props[1..][1..] == [];
    assert FieldEdges(o.props[1..]) == [];
    assert FieldEdges(o.props) == [e] + [];
    assert Tag(o) == Lookup(o.props[1..], TAG, o.proto.tag) == Throwing;
    assert ToJson(o) == Lookup(o.props[1..], Name(TO_JSON), o.proto.toJson) == Lookup([], Name(TO_JSON), o.proto.toJson);
    FirstEdge(keys, g, e, [], MAX_DEPTH - 1, {} + {0}, [], true);
    assert Redact(keys, g, Obj(0), MAX_DEPTH, {}) == RedactNode(keys, g, 0, MAX_DEPTH, {} + {0});
  }

  // ---- Errors ----

  /**
   An Error whose own `toJSON` is a number, over a prototype whose `toJSON` is a function:
   losing a secret field rebuilds the Error, the rebuilt one has no own `toJSON`, and the
   inherited function shows through.
   */
  lemma RebuiltErrorUncoversInheritedToJson(g: Heap, proto: Proto)
    requires proto.toJson.Data? && proto.toJson.v.Fn? && proto.tag == Data(Undefined)
    requires g == map[0 := Object(Error, [], [Own(TO_JSON, Number(5.0)), Own("pin", Null)], proto)]
    requires SlotIn(g, proto.toJson)
    ensures Closed(g)
    ensures Redact(SECRET_KEYS, g, Obj(0), MAX_DEPTH, {}) == Done(Walked(Node(Record, proto, [], [], true), false))
  {
    hide SECRET_KEYS;
    ToJsonIsNotSecret();
    PinIsSecret();
    assert PROTO_KEY[0] != TO_JSON[0] && |PROTO_KEY| != |"pin"|;
    assert !IsErased(SECRET_KEYS, TO_JSON) && IsErased(SECRET_KEYS, "pin");
    UncoversInheritedToJson(SECRET_KEYS, g, proto, "pin");
  }

  lemma UncoversInheritedToJson(keys: set<string>, g: Heap, proto: Proto, secret: string)
    requires IsErased(keys, secret) && !IsErased(keys, TO_JSON)
    requires proto.toJson.Data? && proto.toJson.v.Fn? && proto.tag == Data(Undefined)
    requires g == map[0 := Object(Error, [], [Own(TO_JSON, Number(5.0)), Own(secret, Null)], proto)]
    requires SlotIn(g, proto.toJson)
    ensures Closed(g)
    ensures Redact(keys, g, Obj(0), MAX_DEPTH, {}) == Done(Walked(Node(Record, proto, [], [], true), false))
  {
    hide IsErased;
    var o := g[0];
    TwoFields(o, TO_JSON, Number(5.0), secret, Null);
    TwoEdges(keys, g, TO_JSON, Number(5.0), secret, MAX_DEPTH - 1, {} + {0});
    assert DropToJson([Kid(Field(TO_JSON), Leaf(Number(5.0)))]) == [];
    assert Redact(keys, g, Obj(0), MAX_DEPTH, {}) == RedactNode(keys, g, 0, MAX_DEPTH, {} + {0});
  }

  /** The edges of an object with two plain fields, and what it hides and is tagged. */
  lemma TwoFields(o: Object, a: string, x: Value, b: string, y: Value)
    requires !o.kind.Array? && o.props == [Own(a, x), Own(b, y)]
    ensures Edges(o) == [Edge(Field(a), Data(x))] + [Edge(Field(b), Data(y))]
    ensures Hidden(o.props) == [] && Tag(o) == o.proto.tag
  {
    var rest := o.props[1..];
    assert rest == [Own(b, y)] && rest[1..] == [];
    assert FieldEdges(rest) == [Edge(Field(b), Data(y))];
    assert Hidden(rest) == [] && Hidden(o.props) == [] + Hidden(rest);
    assert Lookup(o.props, TAG, o.proto.tag) == Lookup(rest, TAG, o.proto.tag) == Lookup([], TAG, o.proto.tag);
  }

  /** A field that stays before one that is erased. */
  lemma TwoEdges(keys: set<string>, g: Heap, a: string, x: Value, secret: string, room: nat, path: set<Ref>)
    requires Closed(g) && !x.Obj? && ValueIn(g, x) && IsErased(keys, secret) && !IsErased(keys, a)
    ensures var es := [Edge(Field(a), Data(x))] + [Edge(Field(secret), Data(Null))];
            EdgesIn(g, es) &&
            RedactEdges(keys, g, es, room, path) == Done(WalkedKids([Kid(Field(a), Leaf(x))], false))
  {
    hide IsErased;
    var e, s := Edge(Field(a), Data(x)), Edge(Field(secret), Data(Null));
    FirstEdge(keys, g, s, [], room, path, [], true);
    assert [s] + [] == [s];
    FirstEdge(keys, g, e, [s], room, path, [], false);
    assert [Kid(Field(a), Leaf(x))] + [] == [Kid(Field(a), Leaf(x))];
  }

  /** An Error with a hidden message and the fields `name`, which is NaN, and `secret`. */
  function FailureWithNaN(name: string, secret: string, message: Value, proto: Proto): Object {
    Object(Error, [], [Own(name, NaN), Own(secret, Null), Prop(Name("message"), Data(message), false)], proto)
  }

  /**
   The message of an Error survives the first pass, which rebuilds the Error without its secret,
   and not the second: the rebuilt one is no Error any more, and NaN has it rebuilt again.
   */
  lemma SecondPassLosesTheMessage(keys: set<string>,
    g: Heap, name: string, secret: string, message: Value, proto: Proto, h: Heap, c: Ref)
    requires IsErased(keys, secret) && !IsErased(keys, name) && !IsErased(keys, "message")
    requires name != TO_JSON && secret != TO_JSON && name != "message" && secret != "message"
    requires proto.toJson == Data(Undefined) && proto.tag == Data(Undefined) && !message.Obj? && ValueIn(g, message)
    requires g == map[0 := FailureWithNaN(name, secret, message, proto)]
    requires Closed(h) && c in h
    requires Unfold(h, Obj(c), MAX_DEPTH) ==
             Node(Record, proto, [Kid(Field(name), Leaf(NaN))], [Prop(Name("message"), Data(message), false)], false)
    ensures Closed(g)
    ensures Redact(keys, g, Obj(0), MAX_DEPTH, {}) == Done(Walked(Unfold(h, Obj(c), MAX_DEPTH), false))
    ensures Redact(keys, h, Obj(c), MAX_DEPTH, {}) == Done(Walked(HoldsNaN(name), false))
  {
    hide IsErased;
    MessageKept(keys, g, name, secret, message, proto);
    NodeEdgesIn(h, c);
    OneNaN(keys, h, c, MAX_DEPTH - 1, {} + {c}, name);
    assert !IsError(h[c]) && !Tag(h[c]).Throwing? by {
      HiddenTag(h[c].props, proto.tag);
      LookupPast(HiddenOf(h[c]), TAG, proto.tag);
    }
    assert Redact(keys, h, Obj(c), MAX_DEPTH, {}) == RedactNode(keys, h, c, MAX_DEPTH, {} + {c});
  }

  lemma MessageKept(keys: set<string>, g: Heap, name: string, secret: string, message: Value, proto: Proto)
    requires IsErased(keys, secret) && !IsErased(keys, name) && !IsErased(keys, "message")
    requires name != TO_JSON && secret != TO_JSON && name != "message" && secret != "message"
    requires proto.toJson == Data(Undefined) && proto.tag == Data(Undefined) && !message.Obj? && ValueIn(g, message)
    requires g == map[0 := FailureWithNaN(name, secret, message, proto)]
    ensures Closed(g)
    ensures Redact(keys, g, Obj(0), MAX_DEPTH, {}) ==
            Done(Walked(Node(Record, proto, [Kid(Field(name), Leaf(NaN))], [Prop(Name("message"), Data(message), false)], false), false))
  {
    hide IsErased, Lookup, FieldEdges;
    var o, hidden := g[0], Prop(Name("message"), Data(message), false);
    FailureIsClosed(keys, g, name, secret, message, proto);
    FailureReads(o, name, secret, hidden);
    TwoEdges(keys, g, name, NaN, secret, MAX_DEPTH - 1, {} + {0});
    MessageIsNotErased(keys, hidden);
    assert DropToJson([Kid(Field(name), Leaf(NaN))]) == [Kid(Field(name), Leaf(NaN))];
    ErrorIsRebuilt(keys, g, 0, WalkedKids([Kid(Field(name), Leaf(NaN))], false));
  }

  lemma {:induction false} LookupPast(props: seq<Prop>, key: Key, inherited: Slot)
    requires forall i :: 0 <= i < |props| ==> props[i].key != key
    ensures Lookup(props, key, inherited) == inherited
  {
    if props != [] {
      LookupPast(props[1..], key, inherited);
    }
  }

  lemma MessageIsNotErased(keys: set<string>, hidden: Prop)
    requires hidden.key == Name("message") && hidden.slot.Data? && !IsErased(keys, "message")
    ensures KeepHidden(keys, [hidden]) == [hidden]
  {
    hide IsErased;
    assert "message"[0] != TO_JSON[0];
    assert KeepHidden(keys, [hidden]) == Keep(keys, hidden) + KeepHidden(keys, []);
  }

  /** An Error whose walked kids changed, at the top. */
  lemma ErrorIsRebuilt(keys: set<string>, g: Heap, n: Ref, r: WalkedKids)
    requires Closed(g) && n in g && IsContainer(g[n]) && !g[n].kind.Array? && !Live(ToJson(g[n]))
    requires IsError(g[n]) && !Tag(g[n]).Throwing? && !r.same && EdgesIn(g, Edges(g[n]))
    requires RedactEdges(keys, g, Edges(g[n]), MAX_DEPTH - 1, {} + {n}) == Done(r)
    ensures Redact(keys, g, Obj(n), MAX_DEPTH, {}) ==
            Done(Walked(Node(Record, g[n].proto, DropToJson(r.kids), KeepHidden(keys, Hidden(g[n].props)), Live(g[n].proto.toJson)), false))
  {
    hide Closed, ToJson, Edges, DropToJson, KeepHidden, Hidden;
    assert Redact(keys, g, Obj(n), MAX_DEPTH, {}) == RedactNode(keys, g, n, MAX_DEPTH, {} + {n});
  }

  lemma FailureIsClosed(keys: set<string>, g: Heap, name: string, secret: string, message: Value, proto: Proto)
    requires IsErased(keys, secret) && !IsErased(keys, name) && name != "message" && secret != "message"
    requires proto.toJson == Data(Undefined) && ValueIn(g, message)
    requires g == map[0 := FailureWithNaN(name, secret, message, proto)]
    ensures Closed(g)
  {
    hide IsErased;
    assert ObjectIn(g, g[0]);
  }

  lemma FailureReads(o: Object, name: string, secret: string, hidden: Prop)
    requires o.kind.Error? && o.props == [Own(name, NaN), Own(secret, Null), hidden]
    requires hidden.key.Name? && !hidden.enumerable && hidden.slot.Data?
    requires name != TO_JSON && secret != TO_JSON && hidden.key.name != TO_JSON
    ensures Edges(o) == [Edge(Field(name), Data(NaN))] + [Edge(Field(secret), Data(Null))]
    ensures Hidden(o.props) == [hidden] && Tag(o) == o.proto.tag && ToJson(o) == o.proto.toJson
  {
    var b, c := o.props[1..], o.props[2..];
    assert b[1..] == c && c[1..] == [] && c[0] == hidden && b[0] == Own(secret, Null);
    assert FieldEdges(c) == [] && FieldEdges(b) == [Edge(Field(secret), Data(Null))] + FieldEdges(c);
    LookupPast(o.props, TAG, o.proto.tag);
    LookupPast(o.props, Name(TO_JSON), o.proto.toJson);
    assert Hidden(c) == [hidden] && Hidden(b) == [] + Hidden(c) && Hidden(o.props) == [] + Hidden(b);
  }
}
