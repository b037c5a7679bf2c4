/**
 The log redaction policy as a pure function from an object graph to the tree that may
 reach a log line, and what the policy guarantees about that tree, for any set `keys` of
 secret key names.
 */
module Redaction {
  import opened Outcomes
  import opened JsHeap

  const PROTO_KEY := "__proto__"

  /** How many levels of containers are walked. */
  const MAX_DEPTH: nat := 24

  const TOO_DEEP := Str("[Redacted: max depth]")
  const CIRCULAR := Str("[Circular]")
  const TOJSON_THREW := Str("[Redacted: toJSON threw]")
  const UNREADABLE := Str("[Redacted: unreadable]")

  predicate IsErased(keys: set<string>, name: string) {
    name in keys || name == PROTO_KEY
  }

  predicate Erased(keys: set<string>, at: Label) {
    at.Field? && IsErased(keys, at.name)
  }

  // The policy. `room` is the number of container levels left, `path` the containers
  // being walked; `same` says that the walk hands the value on under the same identity,
  // as JavaScript's `===` sees it (so it never holds of NaN).

  datatype Walked = Walked(tree: Tree, same: bool)

  datatype WalkedKids = WalkedKids(kids: seq<Kid>, same: bool)

  ghost function Redact(keys: set<string>, g: Heap, v: Value, room: nat, path: set<Ref>): Outcome<Walked>
    requires Closed(g) && ValueIn(g, v)
    decreases g.Keys - path, 1, 0
  {
    if !v.Obj? then Done(Walked(Leaf(v), !v.NaN?))
    else
      var o := g[v.ref];
      if o.kind.Scalar? then Done(Walked(Opaque(v.ref), true))
      else if o.kind.Url? then
        if o.kind.shown.None? then Threw else Done(Walked(Leaf(Str(o.kind.shown.value)), false))
      else if v.ref in path then Done(Walked(Leaf(CIRCULAR), false))
      else if room == 0 then Done(Walked(Leaf(TOO_DEEP), false))
      else RedactNode(keys, g, v.ref, room, path + {v.ref})
  }

  /**
   A container: what its `toJSON` renders stands in its place, or else its edges are walked. A
   record that has to be rebuilt is first asked for its tag.
   */
  ghost function RedactNode(keys: set<string>, g: Heap, n: Ref, room: nat, path: set<Ref>): Outcome<Walked>
    requires Closed(g) && n in g && n in path && room > 0
    decreases g.Keys - path, 3, 0
  {
    var o := g[n];
    ToJsonIn(g, n);
    NodeEdgesIn(g, n);
    match ToJson(o)
    case Throwing => Threw
    case _ =>
      var f := ToJson(o).v;
      if f.Fn? then
        match f.call
        case Raises => Done(Walked(Leaf(TOJSON_THREW), false))
        case Returns(w) =>
          var r :- Redact(keys, g, w, room, path);
          Done(Walked(r.tree, false))
      else
        var r :- RedactEdges(keys, g, Edges(o), room - 1, path);
        if !r.same && !o.kind.Array? && Tag(o).Throwing? then Threw
        else Done(Walked(Container(keys, o, r), r.same))
  }

  /** The kids that survive, in edge order. */
  ghost function RedactEdges(keys: set<string>, g: Heap, es: seq<Edge>, room: nat, path: set<Ref>): Outcome<WalkedKids>
    requires Closed(g) && EdgesIn(g, es)
    decreases g.Keys - path, 2, |es|
  {
    if es == [] then Done(WalkedKids([], true))
    else
      var rest :- RedactEdges(keys, g, es[1..], room, path);
      var e := es[0];
      if Erased(keys, e.at) then Done(WalkedKids(rest.kids, false))
      else if e.slot.Throwing? then
        if e.at.Index? then Threw
        else Done(WalkedKids([Kid(e.at, Leaf(UNREADABLE))] + rest.kids, false))
      else
        var r :- Redact(keys, g, e.slot.v, room, path);
        Done(WalkedKids([Kid(e.at, r.tree)] + rest.kids, r.same && rest.same))
  }

  /**
   The container around the surviving kids. An unchanged one is the original object. A
   rebuilt Error keeps its prototype and its hidden properties and loses an own `toJSON`, but
   is no Error any more to what looks inside; a rebuilt plain object keeps its kids only.
   */
  ghost function Container(keys: set<string>, o: Object, r: WalkedKids): Tree {
    if r.same then Node(ShapeOf(o.kind), o.proto, r.kids, HiddenOf(o), false)
    else if o.kind.Array? then Node(Items, ARRAY_PROTO, r.kids, [], false)
    else if IsError(o) then
      Node(Record, o.proto, DropToJson(r.kids), KeepHidden(keys, HiddenOf(o)), Live(o.proto.toJson))
    else Node(Record, OBJECT_PROTO, r.kids, [], RendersFunction(r.kids))
  }

  /** Hidden properties are carried across unless erased, or an own `toJSON`. */
  function KeepHidden(keys: set<string>, hidden: seq<Prop>): seq<Prop> {
    if hidden == [] then [] else Keep(keys, hidden[0]) + KeepHidden(keys, hidden[1..])
  }

  function Keep(keys: set<string>, p: Prop): seq<Prop> {
    if p.key.Name? && (IsErased(keys, p.key.name) || p.key.name == TO_JSON) then []
    else [p.(slot := if p.slot.Throwing? then Data(UNREADABLE) else p.slot)]
  }

  function DropToJson(kids: seq<Kid>): seq<Kid> {
    if kids == [] then []
    else (if kids[0].at == Field(TO_JSON) then [] else [kids[0]]) + DropToJson(kids[1..])
  }

  /** Whether the kid under `toJSON`, if there is one, came out as a function. */
  predicate RendersFunction(kids: seq<Kid>) {
    exists k :: k in kids && k.at == Field(TO_JSON) && k.tree.Leaf? && k.tree.v.Fn?
  }

  // ---- What the surviving tree is free of ----

  /** No secret or `__proto__` key, no unread level, no throwing slot, no URL with its query. */
  ghost predicate Clean(keys: set<string>, t: Tree) {
    match t
    case Leaf(_) => true
    case Opaque(_) => true
    case Node(_, _, kids, _, _) => forall i :: 0 <= i < |kids| ==> !Erased(keys, kids[i].at) && Clean(keys, kids[i].tree)
    case _ => false
  }

  ghost predicate CleanKids(keys: set<string>, kids: seq<Kid>) {
    forall i :: 0 <= i < |kids| ==> !Erased(keys, kids[i].at) && Clean(keys, kids[i].tree)
  }

  lemma {:induction false} DropToJsonClean(keys: set<string>, kids: seq<Kid>)
    requires CleanKids(keys, kids)
    ensures CleanKids(keys, DropToJson(kids))
  {
    if kids != [] {
      DropToJsonClean(keys, kids[1..]);
    }
  }

  /** Every tree the policy lets through is clean, whatever the graph looks like. */
  lemma {:induction false} RedactedIsClean(keys: set<string>, g: Heap, v: Value, room: nat, path: set<Ref>)
    requires Closed(g) && ValueIn(g, v)
    ensures Redact(keys, g, v, room, path).Done? ==> Clean(keys, Redact(keys, g, v, room, path).value.tree)
    decreases g.Keys - path, 1, 0
  {
    if v.Obj? && v.ref !in path && room > 0 && !g[v.ref].kind.Scalar? && !g[v.ref].kind.Url? {
      var o, onPath := g[v.ref], path + {v.ref};
      ToJsonIn(g, v.ref);
      NodeEdgesIn(g, v.ref);
      assert Redact(keys, g, v, room, path) == RedactNode(keys, g, v.ref, room, onPath);
      if !ToJson(o).Throwing? {
        var f := ToJson(o).v;
        if !f.Fn? {
          RedactedKidsAreClean(keys, g, Edges(o), room - 1, onPath);
          var r := RedactEdges(keys, g, Edges(o), room - 1, onPath);
          if r.Done? {
            DropToJsonClean(keys, r.value.kids);
          }
        } else if f.call.Returns? {
          RedactedIsClean(keys, g, f.call.result, room, onPath);
        }
      }
    }
  }

  lemma {:induction false} RedactedKidsAreClean(keys: set<string>, g: Heap, es: seq<Edge>, room: nat, path: set<Ref>)
    requires Closed(g) && EdgesIn(g, es)
    ensures RedactEdges(keys, g, es, room, path).Done? ==> CleanKids(keys, RedactEdges(keys, g, es, room, path).value.kids)
    decreases g.Keys - path, 2, |es|
  {
    if es != [] {
      RedactedKidsAreClean(keys, g, es[1..], room, path);
      if !es[0].slot.Throwing? {
        RedactedIsClean(keys, g, es[0].slot.v, room, path);
      }
    }
  }

  // ---- Identity ----

  /** A value handed on under its own identity reads back as exactly the redacted tree. */
  lemma {:induction false} SameIsUnfolded(keys: set<string>, g: Heap, v: Value, room: nat, path: set<Ref>)
    requires Closed(g) && ValueIn(g, v)
    ensures var r := Redact(keys, g, v, room, path);
            r.Done? && r.value.same ==> r.value.tree == Unfold(g, v, room)
    decreases g.Keys - path, 1, 0
  {
    if v.Obj? && v.ref !in path && room > 0 && !g[v.ref].kind.Scalar? && !g[v.ref].kind.Url? {
      var o, onPath := g[v.ref], path + {v.ref};
      NodeEdgesIn(g, v.ref);
      SameEdgesAreUnfolded(keys, g, Edges(o), room - 1, onPath);
    }
  }

  lemma {:induction false} SameEdgesAreUnfolded(keys: set<string>, g: Heap, es: seq<Edge>, room: nat, path: set<Ref>)
    requires Closed(g) && EdgesIn(g, es)
    ensures var r := RedactEdges(keys, g, es, room, path);
            r.Done? && r.value.same ==> r.value.kids == UnfoldEdges(g, es, room)
    decreases g.Keys - path, 2, |es|
  {
    if es != [] {
      SameEdgesAreUnfolded(keys, g, es[1..], room, path);
      if !es[0].slot.Throwing? {
        SameIsUnfolded(keys, g, es[0].slot.v, room, path);
      }
    }
  }
}
