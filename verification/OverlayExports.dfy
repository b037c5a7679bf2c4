/**
 The overlay primitives a module publishes itself, and under which names.
 */
module OverlayExports {
  import opened Outcomes
  import opened OverlaySyntax

  // ---- What a module publishes itself ----

  /** The locals a statement declares with overlay markup inside. */
  ghost predicate BuildsLocal(s: Statement, local: string) {
    match s
    case Function(declared, _, isDefault, node) => LocalOf(declared, isDefault) == Some(local) && HasBuilder(node)
    case Variables(_, decls) =>
      exists i :: 0 <= i < |decls| && decls[i].name == Some(local) && decls[i].init.Some? && HasBuilder(decls[i].init.value)
    case ExportExpression(node) => local == DEFAULT && HasBuilder(node)
    case _ => false
  }

  /** An anonymous default function is known by the only name it is reachable under. */
  function LocalOf(declared: Option<string>, isDefault: bool): Option<string> {
    if declared.Some? then declared else if isDefault then Some(DEFAULT) else None
  }

  /** The names a statement publishes a local under. */
  ghost predicate PublishesAs(s: Statement, local: string, name: string) {
    match s
    case Function(declared, exported, isDefault, _) =>
      exported && LocalOf(declared, isDefault) == Some(local) && name == (if isDefault then DEFAULT else local)
    case Variables(exported, decls) =>
      exported && name == local && exists i :: 0 <= i < |decls| && decls[i].name == Some(local) && decls[i].init.Some?
    case ExportName(l) => local == l && name == DEFAULT
    case ExportExpression(node) => HasBuilder(node) && local == DEFAULT && name == DEFAULT
    case ExportList(elements) =>
      exists i :: 0 <= i < |elements| && Specifies(elements[i], local, name)
    case _ => false
  }

  ghost predicate Built(stmts: seq<Statement>, local: string) {
    exists i :: 0 <= i < |stmts| && BuildsLocal(stmts[i], local)
  }

  ghost predicate Publishes(stmts: seq<Statement>, local: string, name: string) {
    exists i :: 0 <= i < |stmts| && PublishesAs(stmts[i], local, name)
  }

  /** Some overlay-building local is published under the name. */
  ghost predicate PublishedPrimitive(stmts: seq<Statement>, name: string) {
    exists local :: Built(stmts, local) && Publishes(stmts, local, name)
  }

  /** Local names to the names they are published under. */
  type Publications = map<string, set<string>>

  function Publish(m: Publications, local: string, name: string): (m': Publications)
    ensures forall l, e :: Listed(m', l, e) <==> Listed(m, l, e) || (l == local && e == name)
  {
    m[local := (if local in m then m[local] else {}) + {name}]
  }

  predicate Listed(m: Publications, local: string, name: string) {
    local in m && name in m[local]
  }

  /** `overlayPrimitiveExports` of a parsed file. */
  method OverlayPrimitiveExports(stmts: seq<Statement>) returns (published: set<string>)
    ensures forall name :: name in published <==> PublishedPrimitive(stmts, name)
  {
    var portalLocals: set<string> := {};
    var publishedAs: Publications := map[];
    var i := 0;
    while i < |stmts|
      invariant 0 <= i <= |stmts|
      invariant forall l :: l in portalLocals <==> Built(stmts[..i], l)
      invariant forall l, e :: Listed(publishedAs, l, e) <==> Publishes(stmts[..i], l, e)
    {
      ghost var locals0, published0 := portalLocals, publishedAs;
      portalLocals, publishedAs := Declare(stmts[i], portalLocals, publishedAs);
      assert stmts[..i + 1] == stmts[..i] + [stmts[i]];
      forall l ensures Built(stmts[..i + 1], l) <==> Built(stmts[..i], l) || BuildsLocal(stmts[i], l) {
        if Built(stmts[..i], l) {
          var j :| 0 <= j < |stmts[..i]| && BuildsLocal(stmts[..i][j], l);
          assert stmts[..i + 1][j] == stmts[..i][j];
        }
        assert stmts[..i + 1][i] == stmts[i];
      }
      forall l, e ensures Publishes(stmts[..i + 1], l, e) <==> Publishes(stmts[..i], l, e) || PublishesAs(stmts[i], l, e) {
        if Publishes(stmts[..i], l, e) {
          var j :| 0 <= j < |stmts[..i]| && PublishesAs(stmts[..i][j], l, e);
          assert stmts[..i + 1][j] == stmts[..i][j];
        }
        assert stmts[..i + 1][i] == stmts[i];
      }
      i := i + 1;
    }
    assert stmts[..|stmts|] == stmts;

    published := {};
    var rest := portalLocals;
    while rest != {}
      invariant rest <= portalLocals
      invariant forall e :: e in published <==> exists l :: l in portalLocals - rest && Listed(publishedAs, l, e)
      decreases rest
    {
      var local :| local in rest;
      ghost var before := published;
      if local in publishedAs {
        published := published + publishedAs[local];
      }
      forall e ensures e in published <==> exists l :: l in portalLocals - (rest - {local}) && Listed(publishedAs, l, e) {
        if e in before {
          var l :| l in portalLocals - rest && Listed(publishedAs, l, e);
          assert l in portalLocals - (rest - {local});
        } else if Listed(publishedAs, local, e) {
          assert local in portalLocals - (rest - {local});
        }
      }
      rest := rest - {local};
    }
    forall name ensures name in published <==> PublishedPrimitive(stmts, name) {
      if name in published {
        var l :| l in portalLocals && Listed(publishedAs, l, name);
      }
      if l :| Built(stmts, l) && Publishes(stmts, l, name) {
        assert l in portalLocals - {} && Listed(publishedAs, l, name);
      }
    }
  }

  /** What one statement adds. */
  method Declare(s: Statement, locals: set<string>, publications: Publications)
    returns (portalLocals: set<string>, publishedAs: Publications)
    ensures forall l :: l in portalLocals <==> l in locals || BuildsLocal(s, l)
    ensures forall l, e :: Listed(publishedAs, l, e) <==> Listed(publications, l, e) || PublishesAs(s, l, e)
  {
    portalLocals, publishedAs := locals, publications;
    match s {
      case Function(declared, exported, isDefault, node) =>
        var local := LocalOf(declared, isDefault);
        if local.None? {
          return;
        }
        var builds := BuildsOverlay(node);
        if builds {
          portalLocals := portalLocals + {local.value};
        }
        if exported {
          publishedAs := Publish(publishedAs, local.value, if isDefault then DEFAULT else local.value);
        }
      case Variables(exported, decls) =>
        var i := 0;
        while i < |decls|
          invariant 0 <= i <= |decls|
          invariant forall l :: l in portalLocals <==>
                      (l in locals ||
                       exists j :: 0 <= j < i && decls[j].name == Some(l) && decls[j].init.Some? && HasBuilder(decls[j].init.value))
          invariant forall l, e :: Listed(publishedAs, l, e) <==>
                      (Listed(publications, l, e) ||
                       (exported && e == l && exists j :: 0 <= j < i && decls[j].name == Some(l) && decls[j].init.Some?))
        {
          if decls[i].name.Some? && decls[i].init.Some? {
            var builds := BuildsOverlay(decls[i].init.value);
            if builds {
              portalLocals := portalLocals + {decls[i].name.value};
            }
            if exported {
              publishedAs := Publish(publishedAs, decls[i].name.value, decls[i].name.value);
            }
          }
          i := i + 1;
        }
      case ExportName(local) =>
        publishedAs := Publish(publishedAs, local, DEFAULT);
      case ExportExpression(node) =>
        var builds := BuildsOverlay(node);
        if builds {
          portalLocals := portalLocals + {DEFAULT};
          publishedAs := Publish(publishedAs, DEFAULT, DEFAULT);
        }
      case ExportList(elements) =>
        var i := 0;
        while i < |elements|
          invariant 0 <= i <= |elements|
          invariant forall l, e :: Listed(publishedAs, l, e) <==>
                      (Listed(publications, l, e) ||
                       exists j :: 0 <= j < i && !elements[j].typeOnly && l == elements[j].Source() && e == elements[j].name)
        {
          if !elements[i].typeOnly {
            publishedAs := Publish(publishedAs, elements[i].Source(), elements[i].name);
          }
          i := i + 1;
        }
      case _ =>
    }
  }

  // ---- Form by form ----

  /** A constant of that name with that initializer. */
  predicate DeclaresAs(s: Statement, local: string, node: Node) {
    s.Variables? && exists j :: 0 <= j < |s.decls| && s.decls[j].name == Some(local) && s.decls[j].init == Some(node)
  }

  /** An exported declaration with overlay markup is published as it says. */
  lemma DeclarationsPublish(stmts: seq<Statement>, i: nat, node: Node, local: string)
    requires i < |stmts| && HasBuilder(node)
    ensures stmts[i] == Function(Some(local), true, false, node) ==> PublishedPrimitive(stmts, local)
    ensures stmts[i].Function? && stmts[i].exported && stmts[i].isDefault && stmts[i].node == node ==>
              PublishedPrimitive(stmts, "default")
    ensures stmts[i] == ExportExpression(node) ==> PublishedPrimitive(stmts, "default")
    ensures stmts[i].Variables? && stmts[i].exported && DeclaresAs(stmts[i], local, node) ==> PublishedPrimitive(stmts, local)
  {
    var s := stmts[i];
    if s.Function? && s.exported && s.node == node && (s.declared.Some? || s.isDefault) {
      var l := if s.declared.Some? then s.declared.value else "default";
      BuiltAndPublished(stmts, i, i, l, if s.isDefault then "default" else l);
    } else if s == ExportExpression(node) {
      BuiltAndPublished(stmts, i, i, "default", "default");
    } else if s.Variables? && s.exported {
      if j :| 0 <= j < |s.decls| && s.decls[j].name == Some(local) && s.decls[j].init == Some(node) {
        BuiltAndPublished(stmts, i, i, local, local);
      }
    }
  }

  /** So is one that a statement elsewhere names, exported itself or not. */
  lemma NamingPublishes(stmts: seq<Statement>, k: nat, i: nat, node: Node, local: string, name: string)
    requires k < |stmts| && i < |stmts| && HasBuilder(node)
    requires (stmts[k].Function? && stmts[k].declared == Some(local) && stmts[k].node == node) || DeclaresAs(stmts[k], local, node)
    ensures stmts[i] == ExportName(local) ==> PublishedPrimitive(stmts, "default")
    ensures stmts[i].ExportList? && (exists j :: 0 <= j < |stmts[i].elements| && Specifies(stmts[i].elements[j], local, name)) ==>
              PublishedPrimitive(stmts, name)
  {
    assert BuildsLocal(stmts[k], local);
    if stmts[i] == ExportName(local) {
      BuiltAndPublished(stmts, k, i, local, "default");
    } else if stmts[i].ExportList? {
      if j :| 0 <= j < |stmts[i].elements| && Specifies(stmts[i].elements[j], local, name) {
        BuiltAndPublished(stmts, k, i, local, name);
      }
    }
  }

  lemma BuiltAndPublished(stmts: seq<Statement>, k: nat, i: nat, local: string, name: string)
    requires k < |stmts| && i < |stmts| && BuildsLocal(stmts[k], local) && PublishesAs(stmts[i], local, name)
    ensures PublishedPrimitive(stmts, name)
  {
    assert Built(stmts, local) && Publishes(stmts, local, name);
  }

  /** The statement exports something under the name, and not a type. */
  predicate Exports(s: Statement, name: string) {
    match s
    case Function(declared, exported, isDefault, _) => exported && if isDefault then name == "default" else declared == Some(name)
    case Variables(exported, decls) => exported && exists j :: 0 <= j < |decls| && decls[j].name == Some(name)
    case ExportName(_) => name == "default"
    case ExportExpression(_) => name == "default"
    case ExportList(elements) => exists j :: 0 <= j < |elements| && !elements[j].typeOnly && elements[j].name == name
    case _ => false
  }

  /** Nothing is published that no statement exports. */
  lemma OnlyExportsPublish(stmts: seq<Statement>, name: string)
    requires PublishedPrimitive(stmts, name)
    ensures exists i :: 0 <= i < |stmts| && Exports(stmts[i], name)
  {
    var local :| Built(stmts, local) && Publishes(stmts, local, name);
    var i :| 0 <= i < |stmts| && PublishesAs(stmts[i], local, name);
    if stmts[i].ExportList? {
      var j :| 0 <= j < |stmts[i].elements| && Specifies(stmts[i].elements[j], local, name);
    } else if stmts[i].Variables? {
      var j :| 0 <= j < |stmts[i].decls| && stmts[i].decls[j].name == Some(local) && stmts[i].decls[j].init.Some?;
    }
    assert Exports(stmts[i], name);
  }

  /** Only which statements a module has matters, not their order or repetition. */
  lemma OrderDoesNotMatter(stmts: seq<Statement>, others: seq<Statement>, name: string)
    requires forall s :: s in stmts <==> s in others
    ensures PublishedPrimitive(stmts, name) <==> PublishedPrimitive(others, name)
  {
    if PublishedPrimitive(stmts, name) {
      PublishedByAnyOrder(stmts, others, name);
    }
    if PublishedPrimitive(others, name) {
      PublishedByAnyOrder(others, stmts, name);
    }
  }

  lemma PublishedByAnyOrder(stmts: seq<Statement>, others: seq<Statement>, name: string)
    requires forall s :: s in stmts ==> s in others
    requires PublishedPrimitive(stmts, name)
    ensures PublishedPrimitive(others, name)
  {
    var local :| Built(stmts, local) && Publishes(stmts, local, name);
    var i :| 0 <= i < |stmts| && BuildsLocal(stmts[i], local);
    var j :| 0 <= j < |stmts| && PublishesAs(stmts[j], local, name);
    assert stmts[i] in others && stmts[j] in others;
    assert Built(others, local) && Publishes(others, local, name);
  }

  /** A module that publishes a primitive holds overlay markup. */
  lemma PublishingMeansBuilding(stmts: seq<Statement>, name: string)
    requires PublishedPrimitive(stmts, name)
    ensures HasBuilder(Root(stmts))
  {
    var local :| Built(stmts, local) && Publishes(stmts, local, name);
    var i :| 0 <= i < |stmts| && BuildsLocal(stmts[i], local);
    BuildingStatement(stmts[i], local);
    BuilderBelow(Root(stmts), i);
  }

  lemma BuilderBelow(n: Node, i: nat)
    requires i < |n.children| && HasBuilder(n.children[i])
    ensures HasBuilder(n)
  {
    var pos :| BuilderAt(n.children[i], pos);
    assert ([i] + pos)[1..] == pos;
    assert BuilderAt(n, [i] + pos);
  }

  lemma BuildingStatement(s: Statement, local: string)
    requires BuildsLocal(s, local)
    ensures HasBuilder(NodeOf(s))
  {
    match s
    case Variables(_, decls) =>
      var i :| 0 <= i < |decls| && decls[i].name == Some(local) && decls[i].init.Some? && HasBuilder(decls[i].init.value);
      var k := InitializerAt(decls, i);
      BuilderBelow(NodeOf(s), k);
    case ExportExpression(node) => BuilderBelow(NodeOf(s), 0);
    case _ =>
  }

  lemma {:induction false} InitializerAt(decls: seq<Decl>, i: nat) returns (k: nat)
    requires i < |decls| && decls[i].init.Some?
    ensures k < |Initializers(decls)| && Initializers(decls)[k] == decls[i].init.value
  {
    if i == 0 {
      k := 0;
    } else {
      k := InitializerAt(decls[1..], i - 1);
      if decls[0].init.Some? {
        k := k + 1;
      }
    }
  }
}
