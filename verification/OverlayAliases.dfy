/**
 The local names a file picks for its imports: what discovery finds depends on them only through
 the text of callees, attributes and initializers, and exactly how.
 */
module OverlayAliases {
  import opened Outcomes
  import opened OverlaySyntax
  import opened OverlayExports
  import opened OverlayResolver
  import opened OverlayVisit
  import opened OverlayDiscovery

  ghost predicate Injective(rename: string -> string) {
    forall x, y :: rename(x) == rename(y) ==> x == y
  }

  function RenameTag(rename: string -> string, tag: seq<string>): seq<string> {
    if tag == [] then [] else [rename(tag[0])] + tag[1..]
  }

  function RenameCode(rename: string -> string, code: Code): (renamed: Code)
    ensures |renamed| == |code|
    ensures forall i :: 0 <= i < |code| ==> renamed[i] == if code[i].Ident? then Ident(rename(code[i].name)) else code[i]
  {
    seq(|code|, i requires 0 <= i < |code| => if code[i].Ident? then Ident(rename(code[i].name)) else code[i])
  }

  function RenameAttribute(rename: string -> string, attribute: Option<Code>): Option<Code> {
    if attribute.Some? then Some(RenameCode(rename, attribute.value)) else None
  }

  function RenameForm(rename: string -> string, f: Form): Form {
    match f
    case Call(bound, callee) => if bound then Call(true, RenameTag(rename, callee)) else f
    case Element(tag, modal, role, className) =>
      Element(RenameTag(rename, tag), RenameAttribute(rename, modal), RenameAttribute(rename, role), RenameAttribute(rename, className))
    case _ => f
  }

  /** The tree with the head of every tag and every callee renamed, and every identifier in an attribute. */
  function RenameNode(rename: string -> string, n: Node): Node
    decreases n
  {
    Node(RenameForm(rename, n.form), RenameNodes(rename, n.children))
  }

  function RenameNodes(rename: string -> string, ns: seq<Node>): seq<Node>
    decreases ns
  {
    if ns == [] then [] else [RenameNode(rename, ns[0])] + RenameNodes(rename, ns[1..])
  }

  function RenameElements(rename: string -> string, elements: seq<Spec>): (renamed: seq<Spec>)
    ensures |renamed| == |elements|
    ensures forall i :: 0 <= i < |elements| ==>
              renamed[i] == Spec(Some(elements[i].Source()), rename(elements[i].name), elements[i].typeOnly)
  {
    seq(|elements|, i requires 0 <= i < |elements| =>
      Spec(Some(elements[i].Source()), rename(elements[i].name), elements[i].typeOnly))
  }

  function RenameDecls(rename: string -> string, decls: seq<Decl>): (renamed: seq<Decl>)
    ensures |renamed| == |decls|
    decreases |decls|
  {
    if decls == [] then [] else [RenameDecl(rename, decls[0])] + RenameDecls(rename, decls[1..])
  }

  function RenameDecl(rename: string -> string, decl: Decl): Decl {
    Decl(decl.name, if decl.init.Some? then Some(RenameNode(rename, decl.init.value)) else None, RenameCode(rename, decl.text))
  }

  /** An import binds the same things under other local names; what is rendered uses those. */
  function RenameStatement(rename: string -> string, s: Statement): Statement {
    match s
    case Import(typeOnly, specifier, defaultName, bindings) =>
      Import(typeOnly, specifier,
             if defaultName.Some? then Some(rename(defaultName.value)) else None,
             match bindings
             case NoBindings => NoBindings
             case NamedImports(elements) => NamedImports(RenameElements(rename, elements))
             case NamespaceImport(name) => NamespaceImport(rename(name)))
    case Function(declared, exported, isDefault, node) => Function(declared, exported, isDefault, RenameNode(rename, node))
    case Variables(exported, decls) => Variables(exported, RenameDecls(rename, decls))
    case ExportExpression(node) => ExportExpression(RenameNode(rename, node))
    case OtherStatement(node) => OtherStatement(RenameNode(rename, node))
    case _ => s
  }

  /** A file with the local names of its imports renamed, in the imports and wherever they are used. */
  function RenameFile(rename: string -> string, stmts: seq<Statement>): (renamed: seq<Statement>)
    ensures |renamed| == |stmts|
    ensures forall i :: 0 <= i < |stmts| ==> renamed[i] == RenameStatement(rename, stmts[i])
    decreases |stmts|
  {
    if stmts == [] then [] else [RenameStatement(rename, stmts[0])] + RenameFile(rename, stmts[1..])
  }

  lemma {:induction false} RenameNodesAt(rename: string -> string, ns: seq<Node>)
    ensures |RenameNodes(rename, ns)| == |ns|
    ensures forall i :: 0 <= i < |ns| ==> RenameNodes(rename, ns)[i] == RenameNode(rename, ns[i])
    decreases |ns|
  {
    if ns != [] {
      RenameNodesAt(rename, ns[1..]);
    }
  }

  lemma {:induction false} InitializersRenamed(rename: string -> string, decls: seq<Decl>)
    ensures Initializers(RenameDecls(rename, decls)) == RenameNodes(rename, Initializers(decls))
    decreases |decls|
  {
    if decls != [] {
      var renamed, rest := RenameDecls(rename, decls), Initializers(decls[1..]);
      InitializersRenamed(rename, decls[1..]);
      assert renamed[1..] == RenameDecls(rename, decls[1..]);
      if decls[0].init.Some? {
        assert Initializers(decls)[1..] == rest;
      } else {
        assert Initializers(decls) == rest && Initializers(renamed) == Initializers(renamed[1..]);
      }
    }
  }

  lemma NodeRenamed(rename: string -> string, s: Statement)
    ensures NodeOf(RenameStatement(rename, s)) == RenameNode(rename, NodeOf(s))
  {
    match s
    case Variables(_, decls) => InitializersRenamed(rename, decls);
    case ExportExpression(node) =>
      assert [node][1..] == [];
      assert RenameNodes(rename, [node]) == [RenameNode(rename, node)] + RenameNodes(rename, []);
    case _ =>
  }

  lemma RootRenamed(rename: string -> string, stmts: seq<Statement>)
    ensures Root(RenameFile(rename, stmts)) == RenameNode(rename, Root(stmts))
  {
    var ns, ns' := Root(stmts).children, Root(RenameFile(rename, stmts)).children;
    RenameNodesAt(rename, ns);
    forall i | 0 <= i < |ns| ensures ns'[i] == RenameNodes(rename, ns)[i] {
      NodeRenamed(rename, stmts[i]);
    }
    assert ns' == RenameNodes(rename, ns);
  }

  /** `b'` binds the renamed names to what `b` binds the names to. */
  ghost predicate RenamedBindings(rename: string -> string, b: Bindings, b': Bindings) {
    && (forall x :: x in b.components <==> rename(x) in b'.components)
    && (forall x :: x in b.namespaces <==> rename(x) in b'.namespaces)
    && (forall x :: x in b.namespaces ==> b.namespaces[x] == b'.namespaces[rename(x)])
  }

  ghost predicate RenamedSet(rename: string -> string, xs: set<string>, xs': set<string>) {
    forall x :: x in xs <==> rename(x) in xs'
  }

  lemma SingletonRenamed(rename: string -> string, name: string)
    requires Injective(rename)
    ensures RenamedSet(rename, {name}, {rename(name)})
  {
  }

  lemma ImportedLocalsRenamed(rename: string -> string, elements: seq<Spec>, reachable: Exports)
    requires Injective(rename)
    ensures RenamedSet(rename, ImportedLocals(elements, reachable), ImportedLocals(RenameElements(rename, elements), reachable))
  {
    var es, es' := elements, RenameElements(rename, elements);
    forall x ensures x in ImportedLocals(es, reachable) <==> rename(x) in ImportedLocals(es', reachable) {
      if x in ImportedLocals(es, reachable) {
        var i :| 0 <= i < |es| && !es[i].typeOnly && es[i].Source() in reachable && es[i].name == x;
        assert es'[i].Source() == es[i].Source();
      }
      if rename(x) in ImportedLocals(es', reachable) {
        var i :| 0 <= i < |es'| && !es'[i].typeOnly && es'[i].Source() in reachable && es'[i].name == rename(x);
        assert es'[i].Source() == es[i].Source() && es[i].name == x;
      }
    }
  }

  lemma AddComponents(rename: string -> string, b: Bindings, b': Bindings, xs: set<string>, xs': set<string>)
    requires RenamedBindings(rename, b, b') && RenamedSet(rename, xs, xs')
    ensures RenamedBindings(rename, b.(components := b.components + xs), b'.(components := b'.components + xs'))
  {
  }

  lemma AddNamespace(rename: string -> string, b: Bindings, b': Bindings, name: string, members: set<string>)
    requires Injective(rename) && RenamedBindings(rename, b, b')
    ensures RenamedBindings(rename, b.(namespaces := b.namespaces[name := members]),
                            b'.(namespaces := b'.namespaces[rename(name) := members]))
  {
    var c, c' := b.namespaces[name := members], b'.namespaces[rename(name) := members];
    forall x
      ensures x in c <==> rename(x) in c'
      ensures x in c ==> c[x] == c'[rename(x)]
    {
      if x != name {
        assert rename(x) != rename(name);
      }
    }
  }

  lemma BindRenamed(rename: string -> string, b: Bindings, b': Bindings, s: Statement, reachable: Exports)
    requires Injective(rename) && RenamedBindings(rename, b, b') && s.Import?
    ensures RenamedBindings(rename, Bind(b, s, reachable), Bind(b', RenameStatement(rename, s), reachable))
  {
    hide Injective, ImportedLocals, RenamedBindings, RenamedSet;
    if reachable != map[] {
      var x, x' := b, b';
      if s.defaultName.Some? && DEFAULT in reachable {
        var name := s.defaultName.value;
        SingletonRenamed(rename, name);
        AddComponents(rename, b, b', {name}, {rename(name)});
        x, x' := b.(components := b.components + {name}), b'.(components := b'.components + {rename(name)});
      } else {
        assert b.components + {} == b.components && b'.components + {} == b'.components;
      }
      match s.bindings
      case NoBindings =>
      case NamedImports(es) =>
        ImportedLocalsRenamed(rename, es, reachable);
        AddComponents(rename, x, x', ImportedLocals(es, reachable), ImportedLocals(RenameElements(rename, es), reachable));
      case NamespaceImport(name) =>
        AddNamespace(rename, x, x', name, reachable.Keys);
    }
  }

  lemma TargetRenamed(d: Detection, rename: string -> string, s: Statement)
    ensures ImportTarget(d, RenameStatement(rename, s)) == ImportTarget(d, s)
    ensures ImportTarget(d, s).Some? ==> s.Import? && RenameStatement(rename, s).Import?
  {
  }

  lemma {:induction false} BindingsRenamed(
    d: Detection, rename: string -> string, stmts: seq<Statement>, b: Bindings, b': Bindings, cache: Cache)
    requires Injective(rename) && RenamedBindings(rename, b, b')
    ensures RenamedBindings(rename, BindMemoised(d, stmts, b, cache), BindMemoised(d, RenameFile(rename, stmts), b', cache))
    decreases |stmts|
  {
    hide RenameStatement, Injective, RenamedBindings, Resolve, Bind, ImportTarget, Memo;
    if stmts != [] {
      var s := stmts[0];
      TargetRenamed(d, rename, s);
      assert RenameFile(rename, stmts)[0] == RenameStatement(rename, s);
      assert RenameFile(rename, stmts)[1..] == RenameFile(rename, stmts[1..]);
      match ImportTarget(d, s)
      case None => BindingsRenamed(d, rename, stmts[1..], b, b', cache);
      case Some(to) =>
        var m := Memo(d, to, cache, {});
        BindRenamed(rename, b, b', s, m.exports);
        BindingsRenamed(d, rename, stmts[1..], Bind(b, s, m.exports), Bind(b', RenameStatement(rename, s), m.exports), m.cache);
    }
  }

  /** The same places, in the same order. */
  ghost predicate SamePlaces(some: seq<Site>, others: seq<Site>) {
    |some| == |others| && forall i :: 0 <= i < |some| ==> some[i].at == others[i].at
  }

  /** What makes a node an overlay but the name of its tag: a portal call, modal markup, or a popover's class. */
  predicate Paints(regexes: Regexes, popovers: set<string>, f: Form) {
    Builds(f) || (f.Element? && Painted(regexes, popovers, f.className))
  }

  /** Renaming leaves it at that, unless the tag is a primitive's anyway; `popovers'` are the constants afterwards. */
  predicate MarkupStays(rename: string -> string, ctx: Context, popovers': set<string>, f: Form) {
    || (f.Element? && IsPrimitive(ctx.bindings, f.tag))
    || (Paints(ctx.regexes, ctx.popovers, f) <==> Paints(ctx.regexes, popovers', RenameForm(rename, f)))
  }

  /** That holds of every node the visit comes to: those with no overlay above them. */
  predicate AllMarkupStays(rename: string -> string, ctx: Context, popovers': set<string>, n: Node)
    decreases n
  {
    && MarkupStays(rename, ctx, popovers', n.form)
    && (Classify(ctx, n.form).None? ==> MarkupStaysBelow(rename, ctx, popovers', n.children))
  }

  predicate MarkupStaysBelow(rename: string -> string, ctx: Context, popovers': set<string>, ns: seq<Node>)
    decreases ns
  {
    ns == [] || (AllMarkupStays(rename, ctx, popovers', ns[0]) && MarkupStaysBelow(rename, ctx, popovers', ns[1..]))
  }

  ghost predicate RenamedContext(rename: string -> string, ctx: Context, ctx': Context) {
    RenamedBindings(rename, ctx.bindings, ctx'.bindings) && ctx.regexes == ctx'.regexes
  }

  /** Under the renamed bindings, only markup can be told apart: tags mean what they meant. */
  lemma ClassifyRenamed(rename: string -> string, ctx: Context, ctx': Context, f: Form)
    requires Injective(rename) && RenamedContext(rename, ctx, ctx')
    ensures MarkupStays(rename, ctx, ctx'.popovers, f) <==>
            (Classify(ctx, f).Some? <==> Classify(ctx', RenameForm(rename, f)).Some?)
  {
    hide ReadsModal, Painted, RenamedBindings, Injective, IsPrimitive, RenameTag;
    OnlyElementsReadModal(f);
    OnlyElementsReadModal(RenameForm(rename, f));
    match f
    case Call(_, _) =>
    case Element(tag, _, _, _) => TagRenamed(rename, ctx.bindings, ctx'.bindings, tag);
    case Other =>
  }

  lemma OnlyElementsReadModal(f: Form)
    ensures !f.Element? ==> !ReadsModal(f)
  {
  }

  lemma TagRenamed(rename: string -> string, b: Bindings, b': Bindings, tag: seq<string>)
    requires Injective(rename) && RenamedBindings(rename, b, b')
    ensures IsPrimitive(b', RenameTag(rename, tag)) <==> IsPrimitive(b, tag)
  {
  }

  lemma {:induction false} VisitRenamed(rename: string -> string, ctx: Context, ctx': Context, n: Node, at: Pos)
    requires Injective(rename) && RenamedContext(rename, ctx, ctx')
    ensures SamePlaces(Outermost(ctx, n, at), Outermost(ctx', RenameNode(rename, n), at)) <==>
            AllMarkupStays(rename, ctx, ctx'.popovers, n)
    decreases n
  {
    ClassifyRenamed(rename, ctx, ctx', n.form);
    var n' := RenameNode(rename, n);
    if Classify(ctx, n.form).None? && Classify(ctx', n'.form).None? {
      VisitAllRenamed(rename, ctx, ctx', n.children, at, 0);
    } else if Classify(ctx', n'.form).Some? {
      if Classify(ctx, n.form).None? && Outermost(ctx, n, at) != [] {
        SitesAreBelow(ctx, n.children, at, 0, 0);
      }
    } else if Outermost(ctx', n', at) != [] {
      SitesAreBelow(ctx', n'.children, at, 0, 0);
    }
  }

  lemma {:induction false} VisitAllRenamed(rename: string -> string, ctx: Context, ctx': Context, ns: seq<Node>, at: Pos, i: nat)
    requires Injective(rename) && RenamedContext(rename, ctx, ctx')
    ensures SamePlaces(OutermostAll(ctx, ns, at, i), OutermostAll(ctx', RenameNodes(rename, ns), at, i)) <==>
            MarkupStaysBelow(rename, ctx, ctx'.popovers, ns)
    decreases ns
  {
    if ns != [] {
      var ns' := RenameNodes(rename, ns);
      assert ns'[0] == RenameNode(rename, ns[0]) && ns'[1..] == RenameNodes(rename, ns[1..]);
      VisitRenamed(rename, ctx, ctx', ns[0], at + [i]);
      VisitAllRenamed(rename, ctx, ctx', ns[1..], at, i + 1);
      SitesSplit(ctx, ns, at, i);
      SitesSplit(ctx', ns', at, i);
      SamePlacesSplit(Outermost(ctx, ns[0], at + [i]), OutermostAll(ctx, ns[1..], at, i + 1),
                      Outermost(ctx', ns'[0], at + [i]), OutermostAll(ctx', ns'[1..], at, i + 1), |at|, i);
    }
  }

  /** The sites below siblings lie below them. */
  lemma SitesAreBelow(ctx: Context, ns: seq<Node>, at: Pos, i: nat, x: nat)
    requires x < |OutermostAll(ctx, ns, at, i)|
    ensures |OutermostAll(ctx, ns, at, i)[x].at| > |at| && OutermostAll(ctx, ns, at, i)[x].at[|at|] >= i
  {
    ChildSitesAreInOrder(ctx, ns, at, i);
    assert OutermostAll(ctx, ns, at, i)[x] in OutermostAll(ctx, ns, at, i);
  }

  /** Child `i` at this level of the tree. */
  predicate Under(s: Site, level: nat, i: nat) {
    |s.at| > level && s.at[level] == i
  }

  predicate After(s: Site, level: nat, i: nat) {
    |s.at| > level && s.at[level] > i
  }

  ghost predicate AllUnder(sites: seq<Site>, level: nat, i: nat) {
    forall x :: 0 <= x < |sites| ==> Under(sites[x], level, i)
  }

  ghost predicate AllAfter(sites: seq<Site>, level: nat, i: nat) {
    forall x :: 0 <= x < |sites| ==> After(sites[x], level, i)
  }

  lemma SitesSplit(ctx: Context, ns: seq<Node>, at: Pos, i: nat)
    requires ns != []
    ensures AllUnder(Outermost(ctx, ns[0], at + [i]), |at|, i)
    ensures AllAfter(OutermostAll(ctx, ns[1..], at, i + 1), |at|, i)
  {
    var first, rest := Outermost(ctx, ns[0], at + [i]), OutermostAll(ctx, ns[1..], at, i + 1);
    forall x | 0 <= x < |first| ensures Under(first[x], |at|, i) {
      var pos := SiteIsOutermost(ctx, ns[0], at + [i], x);
    }
    forall x | 0 <= x < |rest| ensures After(rest[x], |at|, i) {
      SitesAreBelow(ctx, ns[1..], at, i + 1, x);
    }
  }

  /** Places below different children do not mix. */
  lemma SamePlacesSplit(a: seq<Site>, b: seq<Site>, a': seq<Site>, b': seq<Site>, level: nat, i: nat)
    requires AllUnder(a, level, i) && AllUnder(a', level, i) && AllAfter(b, level, i) && AllAfter(b', level, i)
    ensures SamePlaces(a + b, a' + b') <==> SamePlaces(a, a') && SamePlaces(b, b')
  {
    assert |b| > 0 ==> (a + b)[|a|] == b[0];
    assert |b'| > 0 ==> (a' + b')[|a'|] == b'[0];
    assert |a| < |a'| ==> (a' + b')[|a|] == a'[|a|];
    assert |a'| < |a| ==> (a + b)[|a'|] == a[|a'|];
    if SamePlaces(a + b, a' + b') {
      forall x | 0 <= x < |a| ensures a[x].at == a'[x].at {
        assert (a + b)[x] == a[x] && (a' + b')[x] == a'[x];
      }
      forall x | 0 <= x < |b| ensures b[x].at == b'[x].at {
        assert (a + b)[|a| + x] == b[x] && (a' + b')[|a| + x] == b'[x];
      }
    }
  }

  /** The context of the visit of a file. */
  ghost function ContextOf(d: Detection, stmts: seq<Statement>): Context {
    Context(d.regexes, BindMemoised(d, stmts, NOTHING, map[]), PopoverConstants(d.regexes, stmts))
  }

  /**
   Renaming the local names of a file's imports, consistently in the imports and wherever they are
   used and without identifying two names, leaves the number and the places of its sites unchanged
   exactly when it leaves at that what is painted by every node the visit comes to.
   */
  lemma AliasesMatterOnlyInMarkup(d: Detection, rename: string -> string, stmts: seq<Statement>)
    requires Injective(rename)
    ensures SamePlaces(SitesOf(d, stmts), SitesOf(d, RenameFile(rename, stmts))) <==>
            AllMarkupStays(rename, ContextOf(d, stmts), PopoverConstants(d.regexes, RenameFile(rename, stmts)), Root(stmts))
  {
    BindingsRenamed(d, rename, stmts, NOTHING, NOTHING, map[]);
    RootRenamed(rename, stmts);
    VisitRenamed(rename, ContextOf(d, stmts), ContextOf(d, RenameFile(rename, stmts)), Root(stmts), []);
  }

  // What the condition comes to, test by test.

  /** Whether the node is a portal call is the same after the renaming. */
  predicate PortalStays(rename: string -> string, f: Form) {
    IsPortal(f) <==> IsPortal(RenameForm(rename, f))
  }

  /** A callee of one name is `createPortal` exactly when its renamed name is; longer ones never change. */
  lemma PortalStaysByName(rename: string -> string, f: Form)
    ensures PortalStays(rename, f) <==>
            (f.Call? && f.bound && |f.callee| == 1 ==> (f.callee[0] == CREATE_PORTAL <==> rename(f.callee[0]) == CREATE_PORTAL))
  {
  }

  /** Names are renamed to names. */
  ghost predicate ToWords(rename: string -> string) {
    forall x :: IsWord(x) ==> IsWord(rename(x))
  }

  lemma RenamedIsLexed(rename: string -> string, code: Code)
    requires ToWords(rename) && Lexed(code)
    ensures Lexed(RenameCode(rename, code))
  {
    var renamed := RenameCode(rename, code);
    forall i | 0 <= i < |renamed| - 1 ensures Parted(Spelling(renamed[i]), Spelling(renamed[i + 1])) {
      StillParted(rename, code[i], code[i + 1]);
      assert Parted(Spelling(code[i]), Spelling(code[i + 1]));
    }
  }

  function RenameToken(rename: string -> string, t: Token): Token {
    if t.Ident? then Ident(rename(t.name)) else t
  }

  /** Only what is between names shows that a word is over. */
  lemma StillParted(rename: string -> string, t: Token, u: Token)
    requires ToWords(rename) && (t.Ident? ==> IsWord(t.name)) && (u.Ident? ==> IsWord(u.name))
    ensures Parted(Spelling(t), Spelling(u)) ==> Parted(Spelling(RenameToken(rename, t)), Spelling(RenameToken(rename, u)))
  {
  }

  /** Some name in the text includes `true`, as it is or after the renaming. */
  predicate NameIncludesTrue(code: Code, rename: string -> string) {
    exists i :: 0 <= i < |code| && code[i].Ident? && Includes(rename(code[i].name), TRUE)
  }

  predicate RestIncludes(code: Code, part: string) {
    exists i :: 0 <= i < |code| && code[i].Raw? && Includes(code[i].text, part)
  }

  /** `aria-modal` goes on reading as it did exactly when it does so without its names, or as many of them include `true` as did: some, or none. */
  lemma ModalStaysByName(rename: string -> string, code: Code)
    requires Lexed(code) && ToWords(rename)
    ensures (Includes(TextOf(code), TRUE) <==> Includes(TextOf(RenameCode(rename, code)), TRUE)) <==>
            (RestIncludes(code, TRUE) || (NameIncludesTrue(code, x => x) <==> NameIncludesTrue(code, rename)))
  {
    var renamed := RenameCode(rename, code);
    RenamedIsLexed(rename, code);
    IncludedInAPiece(code, TRUE);
    IncludedInAPiece(renamed, TRUE);
    PiecesOf(code, TRUE, x => x);
    PiecesOf(code, TRUE, rename);
    assert RenameCode(x => x, code) == code;
  }

  /** A piece of the renamed text is a renamed name or what was there. */
  lemma PiecesOf(code: Code, part: string, rename: string -> string)
    ensures SomePieceIncludes(RenameCode(rename, code), part) <==>
            RestIncludes(code, part) || exists i :: 0 <= i < |code| && code[i].Ident? && Includes(rename(code[i].name), part)
  {
    var renamed := RenameCode(rename, code);
    if i :| 0 <= i < |code| && code[i].Ident? && Includes(rename(code[i].name), part) {
      assert Spelling(renamed[i]) == rename(code[i].name);
    }
    if i :| 0 <= i < |code| && code[i].Raw? && Includes(code[i].text, part) {
      assert Spelling(renamed[i]) == code[i].text;
    }
  }

  /** `role` never reads otherwise: names hold no quotes. */
  lemma DialogStays(rename: string -> string, code: Code)
    requires Lexed(code) && ToWords(rename)
    ensures Includes(TextOf(code), DIALOG) <==> Includes(TextOf(RenameCode(rename, code)), DIALOG)
  {
    RenamedIsLexed(rename, code);
    IncludedInAPiece(code, DIALOG);
    IncludedInAPiece(RenameCode(rename, code), DIALOG);
    PiecesOf(code, DIALOG, x => x);
    PiecesOf(code, DIALOG, rename);
    assert RenameCode(x => x, code) == code;
    forall x | IsWord(x) ensures !Includes(x, DIALOG) {
      NoQuoteInside(x);
    }
  }

  lemma NoQuoteInside(name: string)
    requires IsWord(name)
    ensures !Includes(name, DIALOG)
  {
    assert DIALOG[0] == '"';
    if Includes(name, DIALOG) {
      StartIsIncluded(name, DIALOG);
    }
  }

  /** The renaming keeps `createPortal`, which names in `aria-modal` include `true`, and the names in classes. */
  ghost predicate Keeps(rename: string -> string, f: Form) {
    match f
    case Call(_, _) => PortalStays(rename, f)
    case Element(_, modal, role, className) =>
      && (modal.Some? ==> Lexed(modal.value) && forall i :: 0 <= i < |modal.value| && modal.value[i].Ident? ==>
            KeepsTrue(rename, modal.value[i].name))
      && (role.Some? ==> Lexed(role.value))
      && (className.Some? ==> RenameCode(rename, className.value) == className.value)
    case Other => true
  }

  predicate KeepsTrue(rename: string -> string, name: string) {
    Includes(name, TRUE) <==> Includes(rename(name), TRUE)
  }

  ghost predicate KeepsAll(rename: string -> string, n: Node)
    decreases n
  {
    Keeps(rename, n.form) && forall i :: 0 <= i < |n.children| ==> KeepsAll(rename, n.children[i])
  }

  /** And the names in the initializers of the file's constants. */
  ghost predicate KeepsConstants(rename: string -> string, stmts: seq<Statement>) {
    forall k, j :: 0 <= k < |stmts| && stmts[k].Variables? && 0 <= j < |stmts[k].decls| ==>
      RenameCode(rename, stmts[k].decls[j].text) == stmts[k].decls[j].text
  }

  /** A renaming that keeps all that leaves the sites of the file in their places. */
  lemma AliasesDoNotMatter(d: Detection, rename: string -> string, stmts: seq<Statement>)
    requires Injective(rename) && ToWords(rename)
    requires KeepsAll(rename, Root(stmts)) && KeepsConstants(rename, stmts)
    ensures SamePlaces(SitesOf(d, stmts), SitesOf(d, RenameFile(rename, stmts)))
  {
    AliasesMatterOnlyInMarkup(d, rename, stmts);
    PopoversKept(d.regexes, rename, stmts);
    KeptMarkupStays(rename, ContextOf(d, stmts), Root(stmts));
  }

  lemma {:induction false} KeptMarkupStays(rename: string -> string, ctx: Context, n: Node)
    requires ToWords(rename) && KeepsAll(rename, n)
    ensures AllMarkupStays(rename, ctx, ctx.popovers, n)
    decreases n
  {
    KeptFormStays(rename, ctx, n.form);
    KeptMarkupStaysBelow(rename, ctx, n.children);
  }

  lemma {:induction false} KeptMarkupStaysBelow(rename: string -> string, ctx: Context, ns: seq<Node>)
    requires ToWords(rename) && forall i :: 0 <= i < |ns| ==> KeepsAll(rename, ns[i])
    ensures MarkupStaysBelow(rename, ctx, ctx.popovers, ns)
    decreases ns
  {
    if ns != [] {
      KeptMarkupStays(rename, ctx, ns[0]);
      KeptMarkupStaysBelow(rename, ctx, ns[1..]);
    }
  }

  lemma KeptFormStays(rename: string -> string, ctx: Context, f: Form)
    requires ToWords(rename) && Keeps(rename, f)
    ensures MarkupStays(rename, ctx, ctx.popovers, f)
  {
    if f.Element? {
      hide Painted, Lexed, Includes;
      if f.modal.Some? {
        ModalStaysByName(rename, f.modal.value);
        forall i | 0 <= i < |f.modal.value| && f.modal.value[i].Ident? ensures KeepsTrue(rename, f.modal.value[i].name) {
        }
        SameNamesIncludeTrue(rename, f.modal.value);
      }
      if f.role.Some? {
        DialogStays(rename, f.role.value);
      }
    }
  }

  lemma SameNamesIncludeTrue(rename: string -> string, code: Code)
    requires forall i :: 0 <= i < |code| && code[i].Ident? ==> KeepsTrue(rename, code[i].name)
    ensures NameIncludesTrue(code, x => x) <==> NameIncludesTrue(code, rename)
  {
    if i :| 0 <= i < |code| && code[i].Ident? && Includes(rename(code[i].name), TRUE) {
      assert KeepsTrue(rename, code[i].name);
    }
    if i :| 0 <= i < |code| && code[i].Ident? && Includes(code[i].name, TRUE) {
      assert KeepsTrue(rename, code[i].name);
    }
  }

  lemma PopoversKept(regexes: Regexes, rename: string -> string, stmts: seq<Statement>)
    requires KeepsConstants(rename, stmts)
    ensures PopoverConstants(regexes, RenameFile(rename, stmts)) == PopoverConstants(regexes, stmts)
  {
    var stmts' := RenameFile(rename, stmts);
    forall k, j, name ensures PopoverAt(regexes, stmts, k, j, name) <==> PopoverAt(regexes, stmts', k, j, name) {
      if 0 <= k < |stmts| && stmts[k].Variables? && 0 <= j < |stmts[k].decls| {
        DeclsRenamed(rename, stmts[k].decls, j);
      }
    }
    SamePopovers(regexes, stmts, stmts');
  }

  lemma {:induction false} DeclsRenamed(rename: string -> string, decls: seq<Decl>, j: nat)
    requires j < |decls|
    ensures RenameDecls(rename, decls)[j] == RenameDecl(rename, decls[j])
    decreases j
  {
    if j > 0 {
      DeclsRenamed(rename, decls[1..], j - 1);
    }
  }

  // Two files that a consistent renaming does not leave alone.

  /** `import { open as local } from …`, and a statement that renders `<div aria-modal={local}/>`. */
  function ModalFile(specifier: Specifier, local: string): seq<Statement> {
    [Import(false, specifier, None, NamedImports([Spec(Some("open"), local, false)])),
     OtherStatement(Node(ModalForm(local), []))]
  }

  function ModalForm(local: string): Form {
    Element(["div"], Some([Raw("aria-modal={"), Ident(local), Raw("}")]), None, None)
  }

  /** Importing `open` as `trueO` instead of `o`, consistently, adds a site. */
  lemma ModalAliasAddsASite(d: Detection, rename: string -> string, specifier: Specifier)
    requires rename("o") == "trueO" && rename("div") == "div"
    ensures RenameFile(rename, ModalFile(specifier, "o")) == ModalFile(specifier, "trueO")
    ensures SitesOf(d, ModalFile(specifier, "o")) == [] && |SitesOf(d, ModalFile(specifier, "trueO"))| == 1
  {
    var file := ModalFile(specifier, "o");
    assert RenameFile(rename, file[1..][1..]) == [];
    assert RenameFile(rename, file) == [RenameStatement(rename, file[0])] + RenameFile(rename, file[1..]);
    assert RenameElements(rename, [Spec(Some("open"), "o", false)]) == [Spec(Some("open"), "trueO", false)];
    assert RenameTag(rename, ["div"]) == ["div"];
    assert RenameCode(rename, ModalForm("o").modal.value) == ModalForm("trueO").modal.value;
    OneElement(d, specifier, "o");
    OneElement(d, specifier, "trueO");
    HasNoT("o");
    assert OccursAt("trueO", 0, TRUE);
  }

  /** What is in braces decides. */
  lemma OneElement(d: Detection, specifier: Specifier, local: string)
    requires IsWord(local) && local != "div"
    ensures |SitesOf(d, ModalFile(specifier, local))| == if Includes(local, TRUE) then 1 else 0
  {
    var file, f := ModalFile(specifier, local), ModalForm(local);
    hide Lexed, IsWord, SitesOf, Classify;
    OneNode(d, file[0], f);
    BindsOnly(d, specifier, local);
    InBraces(local);
    ModalByItsBraces(d, specifier, local);
  }

  lemma ModalByItsBraces(d: Detection, specifier: Specifier, local: string)
    requires local != "div" && Lexed(ModalForm(local).modal.value)
    requires BindMemoised(d, ModalFile(specifier, local), NOTHING, map[]).components <= {local}
    ensures Classify(ContextOf(d, ModalFile(specifier, local)), ModalForm(local)).Some? <==> Includes(local, TRUE)
  {
    var f := ModalForm(local);
    hide BindMemoised, Lexed, IsWord, SitesOf, PopoverConstants, TextOf;
    var code := f.modal.value;
    HasNoT("aria-modal={");
    HasNoT("}");
    IncludedInAPiece(code, TRUE);
    if Includes(local, TRUE) {
      assert Spelling(code[1]) == local;
    }
  }

  lemma HasNoT(text: string)
    requires 't' !in text
    ensures !Includes(text, TRUE)
  {
    assert TRUE[0] == 't';
    if Includes(text, TRUE) {
      StartIsIncluded(text, TRUE);
    }
  }

  lemma InBraces(local: string)
    requires IsWord(local)
    ensures Lexed([Raw("aria-modal={"), Ident(local), Raw("}")])
  {
    var open, close := "aria-modal={", "}";
    assert open[|open| - 1] == '{' && close[0] == '}';
    var a, b := [open[|open| - 1]], [close[0]];
    assert a[0] == '{' && b[0] == '}' && !Sought(a) && !Sought(b);
  }

  lemma BindsOnly(d: Detection, specifier: Specifier, local: string)
    ensures BindMemoised(d, ModalFile(specifier, local), NOTHING, map[]).components <= {local}
    ensures BindMemoised(d, ModalFile(specifier, local), NOTHING, map[]).namespaces == map[]
  {
    var file := ModalFile(specifier, local);
    assert file[1..][1..] == [];
    assert forall b, cache :: BindMemoised(d, file[1..], b, cache) == BindMemoised(d, [], b, cache) == b;
    assert forall reachable :: ImportedLocals(file[0].bindings.elements, reachable) <= {local};
  }

  /** A file of one import and one statement of one node. */
  lemma OneNode(d: Detection, s: Statement, f: Form)
    requires s.Import?
    ensures var file := [s, OtherStatement(Node(f, []))];
            |SitesOf(d, file)| == if Classify(ContextOf(d, file), f).Some? then 1 else 0
  {
    var file := [s, OtherStatement(Node(f, []))];
    var ctx, node := ContextOf(d, file), Node(f, []);
    var ns := Root(file).children;
    assert ns == [Node(Other, []), node] && ns[1..] == [node] && ns[1..][1..] == [];
    assert OutermostAll(ctx, [], [] + [1], 0) == [] && OutermostAll(ctx, [], [] + [0], 0) == [];
    assert |Outermost(ctx, node, [] + [1])| == if Classify(ctx, f).Some? then 1 else 0;
    assert Outermost(ctx, ns[0], [] + [0]) == [];
    assert OutermostAll(ctx, [], [], 2) == [];
    assert OutermostAll(ctx, ns[1..], [], 1) == Outermost(ctx, node, [] + [1]) + OutermostAll(ctx, ns[1..][1..], [], 2);
    assert OutermostAll(ctx, ns, [], 0) == Outermost(ctx, ns[0], [] + [0]) + OutermostAll(ctx, ns[1..], [], 1);
  }

  /** `import { createPortal as local } from 'react-dom'`, and a statement that calls it. */
  function PortalFile(local: string): seq<Statement> {
    [Import(false, Package, None, NamedImports([Spec(Some(CREATE_PORTAL), local, false)])),
     OtherStatement(Node(Call(true, [local]), []))]
  }

  /** Importing `createPortal` under another name, consistently, loses the site of the call. */
  lemma PortalAliasLosesTheSite(d: Detection, rename: string -> string, alias: string)
    requires alias != CREATE_PORTAL && rename(CREATE_PORTAL) == alias
    ensures RenameFile(rename, PortalFile(CREATE_PORTAL)) == PortalFile(alias)
    ensures |SitesOf(d, PortalFile(CREATE_PORTAL))| == 1 && SitesOf(d, PortalFile(alias)) == []
  {
    var file := PortalFile(CREATE_PORTAL);
    assert RenameFile(rename, file[1..][1..]) == [];
    assert RenameTag(rename, [CREATE_PORTAL]) == [alias];
    assert RenameFile(rename, file) == [RenameStatement(rename, file[0])] + RenameFile(rename, file[1..]);
    assert RenameElements(rename, [Spec(Some(CREATE_PORTAL), CREATE_PORTAL, false)]) == [Spec(Some(CREATE_PORTAL), alias, false)];
    OneCall(d, CREATE_PORTAL);
    OneCall(d, alias);
  }

  lemma OneCall(d: Detection, local: string)
    ensures |SitesOf(d, PortalFile(local))| == if local == CREATE_PORTAL then 1 else 0
  {
    OneNode(d, PortalFile(local)[0], Call(true, [local]));
  }
}
