/**
 The syntax the overlay discovery reads: a tree of nodes for what is rendered, and the
 top-level statements that declare, import and export names.
 */
module OverlaySyntax {
  import opened Outcomes

  datatype Node = Node(form: Form, children: seq<Node>)

  /** A piece of source text: an identifier that refers to a binding, or anything between two. */
  datatype Token = Ident(name: string) | Raw(text: string)

  type Code = seq<Token>

  /**
   What the discovery sees of a node: a call, a JSX element, or anything else. A callee or a tag
   is its dotted segments; `bound` says that a callee starts with a plain name, not with some
   other expression. `modal`, `role` and `className` are the texts of the attributes `aria-modal`,
   `role` and `className`, where there are such.
   */
  datatype Form =
    | Call(bound: bool, callee: seq<string>)
    | Element(tag: seq<string>, modal: Option<Code>, role: Option<Code>, className: Option<Code>)
    | Other

  /**
   The two tests by regular expression: whether a text holds the popover token, and whether a
   name is mentioned in a text.
   */
  datatype Regexes = Regexes(popover: string -> bool, mentions: (string, string) -> bool)

  /** `{ property as name }` in an import or export list. */
  datatype Spec = Spec(property: Option<string>, name: string, typeOnly: bool) {
    function Source(): string {
      if property.Some? then property.value else name
    }
  }

  /** The element hands the name `source` on as `name`. */
  predicate Specifies(e: Spec, source: string, name: string) {
    !e.typeOnly && e.name == name && match e.property case Some(p) => source == p case None => source == name
  }

  /** A declarator; a destructuring pattern has no name. `text` is the initializer's. */
  datatype Decl = Decl(name: Option<string>, init: Option<Node>, text: Code)

  /** A package, or a relative path already joined to the directory of the importing file. */
  datatype Specifier = Package | Relative(base: string)

  datatype Clause = Star | Namespace | Named(elements: seq<Spec>)

  datatype NamedBindings = NoBindings | NamedImports(elements: seq<Spec>) | NamespaceImport(name: string)

  datatype Statement =
    | Function(declared: Option<string>, exported: bool, isDefault: bool, node: Node)
    | Variables(exported: bool, decls: seq<Decl>)
    | ExportName(local: string)
    | ExportExpression(node: Node)
    | ExportList(elements: seq<Spec>)
    | ReExport(typeOnly: bool, specifier: Specifier, clause: Clause)
    | Import(typeOnly: bool, specifier: Specifier, defaultName: Option<string>, bindings: NamedBindings)
    | OtherStatement(node: Node)

  const DEFAULT := "default"

  /** What a statement renders. */
  function NodeOf(s: Statement): Node {
    match s
    case Function(_, _, _, node) => node
    case Variables(_, decls) => Node(Other, Initializers(decls))
    case ExportExpression(node) => Node(Other, [node])
    case OtherStatement(node) => node
    case _ => Node(Other, [])
  }

  function Initializers(decls: seq<Decl>): seq<Node> {
    if decls == [] then []
    else (if decls[0].init.Some? then [decls[0].init.value] else []) + Initializers(decls[1..])
  }

  function Root(stmts: seq<Statement>): (root: Node)
    ensures |root.children| == |stmts|
    ensures forall i :: 0 <= i < |stmts| ==> root.children[i] == NodeOf(stmts[i])
  {
    Node(Other, seq(|stmts|, i requires 0 <= i < |stmts| => NodeOf(stmts[i])))
  }

  // Portals are recognised by the text of the callee.

  const CREATE_PORTAL := "createPortal"

  function Text(segments: seq<string>): string {
    if segments == [] then ""
    else if |segments| == 1 then segments[0]
    else Text(segments[..|segments| - 1]) + "." + segments[|segments| - 1]
  }

  predicate EndsWith(text: string, end: string) {
    |end| <= |text| && text[|text| - |end|..] == end
  }

  predicate IsPortalText(text: string) {
    text == CREATE_PORTAL || EndsWith(text, "." + CREATE_PORTAL)
  }

  predicate IsPortal(f: Form) {
    f.Call? && f.callee != [] && f.callee[|f.callee| - 1] == CREATE_PORTAL
  }

  /** On names without dots, the text test asks for the last name. */
  lemma PortalByItsText(f: Form)
    requires f.Call? && f.callee != [] && forall i :: 0 <= i < |f.callee| ==> '.' !in f.callee[i]
    ensures IsPortalText(Text(f.callee)) <==> IsPortal(f)
  {
    var n := |f.callee|;
    var name, end := f.callee[n - 1], "." + CREATE_PORTAL;
    assert end[0] == '.' && end[1..] == CREATE_PORTAL;
    if n == 1 {
      DotAtTheEnd(name, end);
    } else {
      assert Text(f.callee) == Text(f.callee[..n - 1]) + "." + name;
      PortalMember(Text(f.callee[..n - 1]), name);
    }
  }

  lemma PortalMember(before: string, name: string)
    requires '.' !in name
    ensures IsPortalText(before + "." + name) <==> name == CREATE_PORTAL
  {
    var text, end := before + "." + name, "." + CREATE_PORTAL;
    assert end[0] == '.' && end[1..] == CREATE_PORTAL;
    assert text[|before|] == '.' && '.' !in CREATE_PORTAL;
    if EndsWith(text, end) {
      DotsLineUp(before, name, end);
    }
    if name == CREATE_PORTAL {
      assert text[|text| - |end|..] == "." + name;
    }
  }

  lemma DotAtTheEnd(text: string, end: string)
    requires end != [] && end[0] == '.'
    ensures EndsWith(text, end) ==> '.' in text
  {
    if EndsWith(text, end) {
      assert text[|text| - |end|] == text[|text| - |end|..][0];
    }
  }

  /** A text that ends in a dot and a dotless name ends so in one way only. */
  lemma DotsLineUp(before: string, name: string, end: string)
    requires '.' !in name && end != [] && end[0] == '.' && '.' !in end[1..] && EndsWith(before + "." + name, end)
    ensures name == end[1..]
  {
    var text := before + "." + name;
    var k := |text| - |end|;
    assert text[|before|] == '.' && text[|before| + 1..] == name;
    assert text[k] == text[k..][0] == '.';
    assert forall j :: |before| < j < |text| ==> text[j] == name[j - |before| - 1];
    assert forall j :: k < j < |text| ==> text[j] == text[k..][j - k] && text[k..][j - k] == end[1..][j - k - 1];
    assert text[k + 1..] == text[k..][1..];
  }

  // Modal markup is recognised by the text of two attributes.

  function Spelling(t: Token): string {
    match t
    case Ident(name) => name
    case Raw(text) => text
  }

  function TextOf(code: Code): string {
    if code == [] then "" else Spelling(code[0]) + TextOf(code[1..])
  }

  predicate OccursAt(text: string, i: int, part: string) {
    0 <= i <= |text| - |part| && text[i..i + |part|] == part
  }

  predicate Includes(text: string, part: string) {
    exists i :: 0 <= i <= |text| && OccursAt(text, i, part)
  }

  const TRUE := "true"

  const DIALOG := "\"dialog\""

  predicate Holds(attribute: Option<Code>, part: string) {
    attribute.Some? && Includes(TextOf(attribute.value), part)
  }

  predicate ReadsModal(f: Form) {
    f.Element? && (Holds(f.modal, TRUE) || Holds(f.role, DIALOG))
  }

  // Names are whole words, so a word is found inside one piece of a text.

  predicate WordChar(c: char) {
    'a' <= c <= 'z' || 'A' <= c <= 'Z' || '0' <= c <= '9' || c == '_' || c == '$'
  }

  predicate IsWord(name: string) {
    name != "" && forall i :: 0 <= i < |name| ==> WordChar(name[i])
  }

  predicate Sought(part: string) {
    part != "" && forall i :: 0 <= i < |part| ==> WordChar(part[i]) || part[i] == '"'
  }

  /** Where the two touch, one of them shows that a word is over, and no quote either. */
  predicate Parted(a: string, b: string) {
    a != "" && b != "" && (!Sought([a[|a| - 1]]) || !Sought([b[0]]))
  }

  /** A text taken apart as a scanner does it. */
  predicate Lexed(code: Code) {
    && (forall i :: 0 <= i < |code| ==> if code[i].Ident? then IsWord(code[i].name) else code[i].text != "")
    && (forall i :: 0 <= i < |code| - 1 ==> Parted(Spelling(code[i]), Spelling(code[i + 1])))
  }

  predicate SomePieceIncludes(code: Code, part: string) {
    exists i :: 0 <= i < |code| && Includes(Spelling(code[i]), part)
  }

  /** A text includes what is sought exactly when one of its pieces does. */
  lemma {:induction false} IncludedInAPiece(code: Code, part: string)
    requires Lexed(code) && Sought(part)
    ensures Includes(TextOf(code), part) <==> SomePieceIncludes(code, part)
  {
    if code == [] {
      assert !OccursAt("", 0, part);
    } else {
      var a, rest := Spelling(code[0]), code[1..];
      assert Lexed(rest) by {
        forall i | 0 <= i < |rest| - 1 ensures Parted(Spelling(rest[i]), Spelling(rest[i + 1])) {
          assert rest[i] == code[i + 1] && rest[i + 1] == code[i + 2];
        }
      }
      IncludedInAPiece(rest, part);
      if rest != [] {
        TextStarts(rest);
        assert Parted(a, Spelling(code[1]));
      }
      IncludedInEither(a, TextOf(rest), part);
      if SomePieceIncludes(code, part) {
        var i :| 0 <= i < |code| && Includes(Spelling(code[i]), part);
        assert i > 0 ==> rest[i - 1] == code[i];
      }
    }
  }

  lemma StartIsIncluded(text: string, part: string)
    requires Includes(text, part) && part != ""
    ensures part[0] in text
  {
    var i :| 0 <= i <= |text| && OccursAt(text, i, part);
    assert text[i] == text[i..i + |part|][0] == part[0];
  }

  lemma TextStarts(code: Code)
    requires code != [] && Spelling(code[0]) != ""
    ensures TextOf(code) != "" && TextOf(code)[0] == Spelling(code[0])[0]
  {
  }

  lemma IncludedInEither(a: string, b: string, part: string)
    requires Sought(part) && (b == "" || Parted(a, b))
    ensures Includes(a + b, part) <==> Includes(a, part) || Includes(b, part)
  {
    if i :| 0 <= i <= |a| && OccursAt(a, i, part) {
      assert (a + b)[i..i + |part|] == a[i..i + |part|];
      assert OccursAt(a + b, i, part);
    }
    if i :| 0 <= i <= |b| && OccursAt(b, i, part) {
      assert (a + b)[|a| + i..|a| + i + |part|] == b[i..i + |part|];
      assert OccursAt(a + b, |a| + i, part);
    }
    if i :| 0 <= i <= |a + b| && OccursAt(a + b, i, part) {
      OccursInEither(a, b, part, i);
    }
  }

  lemma OccursInEither(a: string, b: string, part: string, i: nat)
    requires Sought(part) && (b == "" || Parted(a, b)) && OccursAt(a + b, i, part)
    ensures Includes(a, part) || Includes(b, part)
  {
    var n := |part|;
    assert forall k :: 0 <= k < n ==> part[k] == (a + b)[i..i + n][k] && (a + b)[i..i + n][k] == (a + b)[i + k];
    if i + n <= |a| {
      assert a[i..i + n] == (a + b)[i..i + n];
      assert OccursAt(a, i, part);
    } else if i >= |a| {
      assert b[i - |a|..i - |a| + n] == (a + b)[i..i + n];
      assert OccursAt(b, i - |a|, part);
    } else {
      Straddles(a, b, part, i);
    }
  }

  /** An occurrence in both parts of a text touches where they meet. */
  lemma Straddles(a: string, b: string, part: string, i: nat)
    requires Sought(part) && OccursAt(a + b, i, part) && i < |a| < i + |part|
    ensures b != "" && Sought([a[|a| - 1]]) && Sought([b[0]])
  {
    var k := |a| - i;
    assert part[k - 1] == (a + b)[i..i + |part|][k - 1] == (a + b)[|a| - 1] == a[|a| - 1];
    assert part[k] == (a + b)[i..i + |part|][k] == (a + b)[|a|] == b[0];
  }

  // Positions in a tree: child indices from the root.

  type Pos = seq<nat>

  function At(n: Node, pos: Pos): Option<Node>
    decreases |pos|
  {
    if pos == [] then Some(n)
    else if pos[0] < |n.children| then At(n.children[pos[0]], pos[1..])
    else None
  }

  lemma {:induction false} AtConcat(n: Node, p: Pos, q: Pos)
    ensures At(n, p + q) == match At(n, p) case Some(m) => At(m, q) case None => None
    decreases |p|
  {
    if p == [] {
      assert p + q == q;
    } else if p[0] < |n.children| {
      assert (p + q)[1..] == p[1..] + q;
      AtConcat(n.children[p[0]], p[1..], q);
    }
  }

  /** Whether a node paints overlay markup itself: a portal, or modal markup in place. */
  predicate Builds(f: Form) {
    IsPortal(f) || ReadsModal(f)
  }

  ghost predicate HasBuilder(n: Node) {
    exists pos :: BuilderAt(n, pos)
  }

  predicate BuilderAt(n: Node, pos: Pos) {
    At(n, pos).Some? && Builds(At(n, pos).value.form)
  }

  lemma BuilderInChild(n: Node, pos: Pos)
    ensures BuilderAt(n, pos) && !Builds(n.form) ==> pos != [] && pos[0] < |n.children| && HasBuilder(n.children[pos[0]])
  {
    if BuilderAt(n, pos) && pos != [] {
      assert BuilderAt(n.children[pos[0]], pos[1..]);
    }
  }

  /** `buildsOverlay`: a search that stops at the first builder. */
  method BuildsOverlay(n: Node) returns (found: bool)
    ensures found <==> HasBuilder(n)
    decreases n
  {
    if Builds(n.form) {
      assert BuilderAt(n, []);
      return true;
    }
    found := false;
    var i := 0;
    while i < |n.children| && !found
      invariant 0 <= i <= |n.children|
      invariant found ==> HasBuilder(n)
      invariant !found ==> forall j :: 0 <= j < i ==> !HasBuilder(n.children[j])
    {
      found := BuildsOverlay(n.children[i]);
      if found {
        var pos :| BuilderAt(n.children[i], pos);
        assert ([i] + pos)[1..] == pos;
        assert BuilderAt(n, [i] + pos);
      }
      i := i + 1;
    }
    if !found {
      forall pos ensures !BuilderAt(n, pos) {
        BuilderInChild(n, pos);
      }
    }
  }
}
