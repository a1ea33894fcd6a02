/** The clone engine, `cloneZodSchema` and its inner `cloneZodObject` (src/index.ts:43-63):
    a schema tree is printed back as the TypeScript expression that rebuilds it. */
module Clone {
  import opened Text
  import opened Repair

  /** A schema as the engine sees it. The four kinds it recognises carry their children;
      every other schema is a leaf, known only by its `_def.typeName` and by the text
      `JSON.stringify(_def)` gives for it. */
  datatype Node =
    | Object(shape: seq<(string, Node)>)
    | Optional(innerType: Node)
    | Nullable(innerType: Node)
    | Array(element: Node)
    | Leaf(typeName: string, definition: string)

  const ObjectOpen: string := "z.object({"
  const ObjectClose: string := "})"
  const OptionalOpen: string := "z.optional("
  const NullableOpen: string := "z.nullable("
  const ArrayOpen: string := "z.array("
  const LeafOpen: string := "new z."
  const DeclarationOpen: string := "export const "
  const DeclarationBind: string := " = "
  const FieldSeparator: string := ","
  const KeySeparator: string := ": "

  /** `key: value` for one field of an object. */
  function FieldText(key: string, value: string): (field: string) {
    key + KeySeparator + value
  }

  /** The text of a leaf before the repairs. */
  function LeafText(typeName: string, definition: string): (raw: string) {
    LeafOpen + typeName + "(" + definition + ")"
  }

  /** `cloneZodObject`: the expression that rebuilds `node`. It is total: every schema that
      is not an object, optional, nullable or array takes the leaf branch, and none is
      rejected. Every expression ends with a closing parenthesis. */
  function CloneNode(node: Node): (r: string)
    ensures |r| > 0 && r[|r| - 1] == ')'
    decreases node, 1
  {
    match node
    case Object(_) => ObjectOpen + Join(FieldSeparator, FieldTexts(node)) + ObjectClose
    case Optional(inner) => OptionalOpen + CloneNode(inner) + ")"
    case Nullable(inner) => NullableOpen + CloneNode(inner) + ")"
    case Array(element) => ArrayOpen + CloneNode(element) + ")"
    case Leaf(typeName, definition) =>
      var raw := LeafText(typeName, definition);
      RepairTypeNamesKeepsLast(raw);
      RepairRegexesKeepsLast(RepairTypeNames(raw));
      RepairRegexes(RepairTypeNames(raw))
  }

  /** The printed fields of an object node, in shape order. */
  function FieldTexts(node: Node): (fs: seq<string>)
    requires node.Object?
    ensures |fs| == |node.shape|
    decreases node, 0
  {
    seq(|node.shape|, i requires 0 <= i < |node.shape| => FieldText(node.shape[i].0, CloneNode(node.shape[i].1)))
  }

  /** `cloneZodSchema(name, schema)`: one `export const` declaration. */
  function CloneSchema(name: string, root: Node): (decl: string)
    ensures |decl| >= 2 && decl[|decl| - 2..] == ");"
  {
    DeclarationOpen + name + DeclarationBind + CloneNode(root) + ";"
  }

  // ---------------------------------------------------------------------------
  // Reading a clone back: the kind of node and what it wraps

  datatype Kind = ObjectKind | OptionalKind | NullableKind | ArrayKind | LeafKind

  datatype Option<T> = None | Some(value: T)

  function KindOf(node: Node): (k: Kind) {
    match node
    case Object(_) => ObjectKind
    case Optional(_) => OptionalKind
    case Nullable(_) => NullableKind
    case Array(_) => ArrayKind
    case Leaf(_, _) => LeafKind
  }

  /** The text each kind of expression opens with. */
  function Opening(k: Kind): (open: string) {
    match k
    case ObjectKind => ObjectOpen
    case OptionalKind => OptionalOpen
    case NullableKind => NullableOpen
    case ArrayKind => ArrayOpen
    case LeafKind => LeafOpen
  }

  predicate StartsWith(s: string, p: string) {
    |p| <= |s| && s[..|p|] == p
  }

  /** Which kind of expression `text` is, judged by its opening alone. */
  function ReadKind(text: string): (k: Option<Kind>)
    ensures k.Some? ==> StartsWith(text, Opening(k.value))
  {
    if StartsWith(text, ObjectOpen) then Some(ObjectKind)
    else if StartsWith(text, OptionalOpen) then Some(OptionalKind)
    else if StartsWith(text, NullableOpen) then Some(NullableKind)
    else if StartsWith(text, ArrayOpen) then Some(ArrayKind)
    else if StartsWith(text, LeafOpen) then Some(LeafKind)
    else None
  }

  /** What an object, optional, nullable or array expression holds between its opening and
      its closing: the joined fields, or the child's expression. */
  function Contents(text: string, k: Kind): (inner: string)
    requires k != LeafKind
  {
    var close := if k == ObjectKind then |ObjectClose| else 1;
    if |Opening(k)| + close <= |text| then text[|Opening(k)|..|text| - close] else ""
  }

  lemma ReadOpening(open: string, rest: string)
    ensures StartsWith(open + rest, open)
  {
    assert (open + rest)[..|open|] == open;
  }

  lemma {:induction false} ReadKindOfObjectText(rest: string)
    ensures ReadKind(ObjectOpen + rest) == Some(ObjectKind)
  {
    ReadOpening(ObjectOpen, rest);
  }

  lemma {:induction false} ReadKindOfOptionalText(rest: string)
    ensures ReadKind(OptionalOpen + rest) == Some(OptionalKind)
  {
    var t := OptionalOpen + rest;
    ReadOpening(OptionalOpen, rest);
    assert t[3] == 'p' && t[..|ObjectOpen|][3] == t[3];
  }

  lemma {:induction false} ReadKindOfNullableText(rest: string)
    ensures ReadKind(NullableOpen + rest) == Some(NullableKind)
  {
    var t := NullableOpen + rest;
    ReadOpening(NullableOpen, rest);
    assert t[2] == 'n' && t[..|ObjectOpen|][2] == t[2] && t[..|OptionalOpen|][2] == t[2];
  }

  lemma {:induction false} ReadKindOfArrayText(rest: string)
    ensures ReadKind(ArrayOpen + rest) == Some(ArrayKind)
  {
    var t := ArrayOpen + rest;
    ReadOpening(ArrayOpen, rest);
    assert t[2] == 'a';
    assert |t| >= |ObjectOpen| ==> t[..|ObjectOpen|][2] == t[2];
    assert |t| >= |OptionalOpen| ==> t[..|OptionalOpen|][2] == t[2];
    assert |t| >= |NullableOpen| ==> t[..|NullableOpen|][2] == t[2];
  }

  lemma {:induction false} ReadKindOfLeafText(rest: string)
    ensures ReadKind(LeafOpen + rest) == Some(LeafKind)
  {
    var t := LeafOpen + rest;
    ReadOpening(LeafOpen, rest);
    assert t[0] == 'n';
    assert |t| >= |ObjectOpen| ==> t[..|ObjectOpen|][0] == t[0];
    assert |t| >= |OptionalOpen| ==> t[..|OptionalOpen|][0] == t[0];
    assert |t| >= |NullableOpen| ==> t[..|NullableOpen|][0] == t[0];
    assert |t| >= |ArrayOpen| ==> t[..|ArrayOpen|][0] == t[0];
  }

  /** A leaf's expression opens `new z.` whatever its type name and definition: neither
      repair touches text before the first `"`. */
  lemma LeafOpensWithNew(typeName: string, definition: string)
    ensures StartsWith(CloneNode(Leaf(typeName, definition)), LeafOpen)
  {
    var rest := typeName + "(" + definition + ")";
    assert LeafText(typeName, definition) == LeafOpen + rest;
    assert '"' !in LeafOpen;
    QuoteFreePrefixRepairTypeNames(LeafOpen, rest);
    QuoteFreePrefixRepairRegexes(LeafOpen, RepairTypeNames(rest));
    ReadOpening(LeafOpen, RepairRegexes(RepairTypeNames(rest)));
  }

  /** The kind of every node can be read back from the opening of its expression, so the
      five branches of the engine never print the same thing. */
  lemma KindOfClone(node: Node)
    ensures ReadKind(CloneNode(node)) == Some(KindOf(node))
  {
    match node
    case Object(_) =>
      ReadKindOfObjectText(Join(FieldSeparator, FieldTexts(node)) + ObjectClose);
      assert CloneNode(node) == ObjectOpen + (Join(FieldSeparator, FieldTexts(node)) + ObjectClose);
    case Optional(inner) =>
      ReadKindOfOptionalText(CloneNode(inner) + ")");
      assert CloneNode(node) == OptionalOpen + (CloneNode(inner) + ")");
    case Nullable(inner) =>
      ReadKindOfNullableText(CloneNode(inner) + ")");
      assert CloneNode(node) == NullableOpen + (CloneNode(inner) + ")");
    case Array(element) =>
      ReadKindOfArrayText(CloneNode(element) + ")");
      assert CloneNode(node) == ArrayOpen + (CloneNode(element) + ")");
    case Leaf(typeName, definition) =>
      LeafOpensWithNew(typeName, definition);
      ReadKindOfLeafClone(CloneNode(node));
  }

  lemma ReadKindOfLeafClone(c: string)
    requires StartsWith(c, LeafOpen)
    ensures ReadKind(c) == Some(LeafKind)
  {
    assert c == LeafOpen + c[|LeafOpen|..];
    ReadKindOfLeafText(c[|LeafOpen|..]);
  }

  lemma WrappedContents(open: string, inner: string, close: string)
    ensures (open + inner + close)[|open|..|open + inner + close| - |close|] == inner
  {
  }

  /** An optional, nullable or array expression holds exactly its child's expression, and an
      object expression exactly its fields joined by `,`. */
  lemma ContentsOfClone(node: Node)
    requires !node.Leaf?
    ensures node.Object? ==> Contents(CloneNode(node), ObjectKind) == Join(FieldSeparator, FieldTexts(node))
    ensures node.Optional? || node.Nullable? ==> Contents(CloneNode(node), KindOf(node)) == CloneNode(node.innerType)
    ensures node.Array? ==> Contents(CloneNode(node), ArrayKind) == CloneNode(node.element)
  {
    match node
    case Object(_) => WrappedContents(ObjectOpen, Join(FieldSeparator, FieldTexts(node)), ObjectClose);
    case Optional(inner) => WrappedContents(OptionalOpen, CloneNode(inner), ")");
    case Nullable(inner) => WrappedContents(NullableOpen, CloneNode(inner), ")");
    case Array(element) => WrappedContents(ArrayOpen, CloneNode(element), ")");
  }

  // ---------------------------------------------------------------------------
  // Objects: one field per shape entry, in shape order

  /** Where the text of field `i` starts in the expression of object `node`. */
  function FieldOffset(node: Node, i: nat): (offset: nat)
    requires node.Object? && i <= |node.shape|
  {
    |ObjectOpen| + JoinOffset(FieldSeparator, FieldTexts(node), i)
  }

  /** Field `i` is printed verbatim, as `key: <clone of its value>`, at `FieldOffset`. */
  lemma ObjectFieldAt(node: Node, i: nat)
    requires node.Object? && i < |node.shape|
    ensures InfixAt(FieldText(node.shape[i].0, CloneNode(node.shape[i].1)), CloneNode(node), FieldOffset(node, i))
  {
    var fs := FieldTexts(node);
    var j := Join(FieldSeparator, fs);
    JoinAt(FieldSeparator, fs, i);
    WrappedInfix(ObjectOpen, j, ObjectClose, fs[i], JoinOffset(FieldSeparator, fs, i));
  }

  lemma WrappedInfix(open: string, inner: string, close: string, x: string, o: nat)
    requires o + |x| <= |inner| && inner[o..o + |x|] == x
    ensures InfixAt(x, open + inner + close, |open| + o)
  {
    var t := open + inner + close;
    var piece := t[|open| + o..|open| + o + |x|];
    forall k | 0 <= k < |x| ensures piece[k] == x[k] {
      assert piece[k] == t[|open| + o + k];
      assert x[k] == inner[o + k];
    }
  }

  /** Fields follow one another in shape order, one `,` apart. */
  lemma ObjectFieldsInOrder(node: Node, i: nat)
    requires node.Object? && i + 1 < |node.shape|
    ensures FieldOffset(node, i) + |FieldText(node.shape[i].0, CloneNode(node.shape[i].1))| + |FieldSeparator|
         == FieldOffset(node, i + 1)
  {
    JoinOffsetsAdvance(FieldSeparator, FieldTexts(node), i);
  }

  lemma EmptyObject()
    ensures CloneNode(Object([])) == "z.object({})"
  {
    assert FieldTexts(Object([])) == [];
  }

  // ---------------------------------------------------------------------------
  // Leaves

  /** With a type name free of `"`, the repairs rewrite only the leaf's definition text (and
      the `)` after it): the `new z.<typeName>(` opening is emitted as is. */
  lemma LeafRepairsOnlyDefinition(typeName: string, definition: string)
    requires '"' !in typeName
    ensures CloneNode(Leaf(typeName, definition))
         == LeafOpen + typeName + "(" + RepairRegexes(RepairTypeNames(definition + ")"))
  {
    var open := LeafOpen + typeName + "(";
    assert '"' !in open;
    assert LeafText(typeName, definition) == open + (definition + ")");
    QuoteFreePrefixRepairTypeNames(open, definition + ")");
    QuoteFreePrefixRepairRegexes(open, RepairTypeNames(definition + ")"));
  }

  // ---------------------------------------------------------------------------
  // Subtrees

  /** `sub` is `node` or lies somewhere below it. */
  ghost predicate IsSubtree(sub: Node, node: Node)
    decreases node
  {
    sub == node ||
    match node
    case Object(shape) => exists i :: 0 <= i < |shape| && IsSubtree(sub, shape[i].1)
    case Optional(inner) => IsSubtree(sub, inner)
    case Nullable(inner) => IsSubtree(sub, inner)
    case Array(element) => IsSubtree(sub, element)
    case Leaf(_, _) => false
  }

  /** The engine is compositional: the expression of every subtree appears verbatim inside
      the expression of the whole tree. */
  lemma {:induction false} SubtreeCloneAppears(sub: Node, node: Node)
    requires IsSubtree(sub, node)
    ensures IsInfix(CloneNode(sub), CloneNode(node))
    decreases node
  {
    if sub == node {
      assert InfixAt(CloneNode(sub), CloneNode(node), 0);
    } else {
      match node
      case Object(shape) =>
        var i :| 0 <= i < |shape| && IsSubtree(sub, shape[i].1);
        SubtreeCloneAppears(sub, shape[i].1);
        var fs := FieldTexts(node);
        InfixOfConcat(shape[i].0 + KeySeparator, CloneNode(shape[i].1), "");
        assert shape[i].0 + KeySeparator + CloneNode(shape[i].1) + "" == fs[i];
        JoinInfix(FieldSeparator, fs, i);
        InfixOfConcat(ObjectOpen, Join(FieldSeparator, fs), ObjectClose);
        InfixTransitive(CloneNode(shape[i].1), fs[i], Join(FieldSeparator, fs));
        InfixTransitive(CloneNode(shape[i].1), Join(FieldSeparator, fs), CloneNode(node));
        InfixTransitive(CloneNode(sub), CloneNode(shape[i].1), CloneNode(node));
      case Optional(inner) =>
        SubtreeCloneAppears(sub, inner);
        InfixOfConcat(OptionalOpen, CloneNode(inner), ")");
        InfixTransitive(CloneNode(sub), CloneNode(inner), CloneNode(node));
      case Nullable(inner) =>
        SubtreeCloneAppears(sub, inner);
        InfixOfConcat(NullableOpen, CloneNode(inner), ")");
        InfixTransitive(CloneNode(sub), CloneNode(inner), CloneNode(node));
      case Array(element) =>
        SubtreeCloneAppears(sub, element);
        InfixOfConcat(ArrayOpen, CloneNode(element), ")");
        InfixTransitive(CloneNode(sub), CloneNode(element), CloneNode(node));
    }
  }

  // ---------------------------------------------------------------------------
  // No quoted typeName survives

  /** No field name anywhere in the tree contains `"`. */
  predicate KeysQuoteFree(node: Node)
    decreases node
  {
    match node
    case Object(shape) => forall i :: 0 <= i < |shape| ==> '"' !in shape[i].0 && KeysQuoteFree(shape[i].1)
    case Optional(inner) => KeysQuoteFree(inner)
    case Nullable(inner) => KeysQuoteFree(inner)
    case Array(element) => KeysQuoteFree(element)
    case Leaf(_, _) => true
  }

  lemma {:induction false} JoinHasNoTypeNameLiteral(parts: seq<string>)
    requires forall i :: 0 <= i < |parts| ==> NoTypeNameLiteral(parts[i])
    ensures NoTypeNameLiteral(Join(FieldSeparator, parts))
    decreases |parts|
  {
    if |parts| > 1 {
      JoinHasNoTypeNameLiteral(parts[1..]);
      var rest := Join(FieldSeparator, parts[1..]);
      QuoteFreeThenNoTypeNameLiteral(FieldSeparator, rest);
      SeamHasNoTypeNameLiteral(parts[0], FieldSeparator + rest);
      assert parts[0] + FieldSeparator + rest == parts[0] + (FieldSeparator + rest);
    } else if |parts| == 0 {
      ShortHasNoTypeNameLiteral("");
    }
  }

  /** `open + inner + close` keeps `inner`'s guarantee when `open` has no `"` and `close`
      starts with a character outside the pattern's alphabet. */
  lemma WrappedHasNoTypeNameLiteral(open: string, inner: string, close: string)
    requires '"' !in open && NoTypeNameLiteral(inner)
    requires 0 < |close| <= 16 && !InTypeNameAlphabet(close[0])
    ensures NoTypeNameLiteral(open + inner + close)
  {
    ShortHasNoTypeNameLiteral(close);
    SeamHasNoTypeNameLiteral(inner, close);
    QuoteFreeThenNoTypeNameLiteral(open, inner + close);
    assert open + inner + close == open + (inner + close);
  }

  /** Every `"typeName":"Zod…"` in a leaf's definition has become an enum reference, and
      nothing the engine adds around it can form a new one. */
  lemma {:induction false} CloneHasNoTypeNameLiteral(node: Node)
    requires KeysQuoteFree(node)
    ensures NoTypeNameLiteral(CloneNode(node))
    decreases node, 1
  {
    match node
    case Object(shape) =>
      var fs := FieldTexts(node);
      FieldsHaveNoTypeNameLiteral(node);
      JoinHasNoTypeNameLiteral(fs);
      WrappedHasNoTypeNameLiteral(ObjectOpen, Join(FieldSeparator, fs), ObjectClose);
    case Optional(inner) =>
      CloneHasNoTypeNameLiteral(inner);
      WrappedHasNoTypeNameLiteral(OptionalOpen, CloneNode(inner), ")");
    case Nullable(inner) =>
      CloneHasNoTypeNameLiteral(inner);
      WrappedHasNoTypeNameLiteral(NullableOpen, CloneNode(inner), ")");
    case Array(element) =>
      CloneHasNoTypeNameLiteral(element);
      WrappedHasNoTypeNameLiteral(ArrayOpen, CloneNode(element), ")");
    case Leaf(typeName, definition) =>
      TypeNameRepairComplete(LeafText(typeName, definition));
      RegexRepairKeepsNoTypeNameLiteral(RepairTypeNames(LeafText(typeName, definition)));
  }

  lemma {:induction false} FieldsHaveNoTypeNameLiteral(node: Node)
    requires node.Object? && KeysQuoteFree(node)
    ensures forall i :: 0 <= i < |node.shape| ==> NoTypeNameLiteral(FieldTexts(node)[i])
    decreases node, 0
  {
    var shape := node.shape;
    forall i | 0 <= i < |shape| ensures NoTypeNameLiteral(FieldTexts(node)[i]) {
      CloneHasNoTypeNameLiteral(shape[i].1);
      assert '"' !in shape[i].0 + KeySeparator;
      QuoteFreeThenNoTypeNameLiteral(shape[i].0 + KeySeparator, CloneNode(shape[i].1));
    }
  }

  /** The whole declaration holds no quoted typeName when the variable name and the field
      names hold no `"`. */
  lemma DeclarationHasNoTypeNameLiteral(name: string, root: Node)
    requires '"' !in name && KeysQuoteFree(root)
    ensures NoTypeNameLiteral(CloneSchema(name, root))
  {
    CloneHasNoTypeNameLiteral(root);
    assert '"' !in DeclarationOpen + name + DeclarationBind;
    WrappedHasNoTypeNameLiteral(DeclarationOpen + name + DeclarationBind, CloneNode(root), ";");
  }

  // ---------------------------------------------------------------------------
  // Declarations

  /** The expression can be read back out of a declaration, given the variable's name. */
  function DeclaredExpression(decl: string, name: string): (expr: string) {
    var open := |DeclarationOpen + name + DeclarationBind|;
    if open + 1 <= |decl| then decl[open..|decl| - 1] else ""
  }

  lemma DeclarationRoundTrip(name: string, root: Node)
    ensures StartsWith(CloneSchema(name, root), DeclarationOpen + name + DeclarationBind)
    ensures DeclaredExpression(CloneSchema(name, root), name) == CloneNode(root)
  {
    var open := DeclarationOpen + name + DeclarationBind;
    WrappedContents(open, CloneNode(root), ";");
    ReadOpening(open, CloneNode(root) + ";");
    assert open + CloneNode(root) + ";" == open + (CloneNode(root) + ";");
  }

  // ---------------------------------------------------------------------------
  // Line structure

  /** No line feed in any field name, type name or definition of the tree. */
  predicate SingleLineTexts(node: Node)
    decreases node
  {
    match node
    case Object(shape) => forall i :: 0 <= i < |shape| ==> '\n' !in shape[i].0 && SingleLineTexts(shape[i].1)
    case Optional(inner) => SingleLineTexts(inner)
    case Nullable(inner) => SingleLineTexts(inner)
    case Array(element) => SingleLineTexts(element)
    case Leaf(typeName, definition) => '\n' !in typeName && '\n' !in definition
  }

  /** The engine adds no line feed of its own, so a declaration is one line. */
  lemma {:induction false} CloneNoNewline(node: Node)
    requires SingleLineTexts(node)
    ensures '\n' !in CloneNode(node)
    decreases node, 1
  {
    match node
    case Object(shape) =>
      FieldsNoNewline(node);
      JoinWithout('\n', FieldSeparator, FieldTexts(node));
    case Optional(inner) => CloneNoNewline(inner);
    case Nullable(inner) => CloneNoNewline(inner);
    case Array(element) => CloneNoNewline(element);
    case Leaf(typeName, definition) =>
      RepairTypeNamesNoNewline(LeafText(typeName, definition));
      RepairRegexesNoNewline(RepairTypeNames(LeafText(typeName, definition)));
  }

  lemma {:induction false} FieldsNoNewline(node: Node)
    requires node.Object? && SingleLineTexts(node)
    ensures forall i :: 0 <= i < |node.shape| ==> '\n' !in FieldTexts(node)[i]
    decreases node, 0
  {
    forall i | 0 <= i < |node.shape| ensures '\n' !in FieldTexts(node)[i] {
      CloneNoNewline(node.shape[i].1);
    }
  }

  lemma DeclarationNoNewline(name: string, root: Node)
    requires '\n' !in name && SingleLineTexts(root)
    ensures '\n' !in CloneSchema(name, root)
  {
    CloneNoNewline(root);
  }
}
