/** The registry, class `ZodCloneStore` (src/index.ts:11-36): named schemas in insertion
    order, and the text of the module `clone` writes out. */
module Store {
  import opened Text
  import opened Clone

  /** The first line of every generated module. */
  const ImportLine: string := "import { z } from \"zod\";"

  /** The declarations of `entries`, one per entry and in the same order. */
  function Declarations(entries: seq<(string, Node)>): (ds: seq<string>)
    ensures |ds| == |entries|
    ensures forall i :: 0 <= i < |entries| ==> ds[i] == CloneSchema(entries[i].0, entries[i].1)
    decreases |entries|
  {
    if entries == [] then []
    else [CloneSchema(entries[0].0, entries[0].1)] + Declarations(entries[1..])
  }

  /** The content `clone` builds: the import line, the prefix, an empty line, then the
      declarations joined by line feeds. */
  function ExportText(prefix: string, entries: seq<(string, Node)>): (content: string) {
    Assemble(prefix, Declarations(entries))
  }

  function Header(prefix: string): (header: string) {
    ImportLine + "\n" + prefix + "\n\n"
  }

  /** The module text around a list of declarations. */
  function Assemble(prefix: string, declarations: seq<string>): (content: string) {
    Header(prefix) + Join("\n", declarations)
  }

  /** `Array.from(store.entries())` for a map whose keys, in insertion order, are `keys`. */
  function EntriesOf(keys: seq<string>, store: map<string, Node>): (es: seq<(string, Node)>)
    requires forall i :: 0 <= i < |keys| ==> keys[i] in store
    ensures |es| == |keys|
    ensures forall i :: 0 <= i < |keys| ==> es[i].0 == keys[i] && es[i].1 == store[keys[i]]
    decreases |keys|
  {
    if keys == [] then []
    else [(keys[0], store[keys[0]])] + EntriesOf(keys[1..], store)
  }

  /** `keys` with `name` taken out, the others kept in order. */
  function Without(keys: seq<string>, name: string): (r: seq<string>)
    ensures forall k :: k in r <==> k in keys && k != name
    decreases |keys|
  {
    if keys == [] then []
    else if keys[0] == name then Without(keys[1..], name)
    else [keys[0]] + Without(keys[1..], name)
  }

  predicate Distinct(keys: seq<string>) {
    forall i, j :: 0 <= i < j < |keys| ==> keys[i] != keys[j]
  }

  /** Taking out a key that is not there changes nothing. */
  lemma {:induction false} WithoutAbsent(keys: seq<string>, name: string)
    requires name !in keys
    ensures Without(keys, name) == keys
    decreases |keys|
  {
    if keys != [] {
      WithoutAbsent(keys[1..], name);
    }
  }

  /** Taking out the key at position `j` of a list without repeats closes the gap: the keys
      before it and after it keep their order. */
  lemma {:induction false} WithoutAt(keys: seq<string>, j: nat)
    requires Distinct(keys) && j < |keys|
    ensures Without(keys, keys[j]) == keys[..j] + keys[j + 1..]
    decreases j
  {
    if j == 0 {
      assert keys[j] !in keys[1..];
      WithoutAbsent(keys[1..], keys[0]);
    } else {
      assert Distinct(keys[1..]);
      WithoutAt(keys[1..], j - 1);
      assert keys[1..][j - 1] == keys[j];
      assert keys[1..][..j - 1] == keys[1..j];
      assert keys[1..][j..] == keys[j + 1..];
      assert keys[..j] == [keys[0]] + keys[1..j];
    }
  }

  lemma {:induction false} WithoutDistinct(keys: seq<string>, name: string)
    requires Distinct(keys)
    ensures Distinct(Without(keys, name))
    decreases |keys|
  {
    if keys != [] {
      assert Distinct(keys[1..]);
      WithoutDistinct(keys[1..], name);
      assert keys[0] !in keys[1..];
    }
  }

  /** The registry. `keys` is the insertion order of the JavaScript `Map`, `store` its
      contents. */
  class CloneStore {
    var keys: seq<string>
    var store: map<string, Node>
    const generatedPrefix: string

    /** Each key is listed once, and the listed keys are exactly the stored names. */
    ghost predicate Valid()
      reads this
    {
      Distinct(keys) && forall k :: k in store <==> k in keys
    }

    /** The entries in export order. */
    function Entries(): (entries: seq<(string, Node)>)
      reads this
      requires Valid()
    {
      EntriesOf(keys, store)
    }

    /** An omitted prefix, like an empty one, becomes `""`. */
    constructor (generatedPrefix: Option<string>)
      ensures Valid()
      ensures keys == [] && store == map[]
      ensures this.generatedPrefix == if generatedPrefix.Some? then generatedPrefix.value else ""
    {
      keys := [];
      store := map[];
      this.generatedPrefix := if generatedPrefix.Some? then generatedPrefix.value else "";
    }

    /** `Map.set`: a new name goes last in export order; an existing one keeps its place and
        gets the new schema. The schema is given back unchanged. */
    method Add(name: string, schema: Node) returns (added: Node)
      requires Valid()
      modifies this
      ensures Valid()
      ensures added == schema
      ensures store == old(store)[name := schema]
      ensures keys == if name in old(store) then old(keys) else old(keys) + [name]
    {
      if name !in store {
        keys := keys + [name];
      }
      store := store[name := schema];
      added := schema;
    }

    /** `Map.delete`: only `name` goes, the others keep their order; an absent name is
        no error and changes nothing. */
    method Remove(name: string)
      requires Valid()
      modifies this
      ensures Valid()
      ensures store == old(store) - {name}
      ensures keys == Without(old(keys), name)
    {
      WithoutDistinct(keys, name);
      keys := Without(keys, name);
      store := store - {name};
    }

    method Clear()
      modifies this
      ensures Valid()
      ensures keys == [] && store == map[]
    {
      keys := [];
      store := map[];
    }

    /** The content `clone` writes to its output file. */
    method Clone() returns (content: string)
      requires Valid()
      ensures content == ExportText(generatedPrefix, Entries())
    {
      content := ExportText(generatedPrefix, EntriesOf(keys, store));
    }
  }

  // ---------------------------------------------------------------------------
  // The exported text

  /** With nothing registered the output is the import line, the prefix and an empty line. */
  lemma ExportEmpty(prefix: string)
    ensures ExportText(prefix, []) == ImportLine + "\n" + prefix + "\n\n"
  {
    assert Declarations([]) == [];
  }

  lemma LinesOfModule(first: string, prefix: string, body: string)
    requires '\n' !in first
    ensures Lines(first + "\n" + prefix + "\n\n" + body) == [first] + Lines(prefix) + [""] + Lines(body)
  {
    var b1 := "" + "\n" + body;
    var b2 := prefix + "\n" + b1;
    assert first + "\n" + prefix + "\n\n" + body == first + "\n" + b2;
    LinesConcat(first, b2);
    LinesConcat(prefix, b1);
    LinesConcat("", body);
    LinesSingle(first);
    LinesSingle("");
    Reassociate([first], Lines(prefix), [""], Lines(body));
  }

  lemma Reassociate(a: seq<string>, b: seq<string>, c: seq<string>, d: seq<string>)
    ensures a + (b + (c + d)) == a + b + c + d
  {
  }

  lemma AssembleLines(prefix: string, ds: seq<string>)
    requires |ds| > 0 && forall i :: 0 <= i < |ds| ==> '\n' !in ds[i]
    ensures Lines(Assemble(prefix, ds)) == [ImportLine] + Lines(prefix) + [""] + ds
  {
    LinesOfJoin(ds);
    assert '\n' !in ImportLine;
    LinesOfModule(ImportLine, prefix, Join("\n", ds));
  }

  /** Line by line, the output is the import line, the prefix's lines, one empty line, then one
      declaration per entry in export order, when no name or text holds a line feed. */
  lemma ExportLines(prefix: string, entries: seq<(string, Node)>)
    requires |entries| > 0
    requires forall i :: 0 <= i < |entries| ==> '\n' !in entries[i].0 && SingleLineTexts(entries[i].1)
    ensures Lines(ExportText(prefix, entries)) == [ImportLine] + Lines(prefix) + [""] + Declarations(entries)
  {
    var ds := Declarations(entries);
    forall i | 0 <= i < |ds| ensures '\n' !in ds[i] {
      DeclarationNoNewline(entries[i].0, entries[i].1);
    }
    AssembleLines(prefix, ds);
  }

  lemma AssembleAt(prefix: string, ds: seq<string>, i: nat)
    requires i < |ds|
    ensures InfixAt(ds[i], Assemble(prefix, ds), |Header(prefix)| + JoinOffset("\n", ds, i))
  {
    JoinAt("\n", ds, i);
    WrappedInfix(Header(prefix), Join("\n", ds), "", ds[i], JoinOffset("\n", ds, i));
    assert Header(prefix) + Join("\n", ds) + "" == Assemble(prefix, ds);
  }

  /** Declaration `i` (the declaration of entry `i`, by the contract of `Declarations`) sits
      verbatim in the output, after the header and every earlier declaration. */
  lemma ExportDeclarationAt(prefix: string, entries: seq<(string, Node)>, i: nat)
    requires i < |entries|
    ensures InfixAt(Declarations(entries)[i], ExportText(prefix, entries),
                    |Header(prefix)| + JoinOffset("\n", Declarations(entries), i))
  {
    AssembleAt(prefix, Declarations(entries), i);
  }

  // ---------------------------------------------------------------------------
  // The registry's promised behaviour, as call sequences

  /** Adding and then removing a name leaves no entry for it, and removing it again is no
      error. */
  method AddThenRemove(s: CloneStore, name: string, schema: Node)
    requires s.Valid()
    modifies s
    ensures s.Valid() && name !in s.store && name !in s.keys
    ensures forall i :: 0 <= i < |s.Entries()| ==> s.Entries()[i].0 != name
  {
    var _ := s.Add(name, schema);
    s.Remove(name);
    s.Remove(name);
  }

  /** Adding a name twice leaves one entry for it, with the second schema. */
  method AddTwice(s: CloneStore, name: string, first: Node, second: Node)
    requires s.Valid()
    modifies s
    ensures s.Valid() && name in s.store && s.store[name] == second
    ensures exists i :: 0 <= i < |s.keys| && s.keys[i] == name
    ensures forall i, j :: 0 <= i < j < |s.keys| ==> s.keys[i] != s.keys[j]
  {
    var _ := s.Add(name, first);
    var _ := s.Add(name, second);
  }

  /** A fresh registry with a prefix exports just the header and the prefix. */
  method PrefixOnly(prefix: string) returns (content: string)
    ensures content == ImportLine + "\n" + prefix + "\n\n"
  {
    var s := new CloneStore(Some(prefix));
    content := s.Clone();
    assert s.Entries() == [];
    ExportEmpty(prefix);
  }
}
