# zod-clone, modelled in Dafny

zod-clone turns zod schemas built at run time into TypeScript source that rebuilds them. It has two parts:

- The clone engine (`cloneZodSchema` and its inner `cloneZodObject`). It walks a schema tree:
  - objects, optionals, nullables and arrays are printed as `z.object({…})`, `z.optional(…)`, `z.nullable(…)` and `z.array(…)` around their children's expressions;
  - every other schema is a leaf. A leaf is printed as `new z.<typeName>(<JSON of its definition>)`, and then two textual repairs are applied to that text:
    - a quoted `"typeName":"ZodX"` becomes the enum member `z.ZodFirstPartyTypeKind.ZodX`;
    - a quoted `"regex":"/…/"`, with a capture running to the last `/"` on its line, becomes `"regex":/…/`. This gives back the original regular-expression literal only for a pattern without flags, without `\` and without `"` (see "## Left out").
- The registry (`ZodCloneStore`). It keeps named schemas in insertion order. Its `clone` writes one module: the import line, the caller's prefix, an empty line, then one `export const` declaration per schema.

The project has four modules:

- `Text` (`text.dfy`): `Array.prototype.join`, `split("\n")` and the infix relation used to state where one text sits in another.
- `Repair` (`repair.dfy`): both repairs as exact models of `String.prototype.replace` with a global regular expression. The text is scanned left to right, with non-overlapping matches. The type-name pattern matches the maximal word run. The regex pattern's `.+` is greedy, so its capture runs to the last `/"` before a line terminator.
- `Clone` (`clone.dfy`): the schema tree as a datatype `Node`, and the engine as the functions `CloneNode` and `CloneSchema`.
- `Store` (`store.dfy`): the registry as a class `CloneStore`. The JavaScript `Map` is two fields: `keys`, the insertion order, and `store`, the map itself. `ExportText` is the text `clone` writes.

What is proved:

- A repaired leaf never holds a quoted `"typeName":"Zod…"`. Neither the second repair nor anything the engine prints around a leaf can create one again. The first repair is idempotent.
- The kind of every node can be read back from its expression. An expression holds exactly its child's expression, or exactly its fields joined by `,`. Fields appear verbatim, in shape order and one `,` apart. The expression of every subtree appears inside the expression of the whole tree.
- A declaration gives back its expression.
- Add, remove and clear keep the registry consistent: each name is listed once, and the listed names are the stored ones. Add replaces an existing schema in place. Remove keeps the order of the other entries.
- The exported module, line by line, is the import line, the prefix's lines, an empty line, and one declaration per entry in insertion order. This holds when there is at least one entry and no name, field name, type name or definition holds a line feed. With no entries the module is just the header. Each declaration sits verbatim at a known offset.

With no prefix given (src/index.ts:16), the output still has an empty line where the prefix goes (src/index.ts:33); see Store.ExportEmpty.

## Model

| member | source | states |
|---|---|---|
| Repair.IsTypeNameMatch | src/index.ts:8 | the pattern `/"typeName":"(Zod[A-Za-z0-9_]+)"/` matches exactly the first `n` characters: `"typeName":"Zod`, one or more word characters, then `"` |
| Repair.RepairTypeNames | src/index.ts:57 | the global type-name `replace`: scanning left to right, each match is replaced by `"typeName":z.ZodFirstPartyTypeKind.` and its capture `$1`, and scanning resumes after it; elsewhere one character is copied. Its contract is carried by the lemmas below |
| Repair.NoTypeNameLiteral | src/index.ts:8 | the type-name pattern matches at no position of the text |
| Repair.IsRegexMatch | src/index.ts:9 | the pattern `/"regex":"\/(.+)\/"/` matches at the start with a capture of `k` characters: `"regex":"/`, `k` characters that are not line terminators, then `/"` |
| Repair.RepairRegexes | src/index.ts:58 | the global regex `replace`: each match is replaced by `"regex":/`, its capture `$1` and `/`, and scanning resumes after it; elsewhere one character is copied. Its contract is carried by the lemmas below |
| Repair.NoRegexLiteral | src/index.ts:9 | the regex pattern matches at no position of the text |
| Repair.TypeNameMatch | src/index.ts:8 | a match of `/"typeName":"(Zod[A-Za-z0-9_]+)"/` at the start of the text is the declared prefix, a non-empty word-character run and a closing quote, and such a match is the only one possible there |
| Repair.RegexMatch | src/index.ts:9 | a match of `/"regex":"\/(.+)\/"/` at the start of the text has a non-empty capture free of line terminators followed by `/"`, and the capture chosen is the longest such one (greedy `.+`) |
| Repair.WordRun | src/index.ts:8 | the run is made of word characters `[A-Za-z0-9_]` and is maximal |
| Repair.LineLength | src/index.ts:9 | the span `.` can reach holds no line terminator and stops at the first one |
| Repair.LastClose | src/index.ts:9 | the result is a `/"` inside the reachable span, and no later `/"` in that span exists |
| Repair.FirstTypeNameMatch | src/index.ts:57 | the scan position where the global type-name replace first fires; no match starts earlier |
| Repair.FirstRegexMatch | src/index.ts:58 | the scan position where the global regex replace first fires; no match starts earlier |
| Repair.TypeNameMatchLocal | src/index.ts:8 | whether the type-name pattern matches depends only on the characters it matched |
| Repair.TypeNameMatchAlphabet | src/index.ts:8 | a type-name match consists of `"`, `:` and word characters, and its capture of word characters |
| Repair.TypeNameMatchQuotes | src/index.ts:8 | inside a type-name match, quotes sit only at the fixed places of the pattern |
| Repair.RepairTypeNamesCopiesPrefix | src/index.ts:57 | text before the first match is copied unchanged by the type-name replace |
| Repair.RepairTypeNamesAtMatch | src/index.ts:57 | at a match, the type-name replace writes `"typeName":z…`, opening with `"t` |
| Repair.RepairTypeNamesFromFirstMatch | src/index.ts:57 | the type-name replace of the text from its first match is empty, or opens with `"t` |
| Repair.TypeNameRepairComplete | src/index.ts:56-57 | after the type-name replace no `"typeName":"Zod…"` literal is left anywhere in the text, for every input |
| Repair.TypeNameRepairCompleteAtMatch | src/index.ts:57 | the match step of that proof: the replacement cannot form a new literal with what follows |
| Repair.TypeNameRepairCompleteAtCopy | src/index.ts:57 | the copy step of that proof: a copied character cannot start a new literal |
| Repair.ReplacementHasNoTypeNameLiteral | src/index.ts:57 | the text `"typeName":z.ZodFirstPartyTypeKind.ZodX` holds no type-name literal |
| Repair.TypeNameRepairIdentity | src/index.ts:57 | on a text with no type-name literal, the replace changes nothing |
| Repair.TypeNameRepairIdempotent | src/index.ts:57 | applying the type-name replace twice is the same as applying it once |
| Repair.QuoteFreePrefixRepairTypeNames | src/index.ts:57 | a leading part without `"` passes through the type-name replace unchanged |
| Repair.TypeNameRepairOne | src/index.ts:57 | `"typeName":"ZodX"` becomes `"typeName":z.ZodFirstPartyTypeKind.ZodX` (closing quote dropped, `$1` = `ZodX`) and the scan goes on after it |
| Repair.RepairTypeNamesKeepsLast | src/index.ts:57 | a last character other than `"` is still the last character after the replace |
| Repair.RepairTypeNamesNoNewline | src/index.ts:57 | the type-name replace adds no line feed |
| Repair.RepairRegexesCopiesPrefix | src/index.ts:58 | text before the first match is copied unchanged by the regex replace |
| Repair.RepairRegexesAtMatch | src/index.ts:58 | at a match, the regex replace writes `"regex":/…`, opening with `"r` |
| Repair.RepairRegexesFromFirstMatch | src/index.ts:58 | the regex replace of the text from its first match is empty, or opens with `"r` |
| Repair.RegexRepairKeepsNoTypeNameLiteral | src/index.ts:56-58 | the regex replace, applied second, never creates a `"typeName":"Zod…"` literal |
| Repair.RegexRepairKeepsAtMatch | src/index.ts:58 | the match step of that proof: `"regex":/`, the capture and `/` join at seams where `/` stops any type-name match |
| Repair.RegexRepairIdentity | src/index.ts:58 | on a text where the regex pattern matches nowhere, the replace changes nothing |
| Repair.QuoteFreePrefixRepairRegexes | src/index.ts:58 | a leading part without `"` passes through the regex replace unchanged |
| Repair.RepairRegexesKeepsLast | src/index.ts:58 | a last character other than `"` is still the last character after the replace |
| Repair.RepairRegexesNoNewline | src/index.ts:58 | the regex replace adds no line feed |
| Repair.RegexMatchAlone | src/index.ts:9 | the capture of a value alone on its line, with no `/"` inside it or later on the line, is exactly the value |
| Repair.RegexRepairOne | src/index.ts:58 | such a `"regex":"/p/"` becomes `"regex":/p/` and the scan goes on after it |
| Repair.RegexRepairToLastClose | src/index.ts:9 | the capture runs to the last `/"` on the line, whatever lies between |
| Repair.RegexRepairMergesValuesOnOneLine | src/index.ts:9 | two regex values on one line are taken as one capture: neither becomes a literal of its own (the substitution-collision risk of textual repair) |
| Repair.RegexRepairExample | src/index.ts:58 | the stringified pattern `"/^[a-z]+$/"` becomes the literal `/^[a-z]+$/` |
| Clone.FieldText | src/index.ts:47 | one field printed as `key: value` |
| Clone.LeafText | src/index.ts:55 | the leaf text before the repairs, `new z.<typeName>(<definition>)` |
| Clone.CloneNode | src/index.ts:44-60 | every cloned expression ends with `)`; total on every schema: the leaf branch takes whatever is not an object, optional, nullable or array |
| Clone.FieldTexts | src/index.ts:46-47 | one printed field per shape entry |
| Clone.CloneSchema | src/index.ts:62 | every declaration ends with `);` |
| Clone.ReadKind | src/index.ts:45-55 | a kind is read only from an expression that opens with that kind's constructor text |
| Clone.ReadKindOfObjectText | src/index.ts:47 | text opening `z.object({` reads as an object |
| Clone.ReadKindOfOptionalText | src/index.ts:49 | text opening `z.optional(` reads as an optional |
| Clone.ReadKindOfNullableText | src/index.ts:51 | text opening `z.nullable(` reads as a nullable |
| Clone.ReadKindOfArrayText | src/index.ts:53 | text opening `z.array(` reads as an array |
| Clone.ReadKindOfLeafText | src/index.ts:55 | text opening `new z.` reads as a leaf |
| Clone.LeafOpensWithNew | src/index.ts:55-58 | a leaf's expression opens with `new z.`: neither repair reaches text before the first `"` |
| Clone.KindOfClone | src/index.ts:45-59 | the kind of each node can be read back from its expression, so the five branches never print the same thing |
| Clone.ContentsOfClone | src/index.ts:47-53 | an optional, nullable or array expression holds exactly its child's expression; an object expression holds exactly its fields joined by `,` |
| Clone.ObjectFieldAt | src/index.ts:46-47 | field `i` is printed verbatim as `key: <clone of value>` at its offset |
| Clone.ObjectFieldsInOrder | src/index.ts:46-47 | fields follow one another in shape order, one `,` apart |
| Clone.EmptyObject | src/index.ts:47 | an object with no fields prints as `z.object({})` |
| Clone.LeafRepairsOnlyDefinition | src/index.ts:55-58 | with a type name free of `"`, the repairs touch only the definition text and the `)` after it |
| Clone.SubtreeCloneAppears | src/index.ts:44-53 | the expression of every subtree appears verbatim in the expression of the whole tree |
| Clone.CloneHasNoTypeNameLiteral | src/index.ts:44-59 | when no field name contains `"`, no `"typeName":"Zod…"` literal is left anywhere in an expression |
| Clone.FieldsHaveNoTypeNameLiteral | src/index.ts:46-47 | the same for every printed field of an object |
| Clone.JoinHasNoTypeNameLiteral | src/index.ts:47 | joining literal-free fields with `,` forms no literal |
| Clone.WrappedHasNoTypeNameLiteral | src/index.ts:47-53 | wrapping a literal-free expression in a constructor call forms no literal |
| Clone.DeclarationHasNoTypeNameLiteral | src/index.ts:62 | the same for the whole declaration, when the variable name holds no `"` |
| Clone.DeclarationRoundTrip | src/index.ts:62 | a declaration opens with `export const <name> = ` and gives back exactly the node's expression |
| Clone.CloneNoNewline | src/index.ts:44-59 | the engine adds no line feed, so an expression is one line when the names and definitions are |
| Clone.FieldsNoNewline | src/index.ts:46-47 | the same for every printed field of an object |
| Clone.DeclarationNoNewline | src/index.ts:62 | a declaration is one line under the same condition |
| Store.Declarations | src/index.ts:33 | one declaration per entry, in entry order, each `cloneZodSchema(name, schema)` |
| Store.EntriesOf | src/index.ts:33 | `Array.from(store.entries())`: the entries in key-insertion order, each with its stored schema |
| Store.Without | src/index.ts:25 | the key order after `Map.delete`: exactly the other keys are left |
| Store.WithoutAbsent | src/index.ts:25 | deleting an absent key leaves the order unchanged |
| Store.WithoutAt | src/index.ts:25 | deleting the key at position `j` closes the gap; the keys before and after keep their order |
| Store.WithoutDistinct | src/index.ts:25 | deleting keeps the keys free of repeats |
| Store.CloneStore.constructor | src/index.ts:15-17 | an empty registry; an omitted prefix becomes `""` |
| Store.CloneStore.Add | src/index.ts:19-22 | `Map.set`: the schema is stored under the name; a new name goes last in order, an existing one keeps its place; the schema is returned; consistency is kept |
| Store.CloneStore.Remove | src/index.ts:24-26 | `Map.delete`: only the name goes, the other keys keep their order; consistency is kept |
| Store.CloneStore.Clear | src/index.ts:28-30 | `Map.clear`: the registry is empty |
| Store.CloneStore.Clone | src/index.ts:32-33 | the content is the export text of the prefix and the entries in insertion order |
| Store.Header | src/index.ts:33 | the import line, a line feed, the prefix and two line feeds |
| Store.Assemble | src/index.ts:33 | the header followed by the declarations joined by line feeds |
| Store.ExportText | src/index.ts:33 | the `content` of `clone` for a prefix and a list of entries, given its meaning by ExportEmpty, ExportLines and ExportDeclarationAt |
| Store.ExportEmpty | src/index.ts:33 | with nothing registered, the content is `import { z } from "zod";\n` + prefix + `\n\n` |
| Store.ExportLines | src/index.ts:33 | for at least one entry, and no line feed in any entry name, field name, type name or definition: line by line, the content is the import line, the prefix's lines, one empty line, then one declaration per entry in order |
| Store.AssembleLines | src/index.ts:33 | the same for any list of single-line declarations |
| Store.AssembleAt | src/index.ts:33 | declaration `i` sits verbatim after the header and the declarations before it |
| Store.ExportDeclarationAt | src/index.ts:33 | the same for the content `clone` builds |
| Store.LinesOfModule | src/index.ts:33 | the lines of `first\nprefix\n\nbody` |
| Store.AddThenRemove | src/index.ts:19-26 | after adding a name and removing it (twice), no entry bears that name and the registry stays consistent |
| Store.AddTwice | src/index.ts:19-22 | adding a name twice leaves one listing of it, holding the second schema |
| Store.PrefixOnly | src/index.ts:33 | a fresh registry with a prefix exports just the header and the prefix |
| Text.Join | src/index.ts:33 | `Array.prototype.join`: the parts in order with the separator between neighbours, stated by JoinAt, JoinOffsetsAdvance and JoinSplit |
| Text.Lines | src/index.ts:33 | `split("\n")`: never empty, stated by LinesConcat, LinesSingle and LinesOfJoin |
| Text.JoinAt | src/index.ts:47 | part `i` of a join sits verbatim at its offset |
| Text.JoinOffsetsAdvance | src/index.ts:47 | joined parts appear in order, one separator apart |
| Text.JoinSplit | src/index.ts:33 | a join splits into the join of its two halves |
| Text.LinesOfJoin | src/index.ts:33 | the lines of single-line texts joined by line feeds are those texts |
| Text.LinesConcat | src/index.ts:33 | lines split at a line feed |

## Left out

- Writing the file (`writeFileSync` and the output path, src/index.ts:34) is I/O. The model stops at the content string, and an I/O error is not modelled.
- The patch of `RegExp.prototype.toJSON` (src/index.ts:4-6) is not modelled as code: a compiled pattern reaches the model only through the definition text, as the JSON string of its `toString()`. The regex repair is modelled on that text exactly as written, and so it carries the code's hazards:
- A pattern with flags is stringified as `"/p/i"`. No `/"` follows the pattern, so the repair leaves the value quoted, or, when a later `/"` stands on the same line, the greedy capture runs on to it.
- `JSON.stringify` doubles every `\` of a pattern and escapes every `"`. The repair copies the capture as it is, so `\d` comes out as `/\\d/`, a different pattern.
- `JSON.stringify(obj._def)` is not modelled. A leaf carries the JSON text as its `definition` string, and the repairs work on that text for every possible value.
- `Object.entries` puts integer-like keys first. The model takes the object's shape to be already in that order.
- The TypeScript types restrict a registered root to `ZodObject`. The model accepts any `Node` as root, because the engine itself handles every kind.
- `instanceof` checks are modelled as the constructors of `Node`. Subclassing is not modelled.
- Field names and variable names are printed without escaping, as in the source. Whether the output is valid TypeScript is not modelled.
- Strings are sequences of characters. UTF-16 surrogate pairs are not distinguished; the patterns involved are ASCII apart from the line terminators.
- A missing `_def.typeName` is not modelled: the template at src/index.ts:55 would print it as `undefined`, while a leaf of the model always has a type name string.
- `JSON.stringify` can throw, for example on a bigint in a leaf's `_def` (`z.bigint().min(1n)`), which aborts `cloneZodSchema` and the whole `clone`. This is not modelled: a leaf always carries a definition string.
- Evaluating the generated code, and the round trip through it (rebuilding an equal schema, and cloning that again to get the same text), would need a model of zod itself. The model proves the textual facts instead: kinds and children can be read back, and the quoted forms the repairs target are gone.
- Two regex values on one line merge into one capture (`Repair.RegexRepairMergesValuesOnOneLine`). This false-positive substitution is stated as the behaviour of the code and is not corrected, because the textual repair is the documented behaviour.
- In the regex example, the reconstructed pattern accepting `"abc"` and rejecting `"123"` is about running the pattern. It is not modelled; Repair.RegexRepairExample states only the textual part.
