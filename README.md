# Vulkan bindings generator (build.rs), modelled in Dafny

The repository's build script reads the Vulkan registry (`vk.xml`) and generates
`src/bindings.rs`. Its `main` works in two passes.

It first walks the children of the document root once, in document order, to extract:

- the flat constants of the `enums` group named `API Constants`, into a map keyed by name. A
  child with `type`, `value` and `name` is a constant. A child with `name` and `alias` copies
  the type and value of a constant already in the map. An alias whose target is not yet known
  stops the build, and so does a child of neither shape.
- one enum group per other named `enums` node. A group keeps the members whose `value` parses
  as an `i32`, in a map keyed by name.
- the handles declared under `types` by the children whose `category` is `handle`. A handle's
  kind is the text of its last `type` child whose first child is text, and its name is the text
  of its last such `name` child. A handle missing either text is skipped.

It then emits, in order:

- the handle section: a comment naming the handle kind, then an opaque pointer alias and a blank
  line. An unknown kind stops the build.
- the constants section: one `pub const NAME: u32 = v;` line per `uint32_t` constant whose value
  parses as a `u32`, with the name upper-cased.
- a blank line.
- one block per enum group: a header comment, one `pub const N: i32 = v;` line per member and a
  blank line.

The model is written as follows:

- `Tree` is the parsed document. `Literals` models the integer parsing and printing the script
  relies on (Rust's `parse::<i32>`, `parse::<u32>` and `Display`) and ASCII upper-casing.
  `Entities` holds the extracted records and the three ways the script panics, as `BuildError`
  variants.
- `Extract` holds the extraction walk as an imperative method, `Extract.Extract`. It is proved
  equal to a reference definition, `ExtractSpec`, which is made of three independent folds over
  the root's children, built from the generic folds in `Folds`. `ExtractFacts` proves what those
  folds mean:
  - which names end up in the constant map, and from which child;
  - that the last declaration of a name wins;
  - which child stops the build;
  - the member maps and the order of the groups;
  - where each handle comes from.
- `Emit` holds the emitter as methods, proved equal to the reference definition `Output`.
  `EmitFacts` proves what each section contains.
- `Build.Build` chains the two passes.

Rust leaves the iteration order of the two kinds of hash map unspecified: the constant map and
each group's member map. The emitter methods therefore report the key order they used, as an
`Ordering`. Every property is stated for any order that lists each key exactly once.

As a result, constants and enum members come out in an unspecified order, which can change from
one build to the next. An alias resolves only against constants that come earlier in the
document, so a forward alias stops the build. The model follows the code in both respects.
`ExtractFacts.ConstantsFoldOutcome` and `Extract.FailureStopsExtraction` state the order
dependence of alias resolution.

## Model

| member | source | states |
|---|---|---|
| Tree.TagText | build.rs:116-130 | A child yields a text if and only if it is an element with the requested tag whose first child is text, and the text is that first child's |
| Literals.ParseI32 | build.rs:83 | An accepted `i32` literal denotes a value between -2^31 and 2^31-1 |
| Literals.ParseU32 | build.rs:180 | An accepted `u32` literal denotes a value between 0 and 2^32-1 |
| Literals.NatToDecimal | build.rs:181 | The printed form of a natural number is a non-empty run of digits with no leading zero |
| Literals.IntToDecimal | build.rs:192 | The printed form of an integer is non-empty and starts with `-` exactly when the integer is negative |
| Literals.ParseU32OfDecimal | build.rs:180-181 | Every `u32` the generator prints parses back as the same value |
| Literals.ParseI32OfDecimal | build.rs:192 | Every `i32` the generator prints for an enum member parses back as the same value |
| Literals.SignRules | build.rs:83 | A lone `+` or `-` is rejected by both parsers, and a leading `-` is rejected by the unsigned one |
| Literals.ParseU32Canonical | build.rs:180-181 | An accepted value text is digits after an optional `+`, and its value is those digits' decimal value (so `+007` is 7); the decimal printed for it parses back to the same `u32` |
| Literals.UpperAscii | build.rs:181 | Upper-casing keeps the length, leaves no lower-case ASCII letter, shifts each lower-case letter by 32 and keeps every other character |
| Extract.ConstantStep | build.rs:46-66 | A constants child fails exactly when it is an element that is not a direct constant and is not an alias of a constant already known. A successful element child binds its `name` to a record carrying that name and changes no other binding. A non-element child changes nothing |
| Extract.ConstantsFoldAppend | build.rs:44-68 | Processing two runs of constants children is processing the first run and then continuing from its map with the second; an error in the first run is final |
| Extract.FailureStopsExtraction | build.rs:61-66 | Once a constants child fails, extraction fails with that child's error, whatever follows it in the document |
| Extract.AddConstants | build.rs:44-68 | The constants loop yields exactly the reference fold of the group's children over the map gathered so far, including its first error |
| Extract.ReadEnum | build.rs:74-91 | The enum loop yields the group with the given name and the member map of the reference definition |
| Extract.ReadHandle | build.rs:113-138 | The handle scan yields the handle of the reference definition, the last `type` and `name` texts, or nothing when either is missing |
| Extract.ReadTypes | build.rs:98-150 | The `types` loop yields the handles of the `handle`-category children, in document order |
| Extract.Extract | build.rs:27-156 | The whole extraction walk yields the reference result: the constant map or the first error, the enum groups and the handles |
| ExtractFacts.ConstantsFoldKeys | build.rs:44-68 | After a successful pass, a name is a key of the constant map if and only if it was already there or some child of the group declares it |
| ExtractFacts.ConstantsFoldNames | build.rs:47-59 | Every constant record carries the name it is keyed under |
| ExtractFacts.ConstantsFoldUndeclared | build.rs:44-68 | A name that no child declares keeps its earlier binding, or stays absent |
| ExtractFacts.ConstantsFoldLastWins | build.rs:46-60 | The last child declaring a name decides its record. If that child is direct, the record holds its type and value. Otherwise it is an alias whose target was known just before it, and the record holds the target's type and value at that point |
| ExtractFacts.ConstantsFoldOutcome | build.rs:53-66 | The pass succeeds if and only if no child is rejected. A child is rejected when it is neither shape, or an alias whose target is neither in the initial map nor declared by an earlier child. On failure the error names the first rejected child |
| ExtractFacts.MemberValuesKeys | build.rs:79-89 | A name is in a group's member map if and only if some child is an element with that `name` and a `value` that parses as `i32` |
| ExtractFacts.MemberValuesSkipsUnparsed | build.rs:82-85 | A name whose every child with a `value` carries one that `parse::<i32>` rejects (hexadecimal, an expression) is not in the member map |
| ExtractFacts.MemberValuesLastWins | build.rs:79-89 | A member's value is the one parsed from the last child with that `name` whose `value` parses; later children with that name do not |
| ExtractFacts.MemberValuesInRange | build.rs:83-84 | Every member value lies in the `i32` range |
| ExtractFacts.EnumGroupsSpec | build.rs:34-92 | There is one group per non-constants named `enums` child, and that child's group is at the position given by how many such children come before it |
| ExtractFacts.HandleOfSpec | build.rs:113-138 | A `handle` node yields a handle if and only if it has both a `type` text and a `name` text. The handle's kind and name are the texts of the last such children |
| ExtractFacts.TypesHandlesSpec | build.rs:98-150 | A handle is collected from a `types` node if and only if some `handle`-category child yields it |
| ExtractFacts.HandlesSpec | build.rs:97-153 | A handle is extracted if and only if it is collected from some `types` child of the root |
| ExtractFacts.TypesHandlesOrder | build.rs:98-138 | A `types` node yields exactly one handle per `handle`-category child that has both texts, and child `j`'s handle is at the position given by how many such children come before it |
| ExtractFacts.HandlesSplit | build.rs:32-156 | The handle list is the handles of the root children before `i`, then those of child `i` when it is a `types` node, then those of the children after it |
| Emit.KindsOneToOne | build.rs:165-172 | The two kind texts and the two handle kinds correspond one to one, and every other text names no kind |
| Emit.ConstantDecl | build.rs:179-182 | A constant gets a line if and only if its type is `uint32_t` and its value parses as `u32` |
| Emit.EmitHandles | build.rs:164-174 | The handle loop yields the reference handle section: its lines or the first unknown kind |
| Emit.EmitConstants | build.rs:177-185 | The constants loop visits every key once and yields the reference constants section for that order |
| Emit.EmitMembers | build.rs:191-193 | The member loop visits every key of a group once and yields the reference member lines for that order |
| Emit.EmitGroups | build.rs:188-195 | The group loop gives every group an order of its keys and yields the reference enum section, group by group in extraction order |
| Emit.Emit | build.rs:159-195 | Emission fails with the first unknown handle kind; otherwise it reports valid map orders and yields the reference file for them: handle header, handles, constants header, constants, blank line, enum blocks |
| EmitFacts.HandleDeclSpec | build.rs:165-173 | A handle is accepted if and only if its kind is `VK_DEFINE_HANDLE` or `VK_DEFINE_NON_DISPATCHABLE_HANDLE`. An accepted one becomes a comment naming the kind, the alias `pub type NAME = *mut libc::c_void;` and a blank line. Any other kind is the unknown-kind error naming kind and handle |
| EmitFacts.HandleLinesOk | build.rs:164-174 | The handle section succeeds if and only if every handle is accepted |
| EmitFacts.HandleLinesAt | build.rs:164-170 | In a successful section, handle `i` owns lines `3i` to `3i+2`, and they are its declaration |
| EmitFacts.HandleLinesLength | build.rs:164-170 | A successful section has three lines per handle |
| EmitFacts.HandleLinesFirstError | build.rs:164-173 | A failed section reports the first handle with an unknown kind, and every handle before it is accepted |
| EmitFacts.ConstantDeclSpec | build.rs:179-182 | A constant's line is `pub const` with the upper-cased name, `: u32 =` and a decimal that reads back as the constant's value |
| EmitFacts.ConstantLinesSpec | build.rs:178-185 | For any order of the map's keys, a line is in the constants section if and only if it is the declaration of some constant |
| EmitFacts.MemberLinesSpec | build.rs:191-193 | For any order of a group's keys, the group has exactly one line per member, and a line is a member line if and only if it is `pub const NAME: i32 = VALUE;` for a member of the group |
| EmitFacts.EnumLinesSplit | build.rs:189-195 | The enum section is the blocks of the earlier groups, then group `g`'s header, member lines and blank line, then the blocks of the later groups |
| Build.Build | build.rs:17-198 | Building from a parsed document fails with the first extraction error, or else emits the extracted registry: either the first unknown handle kind or the file's lines for the map orders it reports |

## Left out

- Reading and parsing `xmlsrc/vk.xml` (build.rs:19-23): the model starts from the parsed tree,
  which the XML library always returns with an element at the root.
- Creating and writing `src/bindings.rs` (build.rs:197-198): the model yields the file as a
  sequence of lines. Each piece the script appends ends in a newline, so the file is those lines,
  each followed by `\n`.
- The `println!` diagnostics (build.rs:18, 42, 52, 60, 72, 134) have no effect on the result.
- The panic messages: each `panic!` becomes a `BuildError` variant that carries the names
  involved, and the process abort becomes an error result.
- Hash-map iteration order is not modelled as Rust's hashing. The emitter reports the order it
  used, and every property holds for any order.
- Literals.UpperAscii: only ASCII letters are upper-cased; Rust's `to_uppercase` also maps
  non-ASCII letters, some to several characters.
- Emit.MemberLines: it is defined for any list of keys and skips a key missing from the map,
  whereas a Rust map walk only yields present keys. Every property is stated for orders that list
  the map's keys.
- Extract.Extract: the nested loops of `main` are split into the methods `AddConstants`,
  `ReadEnum`, `ReadTypes` and `ReadHandle`, each with its own loop.
