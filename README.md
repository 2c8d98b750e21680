# BEM notation: model builder and JSON codec

This is a Dafny model of the core of the `bem` Rust crate. The crate reads
BEM (Block, Element, Modifier) notation into a `BEMBlock` value and converts
such values to and from JSON. The model has four modules:

- `Results` (`results.dfy`): the `Option` and `Result` types. `Result`
  supports `:-` propagation; this mirrors the `?` operator of the Rust code.
- `Models` (`models.dfy`): `BemBlock` and `BemElement` as datatypes, with
  their fields in declaration order, and lemmas stating what derived
  structural equality means.
- `Parser` (`parser.dfy`): the model builder, `BEMParser::parse_bem` and
  `parse_part`.
  - The grammar and its runtime are an opaque input. They supply either the
    grammar's error message or the top-level `bem` node. A node is
    `Pair(rule, text, inner)`: its rule, the text it matched, and its
    children in order.
  - Both Rust loops are methods (`ParseBem`, `ParsePart`) with `for` loops
    and loop invariants. Each is proved equal to a left fold
    (`BemFold`, `PartFold`) that stops at the first error.
  - Lemmas about the folds state what the builder computes: which children
    it accepts, the first error, that the last `block` child wins, and the
    count and order of elements.
- `Json` (`json.dfy`): `to_json` and `from_json` for this schema only.
  - The encoder writes the compact object `serde_json` produces for the
    derived `Serialize`.
    - Keys appear in field order.
    - Strings are escaped the way `serde_json` does it: `\"`, `\\`, `\b`,
      `\f`, `\n`, `\r` and `\t`, and every other control character as
      `\u00xx` with lower-case hex digits.
    - The escaped text is proved to conform to the string grammar in
      section 7 of RFC 8259.
  - The decoder follows the derived `Deserialize` on compact input.
    - Keys may come in any order.
    - A duplicate, missing or unknown key is an error.
    - There are no defaults, so a missing `modifiers` is an error too.
    - String escapes include `\/` and `\uXXXX`, with surrogate pairs.
    - Raw control characters are rejected.
    - Text after the object is rejected.
  - The central result is the round trip `FromJson(ToJson(b).value) == Ok(b)`
    for every block `b`.

The model follows the code in three places:

- The code imposes no invariant on names or modifiers: any string, `""`
  included, is a field value. The model's types impose none either.
- The code never checks the rule of the top-level node; it only takes the
  node's children. So `Parse` folds over `bem.inner` whatever that node's
  rule is.
- The JSON field `modifiers` has no `serde(default)`, so an object without it
  is rejected (`MissingModifiersRejected`).

## Model

| member | source | states |
|---|---|---|
| Parser.ParsePart | src/parser.rs:63-85 | The loop over the children of a block or element node. Its result is exactly the fold `PartFold` of those children: the last `name` sets the name, the last `modifiers` sets the modifier list, and the first other rule aborts. |
| Parser.ParseBem | src/parser.rs:26-61 | The loop over the children of the `bem` node. Its result is exactly `Parse` of the grammar outcome. A grammar rejection gives an `Err` whose message starts with "Parsing error: ", and no block. |
| Parser.Texts | src/parser.rs:73-76 | The modifier list has one entry per child of the `modifiers` node, in order. Entry i is the text of child i. |
| Parser.LastIndex | src/parser.rs:67-82 | Picks the node a repeated `name` or `modifiers` child resolves to. The index is -1 or a node with the rule, and no later node has the rule. |
| Parser.PartFoldStuck | src/parser.rs:78-80 | Once `parse_part` has failed on a prefix of the children, the remaining children do not change the error. |
| Parser.PartFoldResult | src/parser.rs:63-85 | `parse_part` succeeds if and only if every child is a `name` or `modifiers` node. It then returns the text of the last `name` child (else ""), and the child texts of the last `modifiers` child (else []). |
| Parser.PartFoldError | src/parser.rs:78-80 | A failing `parse_part` reports "Unexpected rule: " and the rule of its first child that is neither `name` nor `modifiers`. |
| Parser.BemFoldStuck | src/parser.rs:39-52 | Once `parse_bem` has failed on a prefix of the children, it returns that error with no partial result. |
| Parser.BemFoldOk | src/parser.rs:36-60 | `parse_bem` succeeds if and only if every child is a `block` or `element` node whose own `parse_part` succeeds. |
| Parser.BemFoldError | src/parser.rs:39-52 | A failing `parse_bem` reports the error of its first rejected child. That error is the child's `parse_part` error, passed on unchanged, or "Unexpected rule: " and the child's rule. |
| Parser.BemFoldHead | src/parser.rs:32-42 | The block's name and modifiers come from the last `block` child. With no `block` child they are "" and []. |
| Parser.BemFoldElements | src/parser.rs:34-49 | There are as many elements as `element` children. The child at position i becomes the element at index (number of `element` children before i), so child order is kept. |
| Parser.SampleParse | src/parser.rs:111-139 | For any names, the tree for "block(m1\|m2)", "element(m3)", "element" yields that block. It has both modifiers in order, and two elements whose modifiers are [m3] and []. |
| Models.BlockEquality | src/models.rs:24-29 | Block equality is field-wise over name, modifiers and elements. Equal blocks have equal elements position by position. |
| Models.ElementEquality | src/models.rs:46-50 | Element equality is field-wise over name and modifiers. Modifiers are compared position by position, with equal lengths. |
| Models.ModifierOrderMatters | src/models.rs:24-29 | Two different modifiers in swapped order make two different blocks. |
| Json.HexDigit | src/lib.rs:55-59 | The hex digit written for a `\u00xx` escape reads back as its value. |
| Json.EscapeIsStringBody | src/lib.rs:55-59 | Escaping any string gives a valid body of a JSON string literal: no raw quote, backslash or control character, only permitted escapes. |
| Json.EscapeCharRoundTrip | src/lib.rs:83-87 | Every character, once escaped, decodes back to itself, whatever follows it. |
| Json.StringRoundTrip | src/lib.rs:83-87 | Every string, once encoded, decodes back to itself and leaves the following text untouched. |
| Json.KeyRoundTrip | src/lib.rs:83-87 | A key with no character that needs escaping, written between quotes, decodes as that key. |
| Json.MemberEncoded | src/lib.rs:55-59 | For such a key, the member text equals the encoded key, a colon and the value. |
| Json.StringsRoundTrip | src/lib.rs:96-106 | A modifier list survives encoding and decoding with contents and order unchanged, including the empty list. |
| Json.ElementRoundTrip | src/lib.rs:98-105 | An element object decodes back to the same element, whatever follows it. |
| Json.ElementsRoundTrip | src/lib.rs:97-106 | An element list survives encoding and decoding with contents and order unchanged, including the empty list. |
| Json.ObjectOutcome | src/lib.rs:83-87 | For any object whose members read without error, `from_json` reports the first missing field in declaration order: `name`, then `modifiers`, then `elements`. With all three present it returns the block built from them if nothing follows the object, and fails with "trailing characters" otherwise. |
| Json.BlockRoundTrip | src/lib.rs:83-87 | A block object decodes back to the same block and leaves the following text untouched. |
| Json.ToJson | src/lib.rs:55-59 | Serialization of this schema always succeeds. |
| Json.FromJson | src/lib.rs:83-87 | Only text that opens an object with a member can succeed: it starts with `{"`. A non-object fails, and so does `{}`, which lacks every field. |
| Json.RoundTrip | src/lib.rs:17-22 | For every block b, `from_json(to_json(b))` succeeds and equals b. |
| Json.TestBlockRoundTrip | src/lib.rs:93-128 | The test block comes back equal, and its first element's modifiers stay ["fast-forward", "rewind"] in that order. |
| Json.EmptyArraysDecode | src/lib.rs:80-81 | An object with a name and empty `modifiers` and `elements` arrays decodes to a block with no modifiers and no elements. |
| Json.NamedEmptyText | src/lib.rs:52-53 | For a name with no character that needs escaping, `to_json` of the block with no modifiers and no elements writes exactly `{"name":"`, the name, and `","modifiers":[],"elements":[]}`. |
| Json.NamedEmptyDecodes | src/lib.rs:80-81 | That text decodes back to the block with that name and no modifiers or elements. |
| Json.DocExampleDecodes | src/lib.rs:80-81 | The exact text of the `from_json` documentation example decodes to the block named "media-player" with no modifiers and no elements. |
| Json.TestBlockText | src/lib.rs:111-117 | For names with no character that needs escaping, `to_json` of a block shaped like the test block writes exactly the text of `test_from_json`, with those names in place. |
| Json.TestJsonDecodes | src/lib.rs:120-128 | `to_json` of the test block writes the text of `test_from_json`, and `from_json` of that text returns exactly the test block. |
| Json.TrailingTextRejected | src/lib.rs:83-87 | Text after a block object that does not start with whitespace makes `from_json` fail with "trailing characters". |
| Json.NonObjectRejected | src/lib.rs:83-87 | Input that is empty, or starts with neither `{`, nor `[`, nor whitespace, makes `from_json` fail. |
| Json.MissingNameRejected | src/lib.rs:83-87 | An object without `name` fails with "missing field `name`". It is not decoded into a partial block. |
| Json.MissingModifiersRejected | src/lib.rs:83-87 | An object without `modifiers` fails with "missing field `modifiers`". The field has no default. |
| Json.MissingElementsRejected | src/lib.rs:83-87 | An object without `elements` fails with "missing field `elements`". |
| Json.DuplicateNameRejected | src/lib.rs:83-87 | A second `name` member fails with "duplicate field `name`" rather than overwriting the first. |
| Json.MemberOrderIrrelevant | src/lib.rs:83-87 | The members of a block object may appear in reverse order and still decode to the same block. |

## Left out

- The grammar file `grammar/bem.pest` and the pest runtime (`BEMParser::parse`, `into_inner`, `as_str`) are not part of this model. The grammar's decision is an input: an error message or the top-level node.
- The model fixes no concrete BEM syntax. Delimiters, whitespace and blank lines are the grammar's business, so `SampleParse` starts from the parse tree.
- Parser.UnexpectedRule: the rule is printed by its lower-case name. The exact `Debug` text Rust prints for the rule is not modelled.
- `src/main.rs` is not part of this model. It only prints the grammar's debug output.
- `pub use parser::parse;` in `src/lib.rs` names a function that `src/parser.rs` does not define. The model's entry point is `parse_bem`.
- `serde_json` in general is not modelled: whitespace between tokens, numbers, `null`, values of other types, struct-as-array input, and the exact error message texts and positions. The decoder reads only the compact form the encoder writes.
- Json.DecodeBlockField, Json.DecodeElementField: an unknown key in a block object or in an element object is an error here. The derived `Deserialize` would skip its value, and skipping an arbitrary JSON value is outside this schema-specific decoder.
- Json.TestJsonDecodes: the text of `src/lib.rs:123` is written as a concatenation of its constant pieces and the six names. Comparing the whole 140-character constant character by character costs the verifier more than its resource budget; `DocExampleDecodes` does state the shorter text of `src/lib.rs:80` as one constant.
- Json.TrailingTextRejected, Json.NonObjectRejected: `serde_json` skips whitespace before and after the value and also accepts a struct written as an array, such as `["n",[],[]]`. The model's `FromJson` rejects all three forms, so these lemmas exclude them from their claims.
- The snapshot file checked by `test_to_json` (`src/lib.rs:117`) is not part of this model. Its text is stated by the encoder's definition instead.
- `String` is a sequence of Unicode scalar values (`char`), as in Rust. Byte-level UTF-8 encoding is not modelled.
