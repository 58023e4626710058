# Name and documentation sanitizers of melior's dialect generator

melior's procedural macro generates Rust bindings for MLIR dialects. Two small
routines in `macro/src/dialect/utility.rs` prepare text for the generated code:

- **`sanitize_name`** (reached through `sanitize_snake_case_name`) turns an
  operation's label into a Rust identifier. It replaces every `.` with `_`. It
  puts one `_` in front when the result is one of the reserved names `name`,
  `operation` or `builder`, or when it starts with a digit. It then returns the
  text as an identifier if `syn` parses it as one, and as the raw identifier
  `r#text` otherwise.
- **`sanitize_documentation`** parses Markdown with `comrak` and walks the tree.
  On each `Start` edge of the walk, a code block with an empty info string gets
  the info string `text`. The tree is then rendered back to Markdown.

The project has three files:

- `wrappers.dfy`: `Option`, `Result` and `byte`.
- `name_sanitizer.dfy`, module `NameSanitizer`. The name sanitizer as
  functions, with the lemmas about them.
- `documentation.dfy`, module `Documentation`.
  - `comrak`'s arena tree becomes an array of nodes in pre-order. Each node
    has its depth, and its value is a code block or another kind of node.
  - `Traverse` builds the `Start`/`End` edge sequence of the walk from the depths.
  - `SanitizeDocumentation` is the source's loop. It runs over that edge
    sequence and updates the array in place. It is proved equal to the
    specification function `SanitizedDocumentation`.

Foreign code is modelled as follows:

- `to_case(Case::Snake)` is the function parameter `toSnake`.
- `parse_document`, `format_commonmark` and `String::from_utf8` are the function
  parameters `parse`, `format` and `decode`. A `None` from `format` or `decode`
  is the source's format error or UTF-8 error.
- `syn::parse_str::<Ident>` is `ParsesAsIdent`: the text has the shape of an
  ASCII identifier and is not one of the words `syn` refuses (the Rust
  keywords, the reserved keywords and `_`).
- `format_ident!("r#{}", ..)` is `RawIdent`. It fails on `_`, `crate`, `self`,
  `Self`, `super` and on any text that is not an identifier, because those
  cannot be raw identifiers.

Behaviour of the code that is easy to miss:

- **Empty name.** An empty name is not reported as an error: the `expect` on
  line 22 panics. The model writes this panic as `Failure(EmptyName)`.
- **Eager raw identifier.** `format_ident!` on line 30 is the argument of
  `unwrap_or`, so it is built even when parsing succeeds. This matters only
  for a text that `syn` accepts but that cannot follow `r#`. One example is
  ` foo`: `syn` skips the space and parses it, and `format_ident!("r# foo")`
  panics. Texts that `syn` rejects and that cannot be raw (`self`, `_`,
  `a-b`) panic under a lazy `unwrap_or_else` as well. The model writes every
  such panic as `Failure(NotRawIdentifier)`.
- **Re-sanitizing.** Sanitizing a plain result again gives it back
  (`SanitizeNameIdempotent`). Sanitizing a raw result `r#x` again panics
  (`SanitizeRawResultPanics`).
- **Indented code blocks are tagged too.** The loop tags every code block,
  fenced or indented. The model keeps the `fenced` flag and the loop ignores it.
- **Prefix, not suffix.** The comment on line 17 says "suffix", but the code
  puts `_` in front. The model follows the code.

## Model

| member | source | states |
|---|---|---|
| NameSanitizer.ReservedNames | macro/src/dialect/utility.rs:7 | the reserved names `name`, `operation` and `builder` |
| NameSanitizer.IsReserved | macro/src/dialect/utility.rs:18 | defines `RESERVED_NAMES.contains(..)` as membership in the reserved names |
| NameSanitizer.Unreserved | macro/src/dialect/utility.rs:18-24 | defines a text the guard leaves alone: non-empty, not reserved, not led by a digit |
| NameSanitizer.IsNumeric | macro/src/dialect/utility.rs:23 | defines `is_numeric` on the first character, restricted to ASCII digits |
| NameSanitizer.IsKeyword | macro/src/dialect/utility.rs:30 | defines the words `syn` refuses as an `Ident`: the strict and reserved keywords and `_` |
| NameSanitizer.ParsesAsIdent | macro/src/dialect/utility.rs:30 | defines `syn::parse_str::<Ident>` succeeding: an identifier-shaped text that is no keyword |
| NameSanitizer.IsNonRawWord | macro/src/dialect/utility.rs:30 | defines the words that cannot be raw: `_`, `crate`, `self`, `Self`, `super` |
| NameSanitizer.IsIdentStart | macro/src/dialect/utility.rs:30 | defines the characters that may begin an identifier, restricted to ASCII letters and `_` |
| NameSanitizer.IsIdentContinue | macro/src/dialect/utility.rs:30 | defines the characters that may continue an identifier: those that begin one, and digits |
| NameSanitizer.IdentCharsFrom | macro/src/dialect/utility.rs:30 | defines that every character from an index on may continue an identifier |
| NameSanitizer.IdentShaped | macro/src/dialect/utility.rs:30 | defines the identifier shape `proc_macro2` checks: a start character followed by continue characters |
| NameSanitizer.IsRawable | macro/src/dialect/utility.rs:30 | defines `format_ident!("r#{}", s)` returning: an identifier-shaped text that is not one of those words |
| NameSanitizer.ReplaceDots | macro/src/dialect/utility.rs:15 | same length; each `.` becomes `_` and every other character is kept |
| NameSanitizer.ReplaceDotsRemovesDots | macro/src/dialect/utility.rs:15 | no `.` is left after the replacement |
| NameSanitizer.ReplaceDotsFixesDotFree | macro/src/dialect/utility.rs:15 | a text without dots is left unchanged |
| NameSanitizer.ReplaceDotsConcat | macro/src/dialect/utility.rs:15 | the replacement distributes over concatenation |
| NameSanitizer.ReplaceDotted | macro/src/dialect/utility.rs:15 | `a.b` becomes `a_b` when neither part has a dot |
| NameSanitizer.AvoidReserved | macro/src/dialect/utility.rs:7-26 | fails (the `expect` panic) exactly on the empty text; otherwise the result is non-empty, not a reserved name and not led by a digit; it equals the input exactly when the input already was, else it is `_` followed by the input; dots are neither added nor removed |
| NameSanitizer.PrefixedUnreserved | macro/src/dialect/utility.rs:7-25 | a text starting with `_` or `r` (no digit, no reserved name starts with them) needs no guard |
| NameSanitizer.Prepared | macro/src/dialect/utility.rs:13-26 | the text before the identifier step has no dots, is not reserved, does not start with a digit, and is the dot-replaced name or `_` followed by it |
| NameSanitizer.RawIdent | macro/src/dialect/utility.rs:30 | defines `format_ident!("r#{}", s)`: `r#s` when `IsRawable(s)`, a panic otherwise |
| NameSanitizer.SanitizeParsedPrepared | macro/src/dialect/utility.rs:30 | a name whose prepared text parses is sanitized to that very text |
| NameSanitizer.ParsesImpliesRawable | macro/src/dialect/utility.rs:30 | every text `ParsesAsIdent` accepts can also be written raw |
| NameSanitizer.SanitizeName | macro/src/dialect/utility.rs:13-31 | an empty-name panic exactly for the empty name; otherwise success exactly when the prepared text can be raw; the result is the prepared text if it parses, else `r#` then that text; never dotted, reserved or digit-led |
| NameSanitizer.SanitizeSnakeCaseName | macro/src/dialect/utility.rs:9-11 | the empty-name panic exactly when snake-casing yields the empty text; results are clean and are the prepared snake-cased name, raw or plain |
| NameSanitizer.PreparedIsFixpoint | macro/src/dialect/utility.rs:15-26 | replacing dots and guarding again leaves the prepared text unchanged |
| NameSanitizer.SanitizeNameIdempotent | macro/src/dialect/utility.rs:13-31 | sanitizing a plain (non-raw) result again returns the same identifier |
| NameSanitizer.SanitizeRawResultPanics | macro/src/dialect/utility.rs:13-31 | sanitizing a raw result `r#x` again panics, since `#` is no identifier character |
| NameSanitizer.RawTextNotRawable | macro/src/dialect/utility.rs:18-30 | `r#t` for a dot-free `t` passes the guard unchanged but cannot be a raw identifier |
| NameSanitizer.SanitizeSeesDotsAsUnderscores | macro/src/dialect/utility.rs:15 | two names with the same dot-replaced form give the same result (`a.b` and `a_b` collide) |
| NameSanitizer.SanitizePlainIdentifier | macro/src/dialect/utility.rs:13-31 | a dot-free unreserved identifier is returned as it is |
| NameSanitizer.SanitizedNeverReserved | macro/src/dialect/utility.rs:7-26 | a result never equals a reserved name, not even after its `r#` prefix, and never starts with a digit |
| NameSanitizer.HashNotIdentShaped | macro/src/dialect/utility.rs:30 | a text whose second character is `#` does not have the shape of an identifier |
| NameSanitizer.SanitizeEmptyNamePanics | macro/src/dialect/utility.rs:19-22 | the empty name panics at the `expect` |
| NameSanitizer.PreparedClean | macro/src/dialect/utility.rs:18-26 | a dot-free text that needs no guard is its own prepared text |
| NameSanitizer.PreparedLeadingDigit | macro/src/dialect/utility.rs:19-25 | a dot-free text led by a digit gets exactly one `_` in front |
| NameSanitizer.PreparedDotted | macro/src/dialect/utility.rs:15-26 | `a.b` is prepared to `a_b` when `a_b` needs no guard |
| NameSanitizer.PreparedFooBar | macro/src/dialect/utility.rs:64-66 | `foo.bar` is prepared to `foo_bar` |
| NameSanitizer.SanitizeDottedName | macro/src/dialect/utility.rs:64-66 | the test case `foo.bar` gives `foo_bar` |
| NameSanitizer.PreparedFooBarBaz | macro/src/dialect/utility.rs:69-71 | `foo.bar_baz` is prepared to `foo_bar_baz` |
| NameSanitizer.FooBarBazParses | macro/src/dialect/utility.rs:69-71 | `foo_bar_baz` parses as an identifier |
| NameSanitizer.SanitizeDottedUnderscoredName | macro/src/dialect/utility.rs:69-71 | the test case `foo.bar_baz` gives `foo_bar_baz` |
| NameSanitizer.PreparedBuilder | macro/src/dialect/utility.rs:74-76 | the reserved name `builder` is prepared to `_builder` |
| NameSanitizer.UnderscoredBuilderParses | macro/src/dialect/utility.rs:74-76 | `_builder` parses as an identifier |
| NameSanitizer.SanitizeReservedName | macro/src/dialect/utility.rs:74-76 | the test case `builder` gives `_builder` |
| NameSanitizer.SanitizeLeadingDigit | macro/src/dialect/utility.rs:19-25 | `1st` gives `_1st` |
| NameSanitizer.SanitizeKeyword | macro/src/dialect/utility.rs:30 | the keyword `type` gives the raw identifier `r#type` |
| NameSanitizer.SanitizeSelfPanics | macro/src/dialect/utility.rs:30 | `self` panics, because `r#self` is no raw identifier |
| NameSanitizer.SnakeCaseNameExamples | macro/src/dialect/utility.rs:63-76 | the three name tests hold for any snake-casing that leaves already snake-cased input alone |
| Documentation.IsTagged | macro/src/dialect/utility.rs:46 | defines a node the loop leaves alone: not a code block, or a code block whose info is not empty |
| Documentation.DefaultInfo | macro/src/dialect/utility.rs:47 | the info string `text` |
| Documentation.Visit | macro/src/dialect/utility.rs:41-48 | the visited node is tagged and of the same shape; a tagged node is unchanged; an untagged code block gets info `text` and nothing else changes |
| Documentation.Sanitized | macro/src/dialect/utility.rs:37-49 | same number of nodes; every code block tagged; each node keeps its depth, kind, fencing and text; tagged nodes unchanged, untagged blocks get `text` |
| Documentation.StillOpen | macro/src/dialect/utility.rs:37 | defines how many open nodes stay open when the next node is entered; the contract bounds it by the stack size |
| Documentation.Closing | macro/src/dialect/utility.rs:37 | the open nodes are left innermost first |
| Documentation.TraverseFrom | macro/src/dialect/utility.rs:37 | defines the rest of `node.traverse()` from a node on: close the nodes not deeper than it, enter it, go on |
| Documentation.Traverse | macro/src/dialect/utility.rs:37 | defines `node.traverse()`: the walk from the root with nothing open |
| Documentation.Starts | macro/src/dialect/utility.rs:38-40 | defines the nodes the `let NodeEdge::Start(node) = node else { continue }` lets through, in order |
| Documentation.Range | macro/src/dialect/utility.rs:37-40 | the indices from `lo` up to `hi`, in order: every index of the tree |
| Documentation.StartsAppend | macro/src/dialect/utility.rs:37-40 | the `Start` edges of a concatenation are those of its parts |
| Documentation.StartsClosing | macro/src/dialect/utility.rs:37-40 | closing open nodes enters no node |
| Documentation.TraverseFromStarts | macro/src/dialect/utility.rs:37-40 | the rest of a walk enters the remaining nodes once each, in order |
| Documentation.TraverseStartsEachNodeOnce | macro/src/dialect/utility.rs:37-40 | the walk enters every node exactly once, in pre-order |
| Documentation.TraverseFromInBounds | macro/src/dialect/utility.rs:37 | every edge of the rest of a walk names a node of the tree |
| Documentation.TraverseInBounds | macro/src/dialect/utility.rs:37 | every edge of the walk names a node of the tree |
| Documentation.StartInStarts | macro/src/dialect/utility.rs:37-40 | a node listed among the entered ones has a `Start` edge |
| Documentation.TraverseEntersEveryNode | macro/src/dialect/utility.rs:37-40 | every node has a `Start` edge in the walk |
| Documentation.Entered | macro/src/dialect/utility.rs:37-49 | defines the tree part-way through the loop: the nodes entered by the edges seen so far are visited; the number of nodes is kept |
| Documentation.EnteredStep | macro/src/dialect/utility.rs:37-48 | an `End` edge changes nothing (the `continue`); a `Start` edge visits its own node and no other |
| Documentation.EnteredAll | macro/src/dialect/utility.rs:37-49 | after the whole walk the tree is the sanitized tree |
| Documentation.Render | macro/src/dialect/utility.rs:51-55 | defines the outcomes of lines 53-55: the format error, the UTF-8 error, or the decoded text |
| Documentation.SanitizedDocumentation | macro/src/dialect/utility.rs:33-56 | defines what `sanitize_documentation` returns: the rendering of the parsed tree with every code block tagged |
| Documentation.SanitizeDocumentation | macro/src/dialect/utility.rs:33-56 | the in-place loop over the walk's edges, acting on `Start` edges only, leaves exactly the sanitized tree, whose rendering is returned |
| Documentation.SanitizedFixesExactlyTagged | macro/src/dialect/utility.rs:46-48 | sanitizing leaves a tree unchanged exactly when all its code blocks are already tagged |
| Documentation.SanitizedIdempotent | macro/src/dialect/utility.rs:46-48 | sanitizing the tree twice gives the same nodes as once |
| Documentation.SanitizedKeepsPreorder | macro/src/dialect/utility.rs:37-49 | the tree stays a well-formed pre-order tree, in both directions |
| Documentation.StillOpenSameDepths | macro/src/dialect/utility.rs:37 | which nodes stay open depends only on the depths |
| Documentation.TraverseFromSameDepths | macro/src/dialect/utility.rs:37 | the rest of a walk depends only on the depths |
| Documentation.SanitizedSameTraversal | macro/src/dialect/utility.rs:37-49 | the sanitized tree is walked by the same edges: no node moves |
| Documentation.SanitizedDocumentationOutcome | macro/src/dialect/utility.rs:33-56 | the rendered tree is fully tagged, and each error outcome occurs exactly when its cause does |
| Documentation.SanitizeDocumentationIdempotent | macro/src/dialect/utility.rs:33-56 | when the output parses to a fully tagged tree that renders back to the output, sanitizing the output again returns the same output |
| Documentation.OneCodeBlockTagged | macro/src/dialect/utility.rs:78-84 | the one-block test tree gets info `text` |
| Documentation.TwoBlocks | macro/src/dialect/utility.rs:89 | defines the tree of the two-block test input: a document with two untagged fenced blocks |
| Documentation.TwoCodeBlocksTagged | macro/src/dialect/utility.rs:86-91 | both blocks of the two-block test tree get info `text` |
| Documentation.TaggedCodeBlockKept | macro/src/dialect/utility.rs:46 | a block with info `rust` is left as it is |
| Documentation.SecondChildTraversal | macro/src/dialect/utility.rs:37-40 | in the two-block tree, the walk from the second block leaves the first, enters and leaves the second, and leaves the root |
| Documentation.FirstChildTraversal | macro/src/dialect/utility.rs:37-40 | in the two-block tree, the walk from the first block is `Start 1, End 1, Start 2, End 2, End 0` |
| Documentation.TwoChildrenTraversal | macro/src/dialect/utility.rs:37-40 | the walk of the two-block tree leaves each child before entering the next |

## Left out

- `to_case(Case::Snake)` belongs to the `convert_case` library and is not modelled: it is the parameter `toSnake`. The tests use only inputs that are already snake-cased.
- The Markdown grammar of `parse_document` and the output of `format_commonmark` are not modelled: they are parameters. So the rendered test strings (`` ``` text\nfoo\n```\n ``) appear only as the trees they come from.
- Decoding UTF-8 (`String::from_utf8`) is a parameter. Only its error outcome is kept.
- `RefCell::borrow_mut`, arena lifetimes and the conversion into the crate's `Error` type are left out. Only the two error outcomes remain.
- NameSanitizer.IsNumeric: `char::is_numeric` is restricted to ASCII digits. Numeric characters from other scripts are not treated as digits.
- NameSanitizer.ParsesAsIdent and NameSanitizer.IsRawable: identifier characters are restricted to ASCII. For names with non-ASCII letters, the model reports `NotRawIdentifier` where `proc_macro2` would accept the text.
- NameSanitizer.ParsesAsIdent: some texts count as "does not parse" here although `syn` parses them. These are raw input such as `r#x`, and text with surrounding whitespace or comments, such as ` foo` or `foo /* c */`. For each of them the eager `format_ident!` panics, so the outcome is the same. Because of this, every text the model parses can also be raw (`ParsesImpliesRawable`), and the model never shows the effect of eager evaluation: a lazy `unwrap_or_else` would give the same results.
- Documentation.SanitizeDocumentationIdempotent: the whole transform is idempotent only under a hypothesis about `comrak`, which is not modelled. The hypothesis is that parsing the output gives a tree whose code blocks all have info strings, and that this tree renders back to the same output. The parsed tree need not equal the rendered one. For instance, an indented block that was tagged is rendered as a fenced block, so it comes back with a different `fenced` flag.
- Only the underlying tree is modelled. Parent, child and sibling links in the arena are represented by each node's depth in pre-order.
