# html-parser in Dafny

A model of the parsing core of html-parser, a small C# HTML parser
(`html-parser/HTML.cs`), with proofs about it. The model has four operations:

- **Minify** trims every line with `String.Trim()` and joins the results.
- **Tokenize** is a single left-to-right scan. It keeps a `capturing` flag and
  a `capturedText` accumulator, and it emits lexemes: tags such as `<div>` and
  `</div>`, and runs of text.
- **GetTagName** deletes every `<`, `/` and `>` from a lexeme.
- **BuildTree** walks the lexemes once. It creates a `DOMElement` for each
  opening or text lexeme and hangs it under a mutable `parent` reference, or adds
  it to the root list when there is no parent. Closing lexemes move `parent`
  back up.

The imperative operations are written as Dafny methods with the source's
loops:

- `Minify` works over an `array<string>`.
- `Tokenize` works over the three loop variables.
- `BuildTree` works over heap objects of class `DOMElement`.

Each method is proved against a functional specification:

- `JoinTrimmed` for Minify.
- `Tokens`, a fold of the loop body `ScanChar` over the input, for Tokenize.
- `Build` for BuildTree. It runs the loop body `Step` over an arena `Forest`,
  in which nodes are values that refer to one another by creation index.

`Mirrors` states that the heap objects BuildTree allocates carry, field by
field, exactly the nodes of the forest. The properties of the parser are then
proved as lemmas about these specification functions.

The source throws .NET exceptions in three places, and the model gives each
one back as a `BuildError` value:

- `token[0]` on an empty lexeme (HTML.cs:62);
- `token[1]` on the lexeme `"<"` (HTML.cs:63);
- `tokens[i - 1][1]` when the previous lexeme has fewer than two UTF-16 code
  units (HTML.cs:91). A one-character text outside the Basic Multilingual
  Plane has two code units, so it does not throw
  (`MismatchAfterShortText`, `MismatchAfterAstralText`).

The model follows the code in `HTML.cs` where it differs from a conventional
HTML parser. The lemmas state these differences outright:

- **No void-element table.** `<br>` becomes the parent of whatever follows it
  (`NoVoidElements`).
- **No open-tag stack.** A closer that does not name the current parent
  triggers a fixed recovery rule: jump two levels up when the current parent
  has a parent, the previous lexeme is not a closer, and the current parent
  has children (`CloseMoves`, `MismatchClosesBoth`, `MismatchJumpsTwoLevels`).
  Otherwise the closer is ignored (`SpuriousCloserIgnored`).
- **No case normalisation and no trimming of tag names.**
- **No flush at the end of input.** Trailing text and an unterminated tag are
  dropped (`TrailingPlainDropped`, `TrailingTextExample`,
  `UnterminatedExamples`).
- **The accumulator is not cleared after a `>`.** A second `>` re-emits the
  previous lexeme with `>` appended (`RepeatedClose`, `DoubleCloseExample`).
  The tokens reproduce the input when the input is empty, or ends with `>` and
  has no `>>` (`TokensLossless`).

Files:

- `wrappers.dfy`: Option and Result.
- `text.dfy`: joining strings.
- `dom.dfy`: `NodeType` and `DOMElement`, from DOMElement.cs.
- `tag_name.dfy`: GetTagName.
- `minify.dfy`: Minify and Trim.
- `tokenizer.dfy`: Tokenize.
- `tree_builder.dfy`: BuildTree.
- `pipeline.dfy`: Tokenize followed by BuildTree, on well-nested markup.

## Model

| member | source | states |
|---|---|---|
| Dom.DOMElement.constructor | html-parser/DOMElement.cs:9-16 | a new node has no children, no parent, no name and no value |
| HtmlMinify.IsWhiteSpace | html-parser/HTML.cs:11 | the characters `String.Trim()` cuts: space and tab to carriage return among them, and all in the Basic Multilingual Plane, so trimming never splits a surrogate pair |
| HtmlMinify.LeadingSpace | html-parser/HTML.cs:11 | Trim's forward scan: every character before the returned count is whitespace, and the character at the count is not |
| HtmlMinify.TrailingSpace | html-parser/HTML.cs:11 | Trim's backward scan: every character in the trailing run is whitespace, and the character just before the run is not |
| HtmlMinify.TrimStart | html-parser/HTML.cs:11 | a suffix of the line; what it cuts is the leading whitespace run LeadingSpace counts |
| HtmlMinify.TrimEnd | html-parser/HTML.cs:11 | a prefix of the line; what it cuts is the trailing whitespace run TrailingSpace counts |
| HtmlMinify.Trim | html-parser/HTML.cs:11 | `String.Trim()`: never longer than the line; what it cuts and keeps is stated by TrimSurrounds and TrimCutsSurroundingSpace |
| HtmlMinify.TrimSurrounds | html-parser/HTML.cs:11 | the trimmed line is a middle slice of the line, and all that is cut on either side is whitespace |
| HtmlMinify.TrimEmptyIffAllSpace | html-parser/HTML.cs:11 | a line trims to "" exactly when it is all whitespace |
| HtmlMinify.TrimCutsSurroundingSpace | html-parser/HTML.cs:11 | Trim cuts only whitespace, its result neither starts nor ends with whitespace, and it is empty exactly for all-whitespace lines |
| HtmlMinify.TrimOfTrimmed | html-parser/HTML.cs:11 | a line without leading or trailing whitespace is unchanged by Trim |
| HtmlMinify.TrimIdempotent | html-parser/HTML.cs:11 | trimming twice is trimming once |
| HtmlMinify.JoinTrimmed | html-parser/HTML.cs:7-15 | the specification of Minify: the trimmed lines joined in order, never longer than the untrimmed lines joined |
| HtmlMinify.Minify | html-parser/HTML.cs:7-15 | the loop returns the trimmed lines joined in order; no lines give "" |
| HtmlMinify.JoinTrimmedAppend | html-parser/HTML.cs:7-15 | minifying two blocks of lines is minifying each block and joining the results |
| HtmlMinify.JoinTrimmedOfTrimmedLines | html-parser/HTML.cs:7-15 | lines that carry no surrounding whitespace are joined unchanged |
| HtmlTagName.RemoveAll | html-parser/HTML.cs:103 | one `Replace(x, "")`: the result is no longer than the input and holds no `x` |
| HtmlTagName.RemoveAllAppend | html-parser/HTML.cs:103 | deleting `x` from a concatenation deletes it from each part and keeps the parts in order |
| HtmlTagName.RemoveAllKeepsOthers | html-parser/HTML.cs:103 | a single character other than `x` is kept, and a string without `x` is unchanged; with RemoveAllAppend, every character other than `x` is kept in input order |
| HtmlTagName.GetTagName | html-parser/HTML.cs:102-104 | the name is no longer than the lexeme |
| HtmlTagName.GetTagNameKeepsOrder | html-parser/HTML.cs:102-104 | the chain of three Replace calls equals one pass that drops exactly `<`, `/` and `>` and keeps the rest in order |
| HtmlTagName.GetTagNameHasNoDelimiters | html-parser/HTML.cs:102-104 | no name holds `<`, `/` or `>` |
| HtmlTagName.GetTagNameIdempotent | html-parser/HTML.cs:102-104 | applying GetTagName twice gives the same name as applying it once |
| HtmlTagName.OpeningAndClosingShareName | html-parser/HTML.cs:102-104 | `<n>` and `</n>` give the same name, and give back `n` itself when `n` has no delimiter |
| HtmlTokenizer.ScanChar | html-parser/HTML.cs:24-44 | one loop iteration keeps the lexemes emitted so far and appends at most one; afterwards the scan is capturing unless the character was `>` |
| HtmlTokenizer.RunEmitsAtMostOnePerChar | html-parser/HTML.cs:23-45 | the scan never drops an emitted lexeme and emits at most one per character read |
| HtmlTokenizer.Tokens | html-parser/HTML.cs:17-48 | the specification of Tokenize: the lexemes emitted by the scan, at most one per input character; the pending accumulator is dropped |
| HtmlTokenizer.RunAppend | html-parser/HTML.cs:23-45 | scanning `a + b` is scanning `a`, then `b` from the state reached |
| HtmlTokenizer.Tokenize | html-parser/HTML.cs:17-48 | the loop returns the lexemes of the scan specification; none is empty; "" gives no lexeme |
| HtmlTokenizer.RunKeepsNoEmptyLexeme | html-parser/HTML.cs:20-44 | the accumulator is non-empty while capturing, and no emitted lexeme is empty, after any input |
| HtmlTokenizer.TokensNonEmpty | html-parser/HTML.cs:20-44 | every lexeme Tokenize emits is non-empty |
| HtmlTokenizer.RunPlain | html-parser/HTML.cs:37-44 | while capturing, characters other than `<` and `>` only grow the accumulator |
| HtmlTokenizer.RunText | html-parser/HTML.cs:37-44 | outside a lexeme, a run without `<` or `>` starts a text lexeme that holds exactly that run |
| HtmlTokenizer.RunTag | html-parser/HTML.cs:26-36 | `<m>` emits the lexeme in progress, if any, then `<m>`, and leaves the scan idle |
| HtmlTokenizer.ScanOneLexeme | html-parser/HTML.cs:23-45 | reading one more tag, or a text lexeme after a tag, leaves exactly the state of the longer lexeme sequence |
| HtmlTokenizer.ScanLexemes | html-parser/HTML.cs:23-45 | scanning the concatenation of a lexeme sequence gives back the sequence, with a trailing text lexeme still pending |
| HtmlTokenizer.TokenizeConcat | html-parser/HTML.cs:17-48 | tokenizing the concatenation of tag and text lexemes (no two texts adjacent, ending with a tag) gives back those lexemes |
| HtmlTokenizer.StepAccountsForChar | html-parser/HTML.cs:26-44 | each character read is accounted for in the lexemes and the accumulator, except a `>` right after a `>` |
| HtmlTokenizer.RunAccountsForInput | html-parser/HTML.cs:23-45 | on input with no `>>`, the emitted lexemes plus the pending one spell out all that was read |
| HtmlTokenizer.AfterClose | html-parser/HTML.cs:33-36 | after a `>` the scan is idle and the accumulator still holds the lexeme just emitted |
| HtmlTokenizer.TokensLossless | html-parser/HTML.cs:23-47 | for input that is empty, or ends with `>` and has no `>>`, the lexemes joined in order are the input |
| HtmlTokenizer.TrailingPlainDropped | html-parser/HTML.cs:23-47 | text after the last `>`, or an unterminated tag, is dropped: nothing flushes the accumulator |
| HtmlTokenizer.RepeatedClose | html-parser/HTML.cs:33-36 | a second `>` re-emits the previous lexeme with `>` appended |
| HtmlTokenizer.TrailingTextExample | html-parser/HTML.cs:23-47 | `"<div>x"` gives `["<div>"]` |
| HtmlTokenizer.UnterminatedExamples | html-parser/HTML.cs:23-47 | `"<div"` and `"abc"` give no lexeme |
| HtmlTokenizer.DoubleOpenExample | html-parser/HTML.cs:26-32 | `"<<"` gives the lone lexeme `"<"` |
| HtmlTokenizer.DoubleCloseExample | html-parser/HTML.cs:33-36 | `"<a>>"` gives `["<a>", "<a>>"]` |
| HtmlTreeBuilder.Classify | html-parser/HTML.cs:59-68 | text exactly when the first character is not `<`, a closer exactly when the lexeme starts with `</`, opening otherwise; undefined (the source throws) exactly for "" and "<" |
| HtmlTreeBuilder.ElementType | html-parser/HTML.cs:59-68 | the classification code as written: the class of the lexeme, or the indexing failure |
| HtmlTreeBuilder.Attach | html-parser/HTML.cs:70-85 | an opening or text lexeme adds exactly one node, which becomes the current parent when it is an element; where it is linked and what it holds is stated by AttachLinks |
| HtmlTreeBuilder.AttachLinks | html-parser/HTML.cs:70-85 | one new node with no children, whose parent is the current parent. It goes at the end of that parent's children, or of the roots when there is none. An opening lexeme gives an element named GetTagName(token) that becomes the current parent; a text lexeme gives a text node holding the whole lexeme. No earlier node changes |
| HtmlTreeBuilder.AttachKeepsWF | html-parser/HTML.cs:70-85 | adding a node keeps the tree consistent: parent and child links agree, children come in creation order, and the current parent is an element |
| HtmlTreeBuilder.MoveCurrentKeepsWF | html-parser/HTML.cs:86-95 | moving the current parent to an element, or to none, keeps the tree consistent |
| HtmlTreeBuilder.Up | html-parser/HTML.cs:89-92 | the ParentNode of a node is an element created before it |
| HtmlTreeBuilder.SecondUnitIsSlash | html-parser/HTML.cs:91 | `s[1] != '/'` on .NET's UTF-16 string: out of range exactly when `s` has fewer than two code units; `'/'` exactly when the first character lies in the Basic Multilingual Plane and the second is `/` |
| HtmlTreeBuilder.Close | html-parser/HTML.cs:86-95 | a closer never changes the nodes or the roots, and keeps the tree consistent |
| HtmlTreeBuilder.CloseMoves | html-parser/HTML.cs:86-95 | a closer never descends. It does nothing without a parent, and goes up one level on a name match. On a mismatch it goes up two levels when the current parent has a parent and children and the previous lexeme is not a closer, and otherwise does nothing. It fails exactly when that previous lexeme is missing or has fewer than two UTF-16 code units |
| HtmlTreeBuilder.Step | html-parser/HTML.cs:54-96 | one iteration keeps the tree consistent |
| HtmlTreeBuilder.Build | html-parser/HTML.cs:50-100 | after any prefix that does not throw, the tree is consistent and the current parent is none or an element |
| HtmlTreeBuilder.BuildStep | html-parser/HTML.cs:54-96 | one more lexeme is one more iteration of the loop |
| HtmlTreeBuilder.BuildFailurePersists | html-parser/HTML.cs:54-96 | once the loop has thrown, later lexemes do not matter |
| HtmlTreeBuilder.Link | html-parser/HTML.cs:70-85 | the attach code as written: the heap objects mirror the forest after Attach, and the root list and the `parent` variable are those of the forest |
| HtmlTreeBuilder.Ascend | html-parser/HTML.cs:86-95 | the closer code as written: the new `parent` is the heap object of Close's current parent, or Close's failure |
| HtmlTreeBuilder.ProcessToken | html-parser/HTML.cs:55-96 | one loop iteration on the heap does what Step does on the forest, allocating at most one fresh node |
| HtmlTreeBuilder.BuildTree | html-parser/HTML.cs:50-100 | BuildTree returns the roots of Build(tokens). Every node it creates is a fresh object that carries exactly the fields and links of the forest. Where the source throws, it returns the failure Build names |
| HtmlTreeBuilder.CreatedAppend | html-parser/HTML.cs:57-85 | the nodes due for two blocks of lexemes are those due for each block, in order |
| HtmlTreeBuilder.BuildCreatesOnePerLexeme | html-parser/HTML.cs:57-85 | exactly one node per non-closing lexeme and none per closer, in lexeme order. An opening lexeme gives an element named GetTagName(token), a text lexeme a text node holding the whole lexeme. A successful run had no "" and no "<" lexeme |
| HtmlTreeBuilder.StepExtends | html-parser/HTML.cs:70-95 | no iteration changes a node created earlier, apart from adding children |
| HtmlTreeBuilder.TagLexemes | html-parser/HTML.cs:60-68 | `<n>` is an opening lexeme and `</n>` a closer, both named `n` |
| HtmlTreeBuilder.BuildOpen | html-parser/HTML.cs:70-81 | `<a>` alone gives one root element, which is the current parent |
| HtmlTreeBuilder.BuildOpenText | html-parser/HTML.cs:70-85 | `<a>t` makes the text node the only child of `a`, and `a` stays the current parent |
| HtmlTreeBuilder.BuildOpenOpen | html-parser/HTML.cs:70-81 | `<a><b>` makes `b` the only child of the root `a`, and `b` the current parent |
| HtmlTreeBuilder.BuildOpenOpenText | html-parser/HTML.cs:70-85 | `<a><b>t` gives the chain `a`, `b`, `t`, with `b` the current parent |
| HtmlTreeBuilder.MismatchAfterShortText | html-parser/HTML.cs:91 | `<a><b>x</a>` throws when `x` is one character of the Basic Multilingual Plane, because the recovery rule reads a second code unit that is not there |
| HtmlTreeBuilder.MismatchAfterAstralText | html-parser/HTML.cs:91-92 | `<a><b>x</a>` with `x` one character outside the Basic Multilingual Plane does not throw: the second code unit is a low surrogate, not `/`, and the builder jumps two levels, to no current parent |
| HtmlTreeBuilder.MismatchClosesBoth | html-parser/HTML.cs:91-92 | after `<a><b>yz</a>` there is no current parent, though only `</a>` was seen |
| HtmlTreeBuilder.MismatchJumpsTwoLevels | html-parser/HTML.cs:91-92 | in `<a><b>yz</a><p>` the element `p` becomes a second root |
| HtmlTreeBuilder.OpenTextStrayCloser | html-parser/HTML.cs:87-94 | in `<d>x</s>` the closer matches nothing and `d` stays the current parent |
| HtmlTreeBuilder.SpuriousCloserIgnored | html-parser/HTML.cs:86-95 | `<d>x</s></d>` gives one root `d` holding `x`, and no current parent |
| HtmlTreeBuilder.NoVoidElements | html-parser/HTML.cs:78-89 | in `<a><b>x</b>` (say `a` = `br`) `b` becomes a child of `a`, and after `</b>` `a` is again the current parent: no element is void |
| HtmlPipeline.CreatedElement | html-parser/HTML.cs:57-89 | an element's lexemes create the element, then whatever its content creates |
| HtmlPipeline.CreatedLexemes | html-parser/HTML.cs:57-89 | the lexemes of well-nested markup are due to create exactly its nodes, in document order |
| HtmlPipeline.BuildTextStep | html-parser/HTML.cs:70-85 | a text lexeme after any prefix that builds adds a text node and keeps the current parent |
| HtmlPipeline.BuildOpenStep | html-parser/HTML.cs:70-81 | `<n>` after any prefix that builds adds an element named `n` under the current parent, and that element becomes the current parent |
| HtmlPipeline.BuildCloseStep | html-parser/HTML.cs:86-89 | `</n>` while the current parent is named `n` goes back to that parent's parent, and changes nothing else |
| HtmlPipeline.BuildWellNested | html-parser/HTML.cs:54-96 | well-nested markup after any prefix that builds never throws, keeps every earlier node, and restores the current parent. At the top level it adds one root per fragment |
| HtmlPipeline.ParentsCombine | html-parser/HTML.cs:54-96 | parent links laid down by one run of lexemes survive the lexemes that follow, because no iteration changes an earlier node's parent |
| HtmlPipeline.ElementParents | html-parser/HTML.cs:70-89 | an element's lexemes after any prefix that builds: the element hangs under the current parent, its content under the element, and the current parent is restored |
| HtmlPipeline.FirstFragmentParents | html-parser/HTML.cs:54-96 | the first fragment of well-nested markup lays down the parent links Parents gives for it, and restores the current parent |
| HtmlPipeline.BuildWellNestedParents | html-parser/HTML.cs:54-96 | after any prefix that builds, every node that well-nested markup creates has as parent the element that encloses it in the markup, or the prefix's current parent for the outermost fragments |
| HtmlPipeline.WellNestedNodes | html-parser/HTML.cs:54-97 | from scratch, well-nested markup builds exactly its nodes, in document order |
| HtmlPipeline.WellNestedShape | html-parser/HTML.cs:54-97 | from scratch, well-nested markup builds a tree with no current parent left, one root per top-level fragment, and each node's parent the element that encloses it in the markup |
| HtmlPipeline.ElementLexemes | html-parser/HTML.cs:23-45 | an element's lexemes start and end with a tag |
| HtmlPipeline.LexemesAreLexemes | html-parser/HTML.cs:23-45 | the lexemes of well-nested markup alternate tags and text as the scan reads them |
| HtmlPipeline.ParseWellNested | html-parser/HTML.cs:17-100 | well-nested markup that ends with an element, written out and tokenized, gives back its lexemes. BuildTree then succeeds with no current parent, one root per top-level fragment, and the nodes of the markup in document order, each under the element that encloses it in the markup, so the tree has the markup's shape |

## Left out

- `html-parser/Program.cs` is a console driver with a fixed input and `Console.ReadKey`. It is I/O only and is not part of this model.
- `html-parser/Document.cs` is a data holder that the parser never uses. It is not part of this model.
- The `InnerHTML`, `InnerText` and `OuterHTML` fields of `DOMElement` (DOMElement.cs:11-13) are never written by the parser and are not modelled.
- The declaration of the `NodeType` enum is not part of this model. The two values are `Element` and `Text`. A new `DOMElement` is given `Element`, the first value. BuildTree overwrites this field on every node it keeps.
- .NET exceptions are not modelled as control flow. The three places where BuildTree indexes past the end of a string become `BuildError` results, and `BuildTree` returns `Failure` there.
- `null` for a string field that is never assigned is `None`. `List<T>` is a `seq` that is reassigned.
- `Char.IsWhiteSpace` is written out as the fixed table of Unicode White_Space characters. Unicode version differences between .NET releases are not modelled.
- `HtmlTreeBuilder.BuildTree` returns a ghost `nodes` sequence, the created objects in creation order. This is for the proof only; the source returns just the roots.
- HtmlTagName.RemoveAll: its own contract states only the length bound and that no `x` is left. That every other character is kept in input order follows from RemoveAllKeepsOthers and RemoveAllAppend, and for the chain of three calls from GetTagNameKeepsOrder.
- Strings are sequences of Unicode scalar values, while .NET strings are sequences of UTF-16 code units. The difference shows only at HTML.cs:91, which `SecondUnitIsSlash` models in code units. Elsewhere it makes no difference. A surrogate is never `<`, `>` or `/`, so the tokenizer and GetTagName treat a surrogate pair as one character. Every whitespace character lies in the Basic Multilingual Plane, so Trim never cuts half of a pair.
- Null arguments are excluded by the Dafny types. In C#, `Minify(null)`, a null line, `Tokenize(null)`, `BuildTree(null)` and a null lexeme all throw `NullReferenceException` (HTML.cs:10-11, 23, 54, 60 and 103). The model has no such inputs.
- HtmlTreeBuilder.Ascend: for a closer at position 0 the source would index `tokens[-1]`, and the model returns `PreviousTokenTooShort(0)` instead. That branch cannot be reached, because the parent is null at the first lexeme.
- `HtmlTagName.GetTagName` states only the length bound in its own contract. What it removes and keeps is stated by `GetTagNameKeepsOrder`, `GetTagNameHasNoDelimiters` and `GetTagNameIdempotent`.
