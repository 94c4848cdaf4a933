# class-extractor, modelled in Dafny

`extract.py` turns an annotated HTML document into a table of labelled
entities in two stages. The normaliser (`mark_plain_text`) finds the
document's first `body`. It wraps every text node below that body in
`<span class="O">…</span>` unless one of these holds:

- the node's parent is a `span`;
- the parent carries a `class` or `style` attribute;
- the node's stripped text is in a fixed exclusion list.

The extractor (`extract_entities`) then walks every `span` of the document
in document order. Each span with a `class` attribute yields one entity:
its class tokens and its stripped descendant text. Finally,
`write_entities_to_csv` writes a `class,text` header, then one row per
entity, with the class tokens joined by commas.

The model works on an abstract tree (`Html.Node`: elements with a tag name,
an attribute map and children, and text nodes). Parsing and serialising are
taken to be inverse to each other, so both stages run on the same tree.

- `strings.dfy`: Python's `str.strip()` (the `str.isspace()` character set),
  `str.join` with a one-character separator, and `str.split` as its inverse.
- `html.dfy`: the tree, `.text`, the class tokens of a tag, `find_all`,
  `find('body')`, and replacing the first body.
- `normalizer.dfy`: the wrap condition, the rewrite, and its properties.
  These are: the condition holds node by node, text and elements are
  preserved, the result is settled, and the rewrite is idempotent.
- `extractor.dfy`: the extraction loop over `find_all('span')` as a method,
  and the equivalent pre-order fold.
- `rows.dfy`: the header and the rows, and the split that recovers the
  class tokens.
- `pipeline.dfy`: the two stages composed, the entity count, and the
  example sentence worked through.

## Notes on the code's behaviour

- Whole text nodes are wrapped, never parts of one. In
  `<html><body><span class="PER">Ali</span> geldi.</body></html>` the text
  node `" geldi."` strips to `"geldi."`, which is not excluded, so the whole
  node is wrapped. The record is `O` / `geldi.`, full stop included
  (`Pipeline.ExampleSentence`).
- Only `class` and `style` on the parent stop wrapping. A text node under,
  say, `<p id="x">` is wrapped (`Normalizer.ShouldWrap`).
- The exclusion list contains `" "`, but a stripped value never has
  whitespace at either end, so that entry can never match
  (`Normalizer.SpaceTermNeverMatches`). Whitespace-only text is still never
  wrapped, because it strips to the empty string, which the list also
  holds.

## Model

| member | source | states |
|---|---|---|
| Strings.Strip | extract.py:23 | the stripped text has no whitespace at either end and is no longer than the input |
| Strings.StripTrims | extract.py:23 | stripping removes a whitespace-only prefix and a whitespace-only suffix and nothing else; the rest has no whitespace at either end |
| Strings.TrimsUnique | extract.py:23 | at most one infix of a string is left once its whitespace margins are cut, so that description defines strip independently of how it is computed |
| Strings.StripEmptyIffAllSpace | extract.py:23 | a string strips to the empty string if and only if every character is whitespace |
| Strings.StripIdempotent | extract.py:23 | stripping a stripped string changes nothing |
| Strings.SplitJoin | extract.py:76 | splitting the comma-joined field at commas gives back the original non-empty list of comma-free tokens |
| Strings.JoinSplit | extract.py:76 | joining the pieces of a split gives back the original string |
| Strings.Join | extract.py:76 | `','.join`: for a non-empty token list, the result is as long as the tokens together plus one separator per gap, starts with the first token, and puts the separator right after it; `Strings.SplitJoin` and `Strings.JoinSplit` show it is inverted by a split |
| Html.TextOf | extract.py:54 | `.text` is the strings of all text nodes at or below the node, in document order, concatenated with nothing between them |
| Html.ClassTokens | extract.py:51-53 | a tag has class tokens if and only if it has a `class` attribute, and a token list is passed through unchanged |
| Html.FindAllIn | extract.py:50 | every node `find_all(name)` returns is an element with that name |
| Html.FindAllInComplete | extract.py:50 | `find_all(name)` misses nothing: a node is in its result if and only if it occurs in the document and is an element with that name |
| Html.FindBodyIn | extract.py:20 | `find('body')` returns the first `body` element in document order, that is, the first one `find_all('body')` lists, and nothing when there is none |
| Html.NoBodyIff | extract.py:20 | `find('body')` finds nothing if and only if no `body` element occurs anywhere in the document |
| Normalizer.MarkNode | extract.py:26-31 | an element keeps its tag and number of children; a text node either stays as it is or becomes an `O` span around the same text. Which one happens is stated by `Normalizer.WrapExactly` |
| Normalizer.MarkChildren | extract.py:22-31 | every node below the body is rewritten on its own and stays in its place, so the loop's replacements do not affect each other |
| Normalizer.MarkPlainText | extract.py:6-33 | normalising fails if and only if no `body` element occurs anywhere in the document; `Normalizer.MarkPlainTextEffect` states what a success changes |
| Normalizer.MarkChildrenSites | extract.py:22-31 | after the rewrite, the text nodes are the same, in the same order, with their unstripped text; exactly those meeting the wrap condition have moved under a new `O` span |
| Normalizer.WrapExactly | extract.py:26-31 | the i-th text node is wrapped if and only if its parent is not a span, the parent has neither `class` nor `style`, and its stripped text is not excluded; the text is kept unstripped, and an unwrapped node stays where it was |
| Normalizer.ExcludedNeverWrapped | extract.py:17-28 | a text node whose stripped value is in the exclusion list is left in place, whatever its parent |
| Normalizer.WhitespaceNeverWrapped | extract.py:17-28 | whitespace-only text never meets the wrap condition |
| Normalizer.SpaceTermNeverMatches | extract.py:17-23 | no stripped value equals the excluded `" "` entry |
| Normalizer.MarkSettles | extract.py:22-31 | after the rewrite, no text node below the body meets the wrap condition |
| Normalizer.MarkFixedIffSettled | extract.py:22-31 | the rewrite leaves a subtree unchanged if and only if no text node in it meets the wrap condition |
| Normalizer.MarkChildrenIdempotent | extract.py:22-31 | rewriting a rewritten subtree changes nothing |
| Normalizer.MarkChildrenPreserves | extract.py:29-31 | every element keeps its tag and attributes and position; a text node either stays or becomes an `O` span holding the same text |
| Normalizer.PreservesAllKeepsText | extract.py:29-31 | a rewrite of that shape keeps the concatenated text of the document |
| Normalizer.MarkPlainTextEffect | extract.py:19-33 | normalising fails exactly when there is no `body`; otherwise only the first body changes (putting the original back gives the input), it keeps its tag, every element and all text survive, and nothing below the body is left to wrap |
| Normalizer.MarkPlainTextIdempotent | extract.py:19-33 | normalising a normalised document gives it back unchanged |
| Extractor.EntityOf | extract.py:52-55 | the entity of a labelled span holds its class tokens, and its text is the span's `.text` with exactly the whitespace margins cut off |
| Extractor.CollectSpansIsFoldIn | extract.py:50-56 | looping over all spans in document order gives the pre-order fold: a span's entity before those of its descendants, siblings left to right, nested spans included, nothing merged |
| Extractor.ExtractEntities | extract.py:47-58 | the extraction loop returns exactly the pre-order fold of the document, and every entity's text is stripped |
| Extractor.EntitiesOfAllAppend | extract.py:50-56 | the entities of two node sequences placed one after the other are the entities of the first, then those of the second |
| Extractor.NoEntitiesIffNoLabelledSpan | extract.py:50-51 | a document yields no entity if and only if none of its spans carries a `class` attribute |
| Extractor.CollectEmptyIff | extract.py:50-56 | the loop appends nothing if and only if no visited span carries a `class` attribute |
| Rows.BuildRows | extract.py:69-77 | the rows are the header, then one row per entity in order, holding its comma-joined class tokens and its text |
| Rows.RowRoundTrip | extract.py:76 | for an entity with at least one class token and no comma inside a token, splitting its row's class field recovers the entity |
| Pipeline.Process | extract.py:91-93 | the pipeline fails if and only if the document has no `body` anywhere, and every entity it yields has stripped text; `Pipeline.ProcessCount` gives the number of entities |
| Pipeline.ProcessCount | extract.py:91-93 | the pipeline fails exactly when there is no `body`; otherwise it yields the entities already in the document plus one per text node below the body that meets the wrap condition |
| Pipeline.CountWrappedZeroIff | extract.py:26-28 | no text node meets the wrap condition if and only if the number of nodes to wrap is zero |
| Pipeline.EmptyResult | extract.py:91-93 | a document with a body yields no entity if and only if it has no span with a `class` and nothing below the body to wrap |
| Pipeline.ProcessStable | extract.py:91-93 | extracting after normalising twice gives the same entities as after normalising once |
| Pipeline.ExampleSentence | extract.py:17-56 | `<html><body><span class="PER">Ali</span> geldi.</body></html>` yields the entities `PER`/`Ali` and `O`/`geldi.` |

## Left out

- Parsing and serialising HTML (extract.py:19, 33 and 47) are not modelled. Both stages run on one tree, as if serialising and re-parsing gave it back. The new span's `class="O"` is therefore the token list `["O"]`, which is what a re-parse produces.
- `find_all(string=True)` also returns comments, CDATA sections and doctype strings, since they are string subclasses. The tree has only plain text nodes.
- Script and style text is a plain text node in the model, so text inside a `<script>` or `<style>` below the body is wrapped like any other and yields an `O` entity. In the program, the wrapped span is serialised into the script or style and re-parsed as raw text, so no entity appears. This is where treating serialising and re-parsing as the identity is not exact.
- The in-place `replace_with` loop is modelled as a pure rebuild that rewrites every text node against its original parent. This is faithful because the loop iterates over a list computed before any replacement, and a replacement changes only the replaced node.
- Html.ClassTokens: a plain string `class` value stands for its characters, which is what `','.join` iterates over. The parser never produces such a value; only a tag built directly would have one.
- Rows.BuildRows: the model stops at the two fields of each row. CSV quoting, line endings and writing the file (extract.py:69-73) are I/O.
- The driver loop (extract.py:79-96) is left out: reading the directory and files, deriving the output name, and printing.
- A missing `body` raises an `AttributeError` in the source. The model returns `Failure(MissingBody)` instead.
