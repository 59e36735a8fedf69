# jQuery-Truncate in Dafny

This is a verified model of the text-truncation core of `jquery.truncate.js`, the
jQuery plugin by Peter Galiba. The model covers three parts.

- **`truncate(nodes, minLength, settings)` and its inner walk `getText`.** The walk
  goes through a forest of document nodes depth-first and left to right. It
  collects the text of text and CDATA nodes. It trims leading whitespace while the
  text is still empty. When `truncateWhitespace` is set, it collapses every run of
  whitespace to one space. It stops once the text is at least `minLength` long and,
  in a delimiter mode, once a boundary follows position `minLength`. A boundary is
  sentence punctuation followed by whitespace, or an ideographic full stop, or a
  single whitespace character. The walk returns the text cut at that boundary and
  the last non-text, non-comment node it entered.
- **`fn.truncate`.** It runs `truncate` on the first selected node and projects the
  result by `retType`.
- **`fn.closestChild`.** For every selected node it walks up the parent chain. It
  reports the node just below the first ancestor that matches the selector, or the
  node itself when that node matches. Duplicates are removed from the result.

Module layout:

- `patterns.dfy` (`Patterns`): the two regular expressions of the plugin and the
  two `replace` calls, as pure functions on `seq<char>`:
  - `\s` is the ECMAScript 5 set of white space and line terminators;
  - `FirstBoundary` is the leftmost match that `RegExp.prototype.exec` returns;
  - `TrimStart` is `replace(/^\s+/g, '')`;
  - `Collapse` is `replace(/\s+/g, ' ')`.
- `truncate.dfy` (`Truncation`): the node tree and the walk.
  - The closure of `truncate` is the class `Walk`. Its fields are the closure
    variables `text`, `searching` and `lastNode`.
  - `getText` is the recursive method `Walk.GetText`, with the same loop. Its body
    for text and CDATA nodes is the method `Walk.AppendText`.
  - It is proved against `Run`, a fold over the flat pre-order `Events` of the
    forest.
- `truncate_proofs.dfy` (`TruncationProofs`): what the walk computes, stated
  without the walk. The main result is `TruncateAtBoundary`. In a delimiter mode,
  the incremental walk returns exactly the whole normalised text content cut at
  its first boundary at or after `minLength`. It holds however the text is split
  into nodes.
- `plugin.dfy` (`TruncatePlugin`): `fn.truncate`, its defaults and the `retType`
  projection.
- `closest_child.dfy` (`ClosestChild`): `fn.closestChild` over explicit parent
  chains.
- `truncate_examples.dfy` (`TruncationExamples`): worked cases derived from the
  general lemmas.

The sentence punctuation set is the character class of the regular expression at
line 16: `.`, `!`, `?`, U+00A1, U+203C, U+2026, U+00BF and U+203D.

## Model

| member | source | states |
|---|---|---|
| Patterns.IsWs | jquery.truncate.js:16-17 | `\s`: the ECMAScript 5 white space and line terminator characters. |
| Patterns.SentenceAt | jquery.truncate.js:16 | `punctations` matches at `i`: a sentence punctuation character followed by whitespace, or an ideographic full stop. |
| Patterns.BoundaryAt | jquery.truncate.js:48 | The active pattern matches at `i`: `punctations` when sentence-safe, otherwise `wordDelim` (a single whitespace character). |
| Patterns.FirstBoundaryFrom | jquery.truncate.js:16-17 | The leftmost index at or after `k` where the pattern matches. It returns nothing exactly when no index from `k` on matches. |
| Patterns.FirstBoundary | jquery.truncate.js:70 | `regex.exec(s)`: the result is a matching index with no match before it. It is absent exactly when the pattern matches nowhere in `s`. |
| Patterns.TrimStart | jquery.truncate.js:63 | `replace(/^\s+/g, '')`: only whitespace is dropped, and the result is empty or starts with a non-whitespace character. |
| Patterns.TrimStartIsSuffix | jquery.truncate.js:63 | Trimming removes a prefix: the result is a suffix of the input. |
| Patterns.TrimStartAppend | jquery.truncate.js:63 | Trimming `a + b` trims `a` when `a` has non-whitespace; otherwise it trims `b`. |
| Patterns.TrimStartKeepsWords | jquery.truncate.js:63 | Trimming keeps the non-whitespace characters, in order. |
| Patterns.Collapse | jquery.truncate.js:64-66 | `replace(/\s+/g, ' ')`: the result is no longer than the input and is empty only if the input is. Its first character is a space exactly where the input starts with whitespace. |
| Patterns.CollapseShape | jquery.truncate.js:64-66 | After collapsing, every whitespace character is a plain space and no two whitespace characters are adjacent. |
| Patterns.CollapseKeepsWords | jquery.truncate.js:64-66 | Collapsing keeps the non-whitespace characters, in order. |
| Patterns.CollapseAppend | jquery.truncate.js:63-66 | Collapsing the collapsed text plus a new chunk gives the same text as collapsing the raw concatenation. This makes the walk's repeated collapse of the growing text well-defined. |
| Patterns.CollapseAppendSpace | jquery.truncate.js:63-66 | The same as `CollapseAppend`, for a text that starts with whitespace. |
| Patterns.CollapseCharHead | jquery.truncate.js:64-66 | A leading non-whitespace character is kept by both ways of collapsing, and the rest is collapsed. |
| Patterns.CollapseSpaceHead | jquery.truncate.js:63-66 | A leading whitespace run becomes one space in both ways of collapsing, and the rest is trimmed, then collapsed. |
| Patterns.CollapsedSpaceHead | jquery.truncate.js:64-66 | Collapsing text that begins with an already collapsed whitespace run yields one space, then the trimmed rest collapsed. |
| Patterns.CollapseIdempotent | jquery.truncate.js:64-66 | Collapsing twice is collapsing once. |
| Patterns.CollapsePrefix | jquery.truncate.js:64-66 | Appending raw text only extends the collapsed text. |
| Patterns.CollapseFixed | jquery.truncate.js:64-66 | A text whose whitespace is already single spaces is left unchanged. |
| Patterns.BoundaryShift | jquery.truncate.js:70 | A match in `text.slice(minLength)` at `i` is a match in `text` at `minLength + i`. |
| Patterns.BoundaryExtends | jquery.truncate.js:70 | A match inside a prefix remains a match once more text follows. |
| Patterns.FirstBoundaryExtends | jquery.truncate.js:70 | Once a prefix has a match, the first match of any extension is the same index. |
| Truncation.CheckDelim | jquery.truncate.js:47 | `checkDelim`: a delimiter mode is on when sentence-safe or word-safe is set. |
| Truncation.NodeEvents | jquery.truncate.js:61-85 | One node in visiting order: a text or CDATA node yields its data, a comment nothing, any other node is entered and then its children follow. |
| Truncation.Events | jquery.truncate.js:57-85 | A forest in visiting order: each node's events, left to right (depth-first, pre-order). |
| Truncation.Accumulate | jquery.truncate.js:63-66 | Appending one node's data: trimmed while the text is still empty, then the whole text collapsed when `truncateWhitespace` is set. |
| Truncation.CutLength | jquery.truncate.js:72 | The cut length once the pattern matched at `index` of `text.slice(minLength)`: the delimiter is excluded when word-safe and included otherwise. |
| Truncation.Step | jquery.truncate.js:61-85 | One node visit while searching: entering a structural node sets `lastNode`; a text event appends and checks. |
| Truncation.Run | jquery.truncate.js:52-87 | The walk as a fold over the events, stopping as soon as `searching` drops; `getText` is proved equal to it. |
| Truncation.AppendChars | jquery.truncate.js:61-79 | A text or CDATA node never changes `lastNode`. The walk stops only when the text is at least `minLength` long. |
| Truncation.RunAppend | jquery.truncate.js:52-87 | Walking `a + b` is walking `a`, then `b` from the state `a` left. |
| Truncation.Walk.constructor | jquery.truncate.js:41-48 | The closure starts with empty text, searching, and no node. |
| Truncation.Walk.AppendText | jquery.truncate.js:61-79 | The loop body for a text or CDATA node moves the closure state exactly as one text step of the fold does. |
| Truncation.Walk.GetText | jquery.truncate.js:52-87 | `getText(elems)` leaves the closure in the state of the pre-order fold `Run(Events(elems))` from the state before the call. |
| Truncation.Truncate | jquery.truncate.js:40-93 | `truncate` returns the text and last node of the fold from the initial state. |
| TruncationProofs.AppendNormalizes | jquery.truncate.js:63-66 | Appending one node's data to the normalised text gives the normalised form of the concatenated raw text. |
| TruncationProofs.NormalizedPrefix | jquery.truncate.js:63-66 | More raw text only extends the normalised text. |
| TruncationProofs.NormalizedShape | jquery.truncate.js:63-66 | The normalised text does not start with whitespace. When collapsing, its whitespace is single spaces. |
| TruncationProofs.PrefixShape | jquery.truncate.js:63-66 | A prefix of a text keeps the text's whitespace shape. |
| TruncationProofs.TextOfAppend | jquery.truncate.js:52-87 | The text of concatenated events is the concatenation of their texts. |
| TruncationProofs.EventsAppend | jquery.truncate.js:57 | The events of two forests side by side are the events of one, then the other. |
| TruncationProofs.RunSnoc | jquery.truncate.js:57 | While searching, one more event is one more step. |
| TruncationProofs.StepTracks | jquery.truncate.js:61-85 | One event keeps the text tracking the raw text seen so far, extended by the event's data. |
| TruncationProofs.RunTracks | jquery.truncate.js:61-79 | Invariant: the text is a prefix of the normalised raw text seen so far, and equals it while searching. |
| TruncationProofs.RunStopLength | jquery.truncate.js:68-78 | Once the walk has stopped, the text is at least `minLength` long. |
| TruncationProofs.CutAtBoundary | jquery.truncate.js:68-74 | The reference cut of a whole text is a prefix of it. |
| TruncationProofs.CutAtBoundaryMeaning | jquery.truncate.js:68-74 | With no boundary at or after `minLength` the text stays whole. Otherwise it is cut at the first such boundary: the delimiter is dropped when word-safe and kept otherwise. |
| TruncationProofs.StepCut | jquery.truncate.js:70-73 | The cut made when the first boundary appears is the reference cut of the whole text, however much text follows. |
| TruncationProofs.RunCut | jquery.truncate.js:52-87 | In a delimiter mode, from a searching state, the walk's final text is the reference cut of everything seen. |
| TruncationProofs.TruncateAtBoundary | jquery.truncate.js:40-93 | In a delimiter mode, `truncate` returns the normalised text content cut at its first boundary at or after `minLength`. |
| TruncationProofs.TruncateTracks | jquery.truncate.js:40-93 | The returned text is a prefix of the normalised text content, and equals it if the walk never stopped. |
| TruncationProofs.TruncateIsPrefix | jquery.truncate.js:89-92 | The returned text is a prefix of the normalised text content. |
| TruncationProofs.TruncateLength | jquery.truncate.js:68-78 | The returned text is at least `minLength` long, or it is the whole normalised text. |
| TruncationProofs.TruncateFailsOpen | jquery.truncate.js:68-75 | If the text is too short, or has no boundary after `minLength` in a delimiter mode, the whole normalised text is returned. |
| TruncationProofs.WalkShape | jquery.truncate.js:63-66 | At every point of the walk the text does not start with whitespace. When collapsing, its whitespace is single spaces. |
| TruncationProofs.TruncateShape | jquery.truncate.js:63-66 | The same shape holds for the returned text. |
| TruncationProofs.CommentsIgnored | jquery.truncate.js:82 | Removing a comment node changes neither the text nor the node returned. |
| TruncationProofs.TruncateIdempotent | jquery.truncate.js:61-79 | Truncating a returned text again, with a limit no smaller than its length, gives it back unchanged and with no node. |
| TruncationProofs.Consumed | jquery.truncate.js:57 | The number of events the walk handles is at most the number of events. |
| TruncationProofs.LastEnterCons | jquery.truncate.js:83 | The last node entered, computed from the front. |
| TruncationProofs.LastEnterFound | jquery.truncate.js:83 | There is a last entered node exactly when some node was entered, and that node was entered. |
| TruncationProofs.RunConsumed | jquery.truncate.js:57-85 | The walk's result is the result of its first `c` events. It was searching before each of them, and stopped on a text event if it stopped early. `lastNode` is the last node entered among them. |
| TruncationProofs.PrefixTracks | jquery.truncate.js:61-79 | After any prefix of the events, the text tracks that prefix's normalised text. |
| TruncationProofs.TruncateStopsAt | jquery.truncate.js:40-93 | `truncate` stops after exactly the events it consumed, on a text node with at least `minLength` characters if it stopped early. The returned node is the last structural node entered before that point, and it is absent only if none was entered. |
| TruncationProofs.UncutStop | jquery.truncate.js:76-78 | Without a delimiter mode, the text event that stops the walk leaves all the normalised text seen so far. |
| TruncationProofs.ShortWhileSearching | jquery.truncate.js:68-78 | Without a delimiter mode, a text event after which the walk goes on leaves less than `minLength` characters. |
| TruncationProofs.TruncateWithoutDelimiter | jquery.truncate.js:76-78 | Without a delimiter mode the walk stops at the first text node that reaches `minLength` and returns the whole normalised text up to it, uncut. |
| TruncationProofs.RootEntered | jquery.truncate.js:82-84 | Truncating an element always reports a node. |
| TruncationExamples.SentencesNormalized | jquery.truncate.js:63 | The sample text, which starts with a letter, is its own normal form. |
| TruncationExamples.SingleText | jquery.truncate.js:61 | A lone text node's text content is its data. |
| TruncationExamples.FirstSentenceEnd | jquery.truncate.js:16 | In `"Hello world. This is a test."`, the first sentence boundary from index 5 is at index 11, and the text up to and including it is `"Hello world."`. |
| TruncationExamples.FirstSpace | jquery.truncate.js:17 | The first whitespace of the sample text is at index 5, right after `"Hello"`. |
| TruncationExamples.SentenceSafeKeepsPunctuation | jquery.truncate.js:70-73 | Sentence-safe but not word-safe, `minLength` 5: the result is `"Hello world."`. |
| TruncationExamples.WordSafeDropsDelimiter | jquery.truncate.js:70-73 | Word-safe only, `minLength` 5: the result is `"Hello"`. |
| TruncationExamples.FirstChunk | jquery.truncate.js:61-75 | Word-safe, `minLength` 1: after `"ab"` there is no whitespace to cut at, so the walk goes on with text `"ab"`. |
| TruncationExamples.SecondChunk | jquery.truncate.js:61-75 | Appending `"c"` gives `"abc"`, still with no boundary, so the walk goes on. |
| TruncationExamples.ThirdChunk | jquery.truncate.js:61-75 | Appending `" d"` finds the space and stops with `"abc"`, the delimiter dropped. |
| TruncationExamples.LastEnteredNode | jquery.truncate.js:82-84 | For `<p>ab<b>c</b> d</p>` with `minLength` 1, the result is `"abc"` and the reported node is `<b>`, the last node entered. |
| TruncatePlugin.DefaultOptions | jquery.truncate.js:134-139 | `fn.truncate.defaultSettings`: `retType` `'both'`, word-safe, sentence-safe and whitespace truncation all on. |
| TruncatePlugin.Project | jquery.truncate.js:126-129 | `'text'` selects the text and `'node'` selects the node. Any other `retType` keeps the whole object unchanged. |
| TruncatePlugin.TruncateFirst | jquery.truncate.js:121-132 | The result is null exactly for an empty selection. Otherwise it is the projection of `truncate` on the first node alone. |
| ClosestChild.Chain | jquery.truncate.js:164-173 | The chain walked is the node followed by its ancestors. |
| ClosestChild.MatchFrom | jquery.truncate.js:166-178 | The first matching node reached from `k` upwards, with nothing halting the walk before it. It is absent exactly when every matching node lies beyond a halting ancestor. |
| ClosestChild.Halts | jquery.truncate.js:174 | The upward walk gives up at an ancestor without an owner document, at the `context` node, or at a document fragment (node type 11). |
| ClosestChild.ClosestFor | jquery.truncate.js:164-178 | The answer for one selected node: the node itself if it matches, else the node just below the first matching ancestor reached, else nothing. An answer always lies on the node's chain. |
| ClosestChild.Found | jquery.truncate.js:163-179 | The answers of the selected nodes, in selection order, as `ret.push` collects them before `$.unique`. |
| ClosestChild.Unique | jquery.truncate.js:181 | `$.unique` keeps the same members, each once. |
| ClosestChild.ClosestChild | jquery.truncate.js:156-184 | A node is in the result exactly when it is the per-node answer for some selected node. The result has no duplicates and is no longer than the selection. |
| ClosestChild.FoundSnoc | jquery.truncate.js:163-179 | Each further selected node appends its own answer, if any, to the collected nodes. |
| ClosestChild.FoundMembers | jquery.truncate.js:163-179 | Before `$.unique`, the collected nodes are exactly the per-node answers, at most one per selected node. |
| ClosestChild.ClosestForMeaning | jquery.truncate.js:163-179 | Stated without the loop: there is no answer exactly when no matching node is reachable. Otherwise the answer is the node itself if it matches, else the node just below the first reachable matching ancestor. |
| ClosestChild.GrandparentMatch | jquery.truncate.js:163-179 | A node whose grandparent matches, with nothing halting the walk, yields its parent. |

## Left out

- `fn.truncated` (lines 209-242): it wraps and hides DOM nodes, inserts a toggler and animates it. This is DOM mutation, events and animation, and it is not modelled.
- `$.extend` option merging (line 124): the model takes the merged `Options` directly. `DefaultOptions` records the defaults.
- Selector resolution in `closestChild` (`$.expr.match.POS`, `$(cur).is(selector)`, `pos.index(cur)`, lines 157-159 and 167): the selector is given as the set of nodes it matches.
- `pushStack` (line 183): the jQuery wrapper object is not modelled; the result is the sequence of nodes.
- ClosestChild.Unique: `$.unique` also sorts into document order. The model keeps first-occurrence order, so `ClosestChild.ClosestChild` states members and absence of duplicates, not order.
- TruncatePlugin.Project: `retType in truncated` is also true for names inherited from `Object.prototype` (such as `'toString'`). Those names are not modelled; they keep the whole result.
- Node identity is value equality of the `Node` and `DomRef` datatypes, not object identity.
- Comment nodes are treated as having no children. Other non-text node types (processing instructions, document types) are structural nodes, usually without children, and they set `lastNode` as in the code.
- `minLength` is a natural number. Negative, fractional or non-numeric values, which JavaScript's `slice` and comparisons would coerce, are not modelled.
- Strings are sequences of `char`, so lengths are not UTF-16 code-unit counts. `\s` follows ECMAScript 5 and excludes U+180E.
- TruncationExamples.LastEnteredNode: it uses word-safe mode without whitespace collapsing to keep the concrete computation small. The general lemmas cover the default settings.
