# Queryer query algebra in Dafny

This project models the pure part of the `Queryer` agent (queryer.py). It turns a
free-text search keyword into a small boolean expression over search terms and
evaluates that expression against a knowledge base. The expression has three
operators: AND `&`, OR `+` and DIFFERENCE `-`, plus parentheses for grouping.

The model follows the program's own pieces, one module each:

- `Results`: the optional value and the failure result. The Python `IndexError`s
  on the query path become explicit failures.
- `Chars`: the character classes. These are Python's whitespace (`\s`,
  `str.isspace`, `str.strip`), the excluded characters of line 46, and operators
  and parentheses.
- `Text`: the Python string primitives the normaliser uses. These are `strip`,
  `lstrip`/`rstrip` of `&`, `re.sub(r'\s+', ...)`, `str.replace` and `''.join`.
- `Normalizer`: `clean_keyword`. There is one function per pass (exclusion,
  whitespace collapse, full-width replacement, split, part processing, join, the
  two parenthesis substitutions, and the `((…))` collapse loop), composed in
  `Clean`.
- `CleanFacts`: what `clean_keyword` does to text that is already clean, and to
  words separated by whitespace.
- `Splitter`: `extract_last_operand` and `extract_first_operand`. Both are
  stack-counting scans for an operator outside parentheses.
- `Nodes`: the answer lists and `union_nodes`, `diff_nodes` and
  `intersect_nodes`.
- `Evaluator`: the recursion and merge of `query_keyword`. The knowledge-base
  lookup is an uninterpreted function `Q` from a cleaned keyword to a node list.

Failures are modelled as follows:

- `expression[0]` on an empty string (lines 110 and 138) is `EmptyExpression`.
- `stack.pop()` on an empty stack (line 131) is `UnmatchedOpenParen`.
- `cleaned_string[-1]` on an empty buffer (line 76) is `EmptyJoinBuffer`.
  `Normalizer.JoinIsConcat` shows it is never raised.

`query_keyword` terminates because of two facts together:

- cleaning a slice of clean text never lengthens it;
- the two sides of a split are strictly shorter than the text that was split.

## Model

| member | source | states |
|---|---|---|
| Filters.FilterKeeps | queryer.py:45-49 | The reference for every "keeps these characters" statement below: the filtered text is an order-preserving subsequence of the input, holding each kept character exactly as often as the input does and no other character. |
| Normalizer.RemoveExcluded | queryer.py:45-49 | The result is the input with the characters listed at line 46 filtered out and nothing else changed. A character is in the result exactly when it is in the input and is not excluded, and input without such characters is returned unchanged. |
| Normalizer.RemoveExcludedKeeps | queryer.py:45-49 | The result is an order-preserving subsequence of the input. It holds every character that is not excluded as often as the input does, and no excluded character. |
| Normalizer.Collapse | queryer.py:52 | After the whitespace collapse and strip, the only whitespace left is the plain space, and every other character comes from the input; whitespace-free text is unchanged. |
| Normalizer.CollapseContent | queryer.py:52 | The collapse and strip keep every non-whitespace character of the input, in order and with multiplicity: only whitespace changes. |
| Normalizer.Prepare | queryer.py:51-53 | After lines 51-53 every character is a plain space, `&`, or an input character that survives normalisation; text made only of such characters passes unchanged. |
| Normalizer.PrepareContent | queryer.py:45-53 | Lines 45-53 keep, in order and with multiplicity, every input character that is not whitespace, excluded, `&` or the full-width `&`. Only those four kinds of character are removed, replaced or added. |
| Normalizer.IdeographicSpaceAlreadyCollapsed | queryer.py:52-53 | The replacement of the full-width space at line 53 never changes anything, because line 52 has already turned every U+3000 into a plain space or stripped it. |
| Normalizer.SplitParts | queryer.py:63 | The `re.split` with a capturing group alternates text parts without operators or parentheses and single delimiter parts, and the parts join back to the input. |
| Normalizer.SplitOfNoDelim | queryer.py:63 | Text with no operator or parenthesis splits into the single part that is the text itself. |
| Normalizer.ProcessParts | queryer.py:66-71 | Delimiter parts are kept as they are and every other part goes through `process_part`, position by position. |
| Normalizer.ProcessPart | queryer.py:56-60 | `process_part` returns a part holding both parentheses unchanged. Any other part comes back without whitespace, and every character of its result is `&` or a character of the part. |
| Normalizer.ProcessPartSpaced | queryer.py:56-60 | Two whitespace-free words without `(`, with whitespace before, between and after them, give the two words joined by exactly one `&`: the outer whitespace is stripped and the inner run becomes a single `&` ("a b" gives "a&b"). |
| Normalizer.ProcessPartContent | queryer.py:56-60 | `process_part` keeps every character of the part other than whitespace and `&`, in order and with multiplicity. |
| Normalizer.ParenPartTestNeverFires | queryer.py:56-60 | After the split of line 63 no operand part contains `(`, so the verbatim branch of line 57-58 never runs and every operand part is stripped and `&`-joined. |
| Normalizer.JoinParts | queryer.py:74-78 | The join can fail only with the `IndexError` of `cleaned_string[-1]` at line 76, and only when the first part is empty and at least one more part follows. |
| Normalizer.JoinIsConcat | queryer.py:74-78 | Every operand part follows a delimiter part, so the join neither inserts `&` nor reads an empty buffer: it equals plain concatenation. |
| Normalizer.Tokenize | queryer.py:55-78 | The tokeniser never fails; its output has no whitespace, every character is `&` or a non-whitespace input character, and whitespace-free input comes back unchanged. |
| Normalizer.TokenizeContent | queryer.py:55-78 | The tokeniser keeps every input character other than whitespace and `&`, in order and with multiplicity. Only whitespace and `&` are removed or added. |
| Normalizer.SeparateOpensFrom | queryer.py:80 | In the lookbehind substitution every `(` ends up first or after an operator, and text already in that shape is copied. |
| Normalizer.SeparateOpensFromPlaces | queryer.py:80 | The lookbehind substitution puts `&` immediately before exactly those `(` that are first or follow a character other than an operator. Every character of the input keeps its order, shifted right by the insertions up to it, and the text grows by one per insertion, so nothing else is added. |
| Normalizer.SeparateOpensFromContent | queryer.py:80 | The lookbehind substitution keeps every character other than `&`, in order and with multiplicity: it only inserts `&`. |
| Normalizer.SeparateOpens | queryer.py:80 | After line 80 every `(` is first or follows an operator, the text does not start with `&`, and on already-separated text only leading `&` are removed. |
| Normalizer.SeparateOpensContent | queryer.py:80 | Line 80 with its `lstrip('&')` keeps every character other than `&`, in order and with multiplicity. |
| Normalizer.SeparateClosesFrom | queryer.py:81 | In the lookahead substitution every `)` ends up followed by an operator, so none is last. The first character is kept, line 80's guarantee about `(` survives, and text already separated is copied, with one `&` added when it ends in `)`. |
| Normalizer.SeparateClosesFromPlaces | queryer.py:81 | The lookahead substitution puts `&` immediately after exactly those `)` that are last or precede a character other than an operator. Every character of the input keeps its order, shifted right by the insertions before it, and the text grows by one per insertion, so nothing else is added. |
| Normalizer.SeparateClosesFromContent | queryer.py:81 | The lookahead substitution keeps every character other than `&`, in order and with multiplicity: it only inserts `&`. |
| Normalizer.SeparateCloses | queryer.py:81 | After line 81 every `)` is last or precedes an operator, the text does not end with `&`, line 80's guarantee about `(` survives, and on already-separated text only trailing `&` are removed. |
| Normalizer.SeparateClosesContent | queryer.py:81 | Line 81 with its `rstrip('&')` keeps every character other than `&`, in order and with multiplicity. |
| Normalizer.Separate | queryer.py:80-81 | After both substitutions the text neither starts nor ends with `&`, its parentheses abut operators, and it contains no `((`. |
| Normalizer.SeparateContent | queryer.py:80-81 | Lines 80-81 together insert or remove only `&`: every other character is kept in order and with multiplicity. |
| Normalizer.FindDoubleClose | queryer.py:85 | The lazy group `(.*?)\)\)` ends at the first `))` at or after its start with no newline before it. It finds nothing exactly when every later `))` has a newline between the start and itself. |
| Normalizer.CollapseFrom | queryer.py:85 | One pass of the `((…))` substitution never lengthens the text, and text without `((` is returned unchanged. |
| Normalizer.RemoveRedundantParens | queryer.py:83-89 | The fixpoint loop never lengthens its input and returns text without `((` unchanged. |
| Normalizer.OpensOkNoDoubleOpen | queryer.py:80-89 | Text whose every `(` is first or follows an operator has no `((`, so the collapse loop receives nothing to collapse. |
| Normalizer.Clean | queryer.py:44-91 | `clean_keyword` never fails. Its result is canonical: no whitespace, no excluded or full-width characters, every `(` first or after an operator, every `)` last or before one. It neither starts nor ends with `&`, and every character is `&` or comes from the keyword. |
| Normalizer.CleanContent | queryer.py:44-91 | Apart from `&`, the cleaned keyword is exactly the keyword's characters that are not whitespace, excluded, `&` or the full-width `&`, in their order and with their multiplicity. Cleaning adds or drops nothing else. |
| CleanFacts.CleanOfCanonical | queryer.py:44-91 | On text that is already canonical, `clean_keyword` only strips the `&` at both ends. |
| CleanFacts.CleanKeeps | queryer.py:44-91 | Canonical text that neither starts nor ends with `&` is its own cleaning. |
| CleanFacts.CleanShrinksCanonical | queryer.py:44-91 | Cleaning canonical text never lengthens it. |
| CleanFacts.CleanJoinsWords | queryer.py:52-60 | Two words separated by any non-empty run of whitespace clean to the two words joined by one `&` ("a b" gives "a&b"). |
| CleanFacts.CleanSpacedOperator | queryer.py:52-63 | Whitespace next to an operator disappears rather than becoming `&`: two words around an operator, with any whitespace (or none) on either side, clean to the two words around the bare operator ("a + b" gives "a+b"). |
| CleanFacts.CleanOpensGroup | queryer.py:80 | A word directly followed by a parenthesised word gets exactly one `&` before the `(` ("a(b)" gives "a&(b)"). |
| CleanFacts.CleanClosesGroup | queryer.py:81 | A parenthesised word directly followed by a word gets exactly one `&` after the `)` ("(a)b" gives "(a)&b"). |
| CleanFacts.CleanIdempotent | queryer.py:44-91 | Cleaning a cleaned keyword changes nothing. |
| Text.TrimLeft | queryer.py:80 | `lstrip`: the result is a suffix of the input, every removed character is a stripped one, and the result does not start with one. |
| Text.TrimRight | queryer.py:81 | `rstrip`: the result is a prefix of the input, every removed character is a stripped one, and the result does not end with one. |
| Text.Strip | queryer.py:108 | `strip()`: the result neither starts nor ends with whitespace, keeps only input characters, and text that neither starts nor ends with whitespace is unchanged. |
| Text.StripSlice | queryer.py:108 | `strip()` returns one contiguous slice of its input, and everything cut off before and after that slice is whitespace. |
| Filters.FilterStrip | queryer.py:52 | `strip()` keeps every non-whitespace character, in order and with multiplicity. |
| Text.ReplaceRuns | queryer.py:52 | `re.sub(r'\s+', rep, s)`: every character of the result is from `rep` or is a non-whitespace input character, and whitespace-free text is unchanged. |
| Text.ReplaceRunsStep | queryer.py:52 | A whitespace-free stretch, a maximal non-empty whitespace run and the rest of the text give the stretch, exactly one copy of the replacement, and the substitution of the rest: one replacement per run. |
| Filters.FilterReplaceRuns | queryer.py:52 | The run substitution keeps every non-whitespace character in order and with multiplicity, when the replacement holds none of the characters counted. |
| Text.ReplaceChar | queryer.py:53 | `str.replace` of one character: same length, and each position is replaced exactly when it held the old character. |
| Splitter.Unwrap | queryer.py:138-139 | Text that starts with `(` and ends with `)` loses both; any other text is kept. |
| Splitter.ScanLast | queryer.py:125-135 | The right-to-left scan returns a position holding an operator at depth zero, with every position to its right passed. It returns no position only when every position is passed. It fails only at a `(` met with an empty stack, everything to its right having been passed. |
| Splitter.FindLastOpAt | queryer.py:125-135 | `find_last_operator` returns `i` if and only if `e[i]` is an operator at depth zero and the scan passes every position to its right. |
| Splitter.FindLastOpFails | queryer.py:126-131 | `find_last_operator` raises if and only if, reading from the right, some `(` with no pending `)` is met before any operator at depth zero. |
| Splitter.FindLastOpNoDelim | queryer.py:125-135 | Text with no operator or parenthesis has no operator to return. |
| Splitter.ExtractLast | queryer.py:124-153 | `extract_last_operand` fails on empty input, and only then with the empty-input error. Otherwise it fails only at an unmatched `(`. It returns the unwrapped text whole when the scan finds no operator. Else it splits at an operator at depth zero with no depth-zero operator to its right, and both sides are the stripped slices. |
| Splitter.ExtractLastBeforeWord | queryer.py:124-153 | Text ending in an operator followed by a word splits at that operator into the stripped text before it and the stripped word. |
| Splitter.ExtractLastNoDelim | queryer.py:138-146 | Text with no operator or parenthesis comes back whole with no operator. |
| Splitter.ExtractLastWrappedNoDelim | queryer.py:138-146 | A word in one pair of parentheses is unwrapped and comes back without an operator. |
| Splitter.ExtractLastSplitsAtLastOperator | queryer.py:124-153 | "A&B+C" gives ("A&B", "+", "C"). |
| Splitter.ExtractLastKeepsGroup | queryer.py:124-153 | "(A+B)-C" is not unwrapped, because its last character is not `)`, and gives ("(A+B)", "-", "C"). |
| Splitter.ExtractLastUnwraps | queryer.py:138-153 | "(A+B)" is unwrapped and gives ("A", "+", "B"). |
| Splitter.ExtractLastSingleOperand | queryer.py:142-146 | "A" gives ("A", "", ""). |
| Splitter.ExtractLastUnbalancedAfterUnwrap | queryer.py:124-142 | "(A)&(B)" is unwrapped to "A)&(B", and the scan then pops an empty stack and raises. |
| Splitter.ScanFirst | queryer.py:97-106 | The left-to-right scan, which ignores a `)` met with an empty stack, returns the first operator at depth zero, or nothing when there is none. |
| Splitter.FindFirstOpAt | queryer.py:95-106 | `find_first_operator` returns `i` if and only if `e[i]` is an operator at depth zero and no earlier position is. |
| Splitter.UnwrapFirst | queryer.py:108-112 | The stripped text fails at line 110 exactly when it is empty; otherwise one outer pair of parentheses is dropped and the inside stripped again. |
| Splitter.ExtractFirst | queryer.py:94-121 | `extract_first_operand` fails exactly when the stripped input is empty. Otherwise it splits at the first operator at depth zero into stripped slices, or returns the unwrapped text whole when there is none. |
| Splitter.ExtractFirstIgnoresStrayClose | queryer.py:101-103 | The same "(A)&(B)" that makes `extract_last_operand` raise is split by `extract_first_operand` at `&` into "A)" and "(B", because a stray `)` is ignored. |
| Nodes.FirstIndex | queryer.py:156-165 | The first position holding an identifier: it holds it and no earlier position does. |
| Nodes.LastIndex | queryer.py:156-165 | The last position holding an identifier: it holds it and no later position does. |
| Nodes.UnionNodes | queryer.py:156-165 | `union_nodes` returns one node per identifier, the identifiers being those of both lists together. Each identifier's node is its last occurrence in `nodes1 + nodes2`, and identifiers appear in order of first occurrence, as the id-keyed dict gives. |
| Nodes.UpsertSpec | queryer.py:159-163 | One more assignment `id_map[node['id']] = node`: if the list describes the dict built from the nodes so far, the upserted list describes the dict built from those nodes plus the new one. |
| Nodes.UnionLeftIdsFirst | queryer.py:159-165 | Every identifier of `nodes1` comes before every identifier that only `nodes2` has. |
| Nodes.UnionPrefersRight | queryer.py:162-163 | An identifier present in `nodes2` takes `nodes2`'s last record for it; any other identifier keeps `nodes1`'s last record. |
| Nodes.UnionExample | queryer.py:156-165 | [{1, a}] and [{1, b}, {2, c}] give [{1, b}, {2, c}]. |
| Nodes.Select | queryer.py:183-186 | The list comprehensions: the result is an order-preserving subsequence holding every entry that passes the membership test as often as the input does, and nothing else. |
| Nodes.EvidenceIds | queryer.py:171-175 | An identifier is collected exactly when some node of `nodes2` has `properties` with a `file_id` list containing it; `files` entries of `nodes2` are ignored. Lines 194-198 collect the same set for the intersection. |
| Nodes.Prune | queryer.py:178-186 | One node of `nodes1`: its identifier and other keys are unchanged, and a node without `properties` is untouched. Each present `file_id` or `files` list becomes the order-preserving filter of the old one that keeps exactly the entries whose file identifier is in the set (intersection) or not in it (difference), and an absent list stays absent. |
| Nodes.PruneAll | queryer.py:178-186 | The filter is applied to each node in place: same length, and each position holds the filtered node. |
| Nodes.DiffNodes | queryer.py:168-188 | `diff_nodes` keeps the nodes, their order, identifiers, other keys and other properties. It filters each present `file_id` and `files` list down to the files `nodes2` does not mention, and leaves nodes without `properties` untouched. |
| Nodes.IntersectNodes | queryer.py:191-211 | `intersect_nodes` does the same with the filter reversed: only the files `nodes2` mentions are kept. |
| Nodes.SelectPartition | queryer.py:183-206 | Keeping the members and dropping them split a list into two parts that together hold every entry as often as before. |
| Nodes.DiffIntersectPartition | queryer.py:168-211 | Intersect and diff against the same `nodes2` split each node's `file_id` list into two parts that together hold every entry as often as the original list. |
| Nodes.DiffIntersectPartitionFiles | queryer.py:168-211 | The same for each node's `files` list. |
| Nodes.SelectIdempotent | queryer.py:183-209 | Filtering a second time by the same identifiers changes nothing. |
| Nodes.DiffIdempotent | queryer.py:168-188 | Applying `diff_nodes` twice with the same `nodes2` is applying it once. |
| Nodes.IntersectIdempotent | queryer.py:191-211 | Applying `intersect_nodes` twice with the same `nodes2` is applying it once. |
| Nodes.IntersectExample | queryer.py:191-211 | A node with evidence [10, 20, 30], intersected with an answer mentioning files 20 and 30, keeps [20, 30]. |
| Evaluator.Merge | queryer.py:228-233 | `+` gives the id-keyed union of both answers. `-` keeps the first answer's nodes in order and removes from their evidence the files the second answer mentions. Any other operator keeps only those files. |
| Evaluator.Eval | queryer.py:214-242 | `query_keyword` fails only with the empty-expression or unmatched-parenthesis error, and it fails with the former whenever the keyword cleans to nothing. |
| Evaluator.EvalClean | queryer.py:216-242 | Once the keyword is clean: empty text fails with the empty-expression error, and no error other than that and the unmatched-parenthesis error can arise from the recursion. |
| Evaluator.SplitShrinks | queryer.py:216-225 | Both sides of a split of clean text clean to something strictly shorter than the text, so the recursion terminates. |
| Evaluator.EvalOfCleaned | queryer.py:215 | Cleaning the keyword beforehand changes nothing. |
| Evaluator.EvalWord | queryer.py:235-242 | A single word is looked up as it is. |
| Evaluator.ChainSplit | queryer.py:124-153 | A chain `w0 o1 w1 … on wn` of words and operators splits at its last operator into the shorter chain and the last word. |
| Evaluator.EvalChain | queryer.py:214-234 | A chain of words evaluates strictly left to right with all operators binding equally: `((w0 o1 w1) o2 w2) …`. |
| Evaluator.EvalLeftAssociative | queryer.py:214-234 | "A-B-C" means (A minus B) minus C, not A minus (B minus C). |
| Evaluator.EvalOperatorThenGroup | queryer.py:214-234 | A word, an operator and a parenthesised pair of words evaluate inside out: "w&(a+b)" is `Q(w)` intersected with the union of `Q(a)` and `Q(b)`, for any operators. |
| Splitter.ExtractLastBeforeGroup | queryer.py:124-153 | Text ending in an operator followed by a parenthesised group without inner parentheses is split at that operator, not inside the group: the scan pushes the group's `)`, pops it at the `(`, and stops at the operator. |
| Evaluator.EvalWrappedWord | queryer.py:236-238 | A parenthesised word is looked up with its parentheses, because line 238 sends the cleaned keyword rather than the unwrapped one. |
| Evaluator.EvalTwoGroupsFails | queryer.py:214-218 | The query "(a)&(b)" is already clean, is unwrapped to "a)&(b", and raises. |
| Evaluator.EvalLeadingOperatorFails | queryer.py:214-225 | A keyword that starts with `-` before a word leaves an empty left side, and the recursive call raises at line 138. |

## Left out

- `EventData`, `connected_event`, `on_connected`, `query` and the worker lifecycle (`start_thread`, `terminate`) are not modelled. They do message passing and thread start-up, and the model does not cover any exception they raise.
- Evaluator.Eval: the model assumes that the two child workers of lines 219-220 are constructed. As written, `Queryer(self.config)` passes one argument to `__init__` (line 27), which takes two (`name` and `agent_config`). So `query_keyword` raises `TypeError` on every keyword that splits at an operator, and only single-operand keywords reach the lookup. The model evaluates the split as the code after line 220 evidently intends.
- The knowledge-base request of lines 236-242 (publish on the bus, wait, `answer['nodes']`) is the parameter `Q`. Whatever `Q` would raise is not modelled.
- `asyncio.gather` runs both sides concurrently, and `Evaluator.Combine` evaluates them in order. When both sides raise, the model reports the left side's error.
- Logging, `json` decoding and the commented-out `query_keyword` variant built on `extract_first_operand` are not modelled. tunatalk.py is not part of this model: it does configuration, audio file and web page I/O, with no query logic.
- `diff_nodes` and `intersect_nodes` mutate `nodes1` in place. They are modelled as functions returning new lists, and any aliasing between the two answers is not modelled.
- Node identifiers and file identifiers are integers. Keys other than `id`, `properties`, `file_id` and `files` are opaque string maps.
- A `files` entry without a `file_id` key raises `KeyError` in Python. The model gives every entry a file identifier.
- Malformed answers are not modelled. A node without `id` raises `KeyError` at lines 160 and 163. A JSON `null` `properties`, a `file_id` or `files` value that cannot be iterated (a number or `null`), or a `files` entry that is a number raises `TypeError` within lines 174-175, 181-186, 197-198 or 204-209. The `Node` datatype makes each of these shapes unrepresentable.
- `extract_last_operand` marks "no operator" with `""` and `extract_first_operand` with `None`. Both are `Option.None`, since only their truthiness is used.
- The normalisation and evaluation of "café (AI + ML)" is not proved as an example, and the general lemmas do not cover it: its group has spaces inside and before it. What is proved holds for every text of the shapes the lemmas name: the shape and content guarantees of `Normalizer.Clean`, `CleanFacts.CleanJoinsWords`, `CleanFacts.CleanSpacedOperator`, `CleanFacts.CleanOpensGroup` and `Evaluator.EvalOperatorThenGroup`.
- Normalizer.Clean: where `&` ends up is stated only for these families: two words across whitespace (`CleanFacts.CleanJoinsWords`), two words around an operator with optional whitespace (`CleanFacts.CleanSpacedOperator`), a word directly next to a parenthesised word (`CleanFacts.CleanOpensGroup`, `CleanFacts.CleanClosesGroup`), and canonical text (`CleanFacts.CleanOfCanonical`). Chains of more than two words, and groups with whitespace around them or an operator inside, are covered only by the general shape guarantee and by `Normalizer.CleanContent`.
- Evaluator.Eval: the contract states only the failure cases. What a successful evaluation returns is stated by `Evaluator.EvalWord`, `Evaluator.EvalChain`, `Evaluator.EvalOperatorThenGroup` and `Evaluator.EvalWrappedWord`, for those families of keywords only.
- Evaluator.EvalClean: the contract states only which errors can arise from clean text. What a split or a lookup returns is stated for the families above, not for every clean text.
- Normalizer.CollapseFrom: the contract states only the length bound and that text without `((` is copied. It does not state what a pass produces on text with `((`, since `Normalizer.Clean` never hands it any.
- Normalizer.Collapse: the contract states shape only. Which characters are kept is stated by `Normalizer.CollapseContent`.
- Normalizer.Prepare: the contract states shape only. Which characters are kept is stated by `Normalizer.PrepareContent`.
- Normalizer.Tokenize: the contract states shape only. Which characters are kept is stated by `Normalizer.TokenizeContent`.
- Normalizer.ProcessPart: for a part without both parentheses the contract states shape only. The exact result is stated by `Text.StripSlice` (line 60's `strip()`) and `Text.ReplaceRunsStep` (one `&` per whitespace run), and for words with whitespace around and between them by `Normalizer.ProcessPartSpaced`.
- Normalizer.SeparateOpensFrom: the contract states shape only. Where `&` is inserted is stated by `Normalizer.SeparateOpensFromPlaces`, and what is kept by `Normalizer.SeparateOpensFromContent`.
- Normalizer.SeparateClosesFrom: the contract states shape only. Where `&` is inserted is stated by `Normalizer.SeparateClosesFromPlaces`, and what is kept by `Normalizer.SeparateClosesFromContent`.
- Normalizer.SeparateOpens: the contract states shape only. Which characters are kept is stated by `Normalizer.SeparateOpensContent`, and where line 80 inserts `&` by `Normalizer.SeparateOpensFromPlaces`.
- Normalizer.SeparateCloses: the contract states shape only. Which characters are kept is stated by `Normalizer.SeparateClosesContent`, and where line 81 inserts `&` by `Normalizer.SeparateClosesFromPlaces`.
- Normalizer.Separate: the contract states shape only. Which characters are kept is stated by `Normalizer.SeparateContent`.
- Normalizer.Clean: the contract states shape only. Which characters are kept is stated by `Normalizer.CleanContent`.
- Text.Strip and Text.ReplaceRuns: the functions' contracts state shape only. The slice and content properties are the lemmas `Text.StripSlice`, `Filters.FilterStrip`, `Text.ReplaceRunsStep` and `Filters.FilterReplaceRuns`.
- Normalizer.RemoveRedundantParens: the contract states the length bound and that text without `((` is unchanged, but not what a collapse produces in general. `Normalizer.Clean` shows that the loop never receives `((`.

Four steps of `clean_keyword` never take effect, although the comments at lines 58, 62 and 73 or the steps' presence suggest they do:

- The `((X))` to `(X)` loop of lines 83-89 never changes anything. Line 80 has already put `&` between adjacent `(` (`Normalizer.OpensOkNoDoubleOpen`).
- The join of lines 74-78 never inserts `&`. The split of line 63 puts a delimiter part between any two operand parts, so the join is plain concatenation (`Normalizer.JoinIsConcat`). The `&` between two words comes from line 60 (`CleanFacts.CleanJoinsWords`).
- The verbatim branch of lines 57-58 for parts containing `(` never runs. After the split of line 63 no operand part contains `(` (`Normalizer.ParenPartTestNeverFires`).
- The full-width space replacement of line 53 never fires. Line 52 has already turned every U+3000 into a plain space or stripped it, and that space becomes `&` only between two words (`Normalizer.IdeographicSpaceAlreadyCollapsed`).
