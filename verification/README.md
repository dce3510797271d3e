# tipping: a verified model

`tipping` mines templates from log lines. It tokenizes each distinct line, counts how often
tokens occur and co-occur, picks for every line the tokens that depend on each other (its
*anchors*), groups lines with the same anchors into clusters, renders a template and a
parameter mask for every line of a cluster, and offers a runtime matcher and an exact codec
over the resulting template table.

This project models that pipeline in Dafny, from bytes to the codec's round trip, and proves
what each stage promises. Code that works by changing things step by step is imperative here
too: the explicit frames of the two graph passes, the growing trie, the marks that are cleared
by advancing an epoch, the byte buffers of masks, the goroutines as worker objects whose steps
interleave in any order. Each such method is proved against a specification function, and the
properties are proved about that function.

`dafny verify dfyconfig.toml` checks everything.

## How the files follow the program

| files | program part |
|---|---|
| `Bytes`, `Unicode`, `Utf8`, `Sorting` | Go strings as bytes, UTF-8 decoding, sorting and ranging over maps |
| `Graph`, `Scc`, `SearchOrder`, `Kosaraju`, `Anchors`, `Dependencies` | `graph.go` |
| `TokenRecord`, `Dedup`, `Interner` | `token_record.go` and the deduplication and interning of `parser.go` |
| `AhoTrie`, `AhoCorasick` | `aho_corasick.go` |
| `Placeholder`, `GreedyMatch`, `MatcherSpec`, `Matcher` | `matcher.go` |
| `Tokens`, `SymbolTable`, `Splitting`, `Tokenizer`, `TokenizeSimd`, `Specials`, `Tokenize`, `SpecialTokens` | `tokenizer.go`, `tokenize_simd.go`, re-splitting in `parser.go` |
| `Pieces`, `Template` | `template.go` |
| `AnchorKey`, `Sharding`, `Grouping`, `Sampling`, `Clusters`, `Parser`, `Determinism`, `Reordering` | `parser.go` |
| `Decoding`, `Training`, `CorpusCodec`, `PlainCodec` | `corpus_codec.go` |
| `Outcomes`, `Corpora`, `SpecialCorpus` | what the whole pipeline gives on corpora described by their tokens, and on six concrete ones |

## Main results

* **Anchors.** For every graph, the two iterative passes compute depth-first postorder and,
  from it, the first strongly connected component of maximum size. `Kosaraju.PostOrder` and
  `Kosaraju.LargestComponent` follow the code; `Scc.ComponentsPartitionNodes` and
  `Scc.LargestIsComponent` say what the result is in terms of walks. So do the ties: the searches start
  at the nodes 0, 1, 2, ... (`SearchOrder.PostOrderIs`), and of the components of maximum size none has
  a greater leader - smallest node that reaches it - than the kept one (`SearchOrder.GreatestLeaderIsKept`).
  In terms of the messages: `Dependencies.AnchorsFromMessages` gives the graph by counting messages, and
  `Dependencies.TwoKeptTokens` the anchors of a message that keeps two tokens.
* **Matching.** Prefix, suffix and Aho-Corasick indexes with rank pruning answer exactly what
  trying every template would: more literal bytes win, then fewer placeholders, then the earlier template
  (`Matcher.Matcher.BestMatchID`). A template matches exactly when
  it has a decomposition and the scan never meets a literal at its cursor (`GreedyMatch.MatchIff`).
* **Tokenization.** The scalar route, the class-byte route and re-splitting agree, and tokens
  keep the text exactly when no special pattern skips text (`Tokenize.TokenizeKeepsText`); they
  always do if no pattern matches the empty string (`Tokenize.NonEmptyPatternsKeepText`). What becomes a
  special token, and of which kind, is told pattern by pattern (`SpecialTokens.LiteralTokens`,
  `SpecialTokens.RegexTokens`, `SpecialTokens.NoPatterns`), what the other kinds mean by
  `Splitting.KindMeans`, and decoding inverts UTF-8 encoding (`Utf8.DecodeRuneIs`).
* **Clusters.** Any two messages share a cluster exactly if their anchors, in canonical order, spell the
  same tokens (`Parser.SameClusterIffSameSpelling`); an anchor spells itself unless its text holds the
  boundary between two key entries, so messages without NUL bytes share a cluster exactly if their anchor
  sets are equal and not empty (`Parser.NulFreeClusters`). With a threshold below one, kept tokens that
  always occur together are all anchors, black special ones apart (`Outcomes.InseparableAnchors`).
* **Determinism.** Cluster ids, templates and masks do not depend on the number of workers or on
  how their steps interleave (`Determinism.ParseIsDeterministic`), and, when all rows are used for
  patterns, not on the order of the messages either: reordered messages keep their cluster ids and
  masks, and the templates stay as they are (`Reordering.ParseIgnoresOrder`).
* **Codec.** When all rows are used for patterns and no special patterns are configured, a trained
  codec returns a message exactly if it does not contain the text `<*>`, or is clustered with a message
  that lacks `<`, `*` or `>` (`PlainCodec.PlainRoundTripIff`). In terms of masks: exactly if none of its
  literal runs contains that text (`CorpusCodec.RoundTripIff`); one half of this holds for all special
  patterns (`CorpusCodec.FreeRoundTrips`), the other for every sample of the rows
  (`CorpusCodec.RoundTripIsFree`). Training fails exactly if the
  template of a message becomes known between two copies of it (`Training.Train`, `Training.ClashIff`).
  When all rows are used, a corpus without the text `<*>` trains and comes back, whatever the special
  patterns (`CorpusCodec.NewCorpusCodec`).

## Where the code differs from what one would expect

Most of these are lemmas with a concrete input, next to the exact condition.

* A literal found directly at the cursor is a mismatch, so `<*>a<*>` does not match `aaa`
  (`GreedyMatch.GapZeroLosesMatch`, condition in `GreedyMatch.MatchIff`).
* The template `<*>` alone is in no index and is never returned (`MatcherSpec.EveryTemplateIsAnchored`);
  it would lose against every other match anyway (`MatcherSpec.PlaceholderOnlyLoses`).
* An empty match of a special pattern drops text as soon as the pattern also has a non-empty match in
  the same piece (`Specials.EmptyMatchLosesText`, condition in `Specials.RegexKeepsText`). The mask of
  such a message is shorter than the message, and the codec then stores it as a literal.
* Canonical keys end entries with a NUL byte without escaping it, so different anchor sets share a
  key exactly if they spell the same tokens (`AnchorKey.SetKeysEqualIff`), and messages with different
  anchors can share a cluster (`Corpora.SharedCluster`).
* Rendered templates are stored in the matcher's table with adjacent placeholders merged. A message with
  the text `<*>` next to a parameter then does not find its own template, is stored with its best match,
  and comes back as another message while `Decode` reports success: by default `k 1<*>` comes back as
  `k 1` (`Corpora.WrongDecode`). A message `<*>` alone is encoded but does not decode
  (`Corpora.LostDecode`). The program's README promises that what is decoded equals the message.
* Training can fail on a corpus with duplicates: `Corpora.FailingTraining` has one.
* With templates taken from a sample of the rows, a message can miss its own template without containing
  `<*>`, and come back as another one with success reported: `k k 2` as `k 2` (`Corpora.SampledDecode`).
  `Training.OwnTemplateIff` says when a message is stored with its own template, and
  `CorpusCodec.EntryMeaning` what it decodes to otherwise.
* With special patterns a message can come back although a literal run of it contains `<*>`:
  `SpecialCorpus.SpecialDecode` has one.
* The reset near the 32-bit limit clears only the marks of the current id space. When buffers are reused
  over parses, a mark left behind it can later be taken for a current one, and a token for common that is
  in no row (`Template.StaleAnswer`); `Template.CommonScratch.SharedSlices` says what is answered from any
  marks, and `Template.CleanAnswer` when that is right.

## Model

| member | source | states |
|---|---|---|
| Graph.DfsVisits | graph.go:111-137 | depth-first postorder from given starts outside a visited set lists each newly visited node once and nothing else |
| Graph.DfsReached | graph.go:111-137 | every node in the postorder is reachable from a start without entering the visited set |
| Graph.FinishOrder | graph.go:111-137 | a node that reaches the one at position i avoiding visited nodes is mutually reachable with some node finishing at i or later |
| Graph.ReachReversed | graph.go:141-164 | walks in the reversed adjacency lists are the walks of the graph backwards |
| Scc.PostOrderPermutes | graph.go:113-137 | the finishing order is a permutation of all nodes |
| Scc.CollectedAreMutual | graph.go:146-164 | what pass two collects from the next root is in that root's strongly connected component |
| Scc.MutualAreCollected | graph.go:146-164 | every member of that component is collected |
| Scc.ComponentsPartitionNodes | graph.go:141-169 | the collected components are mutual-reachability classes, pairwise disjoint, and contain every node's class |
| Scc.LargestIsComponent | graph.go:166-168 | the kept component is the first collected one of maximum size; no strongly connected component is larger |
| SearchOrder.DfsOrder | graph.go:111-137 | a search from any starts finishes nodes in an order told by walks alone: an earlier start reaches the first of them, or the same start reaches both and is the second, or the same holds for the search from its successors |
| SearchOrder.PostOrderIs | graph.go:113-117 | the first pass does so from the starts 0, 1, 2, ... |
| SearchOrder.SmallerLeaderFirst | graph.go:113-137 | with the leader of a node the smallest node that reaches it: of two nodes the one with the smaller leader is finished first |
| SearchOrder.LastFinisherIsKept | graph.go:146-168 | of all nodes in components of maximum size, the one finished last is in the kept component |
| SearchOrder.GreatestLeaderIsKept | graph.go:146-168 | among the components of maximum size none has a greater leader than the kept one |
| Kosaraju.PostOrder | graph.go:111-139 | the loop over explicit frames returns depth-first postorder for every well-formed graph, and lists any two nodes in the order of the walks from the starts 0, 1, 2, ... to them |
| Kosaraju.Collect | graph.go:146-164 | one stack run over the reversed lists collects exactly the root's component, each node once, and marks it visited |
| Kosaraju.LargestComponent | graph.go:141-172 | pass two returns the nodes of the first largest component, without repetition; no component of that size has a greater leader |
| Tokens.SwitchesKeep | token_filter.go:17-29 | with all switches off only white special tokens are kept, and turning one switch changes this for the tokens of its kind and no others |
| TokenRecord.PairIdInjective | token_record.go:5-10 | packed pair ids are equal iff the unordered pairs are, and fit 64 bits |
| TokenRecord.AddPairs | token_record.go:63-67 | the nested loops add the weight once to every unordered pair of distinct ids of the row, to no other pair, and never to a token with itself |
| TokenRecord.CountRow | token_record.go:45-62 | each kept id of a row is counted once, whatever the epoch array held before |
| TokenRecord.NewTokenRecord | token_record.go:29-72 | occurrence and co-occurrence counts are the weighted numbers of rows with a kept token, or both tokens; no 32-bit addition wraps |
| TokenRecord.CoAtMostOcc | token_record.go:12-18 | no pair co-occurs more often than either of its tokens occurs |
| TokenRecord.DedupIsExact | parser.go:240-265 | weighting unique rows by multiplicity gives the record of all messages counted one by one, and the other way round |
| Dedup.Deduplicate | parser.go:243-265 | rows are the distinct messages in order of first appearance, with their multiplicities; every message is mapped to its row |
| Dedup.SameRowIffEqual | parser.go:252-262 | two messages share a row iff they are equal |
| Dedup.RowsInOrder | parser.go:252-262 | rows are numbered in the order in which their messages first appear |
| Interner.InternRows | parser.go:445-476 | ids are dense, distinct for distinct slices, assigned in order of first appearance, and stay valid from call to call |
| Interner.IdsTellSlices | parser.go:445-476 | two tokens of interned rows have the same id iff they have the same slice |
| Anchors.NodesExact | graph.go:38-54 | nodes are row tokens that occur in the record; each such token has a node of its id and kind; no two nodes share both |
| Anchors.EdgesTransposed | graph.go:93-109 | the two edge tables are well formed and each other's transpose |
| Anchors.AddPair | graph.go:95-107 | one pair of nodes appends the edges whose co-count is positive and exceeds the source's share, in each direction separately, and touches no other list |
| Anchors.BuildEdges | graph.go:77-109 | the nested loops fill both tables with exactly the edges whose co-count exceeds the source's share, in ascending order |
| Anchors.AnchorScratch.CollectNodes | graph.go:36-58 | nodes are found the same way whatever the epoch arrays were used for before |
| Anchors.AnchorScratch.AnchorTokens | graph.go:33-189 | the anchors are a function of row, record and threshold: independent of the scratch's history, with the one-node shortcut agreeing with the general path |
| Anchors.SingleNode | graph.go:64-75 | in a graph of one node the largest component is that node |
| Anchors.EarlyReturnAgrees | graph.go:61-63 | the early return for a row without nodes agrees with the general path iff the row has no white special token |
| Anchors.AnchorsOfCountedRow | graph.go:174-188 | on a row counted with positive weight: all white special tokens are anchors, no black one is, all others are row tokens of the largest component, and the early return changes nothing |
| Dependencies.TwoNodes | graph.go:111-172 | the kept component of two nodes: both if each leads to the other, the first if it alone leads to the other, and otherwise the second |
| Dependencies.NodesInOrder | graph.go:38-54 | the nodes of a row are its tokens that occur in the record, each once, in the order in which they first stand in the row |
| Dependencies.EdgesAscend | graph.go:93-109 | the targets of a node's edges ascend |
| Dependencies.EdgeIsDependency | graph.go:87-107 | there is an edge iff the messages that keep both slices are some, and more than the threshold share of those that keep the source's slice |
| Dependencies.AnchorsFromMessages | graph.go:33-189 | the anchors of a message, from the messages alone: the tokens of the kept component of that graph over its kept tokens, with its white special tokens and without its black ones |
| Dependencies.TwoKeptTokens | graph.go:33-189 | a message that keeps two tokens, a before b, has both as anchors iff the messages keeping both are more than the threshold share of those keeping a, and of those keeping b; a alone if only the first holds; otherwise b alone |
| AhoTrie.EndingsExact | aho_corasick.go:83-86 | the output list names exactly the non-empty patterns that end the word, longest first, each once |
| AhoTrie.HitsAreOccurrences | aho_corasick.go:91-117 | a pattern is reported iff it is not empty and occurs in the text |
| AhoTrie.HitsExact | aho_corasick.go:91-117 | a pattern is reported within the first k bytes iff it is not empty and ends at one of those positions |
| AhoTrie.ShallowAreQueued | aho_corasick.go:63-88 | during breadth-first search every node no deeper than the one being expanded has been queued, and so is final |
| AhoTrie.FinalLinks | aho_corasick.go:73-81 | once built, every failure link leads to the longest proper suffix in the trie, and so to smaller depth |
| AhoTrie.StateReports | aho_corasick.go:110-115 | the outputs of the state reached on a text are the patterns ending there |
| AhoCorasick.Automaton.constructor | aho_corasick.go:13-40 | the trie holds the patterns and all links and outputs are final |
| AhoCorasick.Automaton.Follow | aho_corasick.go:100-108 | following links finds the longest suffix of the extended word in the trie; the links followed are paid for by depth gained earlier |
| AhoCorasick.Automaton.BuildFailures | aho_corasick.go:50-89 | establishes final links and merged outputs for all nodes without changing an edge |
| AhoCorasick.Automaton.Search | aho_corasick.go:93-117 | the visitor sees the reports in order up to where it stops; at most one failure link per byte |
| Placeholder.JoinSplit | matcher.go:283-299 | joining what a split gives restores the string |
| Placeholder.SplitAt | matcher.go:283-299 | the placeholder cannot overlap itself: any occurrence is a splitting point |
| Placeholder.SplitJoin | matcher.go:283-299 | splitting inverts joining for literals without the placeholder |
| Placeholder.ReplaceKeepsLiterals | matcher.go:379-381 | one round of replacement keeps the literals up to empty interior ones |
| Placeholder.NormalizeTemplate | matcher.go:374-383 | terminates; the result splits into the input's literals without empty interior ones and is the input if that was normal |
| GreedyMatch.CompileTemplate | matcher.go:283-299 | the compiled fields are those of the split template |
| GreedyMatch.MatchIsLeftmost | matcher.go:308-372 | the scan succeeds with given arguments iff they are non-empty, fill the literals to the message, and each ends at the first occurrence of the next literal |
| GreedyMatch.ScanNeverPasses | matcher.go:358-369 | exchange argument: against any decomposition the greedy cursor is never behind, so only the gap-zero exit can fail |
| GreedyMatch.MatchIff | matcher.go:308-372 | a template matches iff some decomposition exists and the scan never meets a literal at its cursor |
| GreedyMatch.GapZeroLosesMatch | matcher.go:362-364 | a concrete message with a decomposition that is rejected |
| GreedyMatch.MatchInternal | matcher.go:308-372 | the cursor loop computes the scan, with and without capture |
| MatcherSpec.LiteralLength | matcher.go:283-299 | the literal bytes are the length of the template without its placeholders |
| MatcherSpec.ExactBeats | matcher.go:222-224 | a literal template equal to the message outranks every placeholder match |
| MatcherSpec.StrongestIsLongest | matcher.go:394-406 | the middle anchor is the first longest interior literal |
| MatcherSpec.EveryTemplateIsAnchored | matcher.go:76-94 | a normalized template with placeholders has an anchor in some index iff it is not the lone placeholder |
| MatcherSpec.MatchShowsAnchor | matcher.go:248-275 | a matching message shows the template's anchor where its index looks |
| MatcherSpec.PlaceholderOnlyLoses | matcher.go:89-92 | the lone placeholder is the best of all matches only if nothing else matches |
| MatcherSpec.EvaluateCovers | matcher.go:229-246 | rank pruning loses no better candidate of a sorted list |
| MatcherSpec.RunCovers | matcher.go:270-275 | stopping the search at rank zero loses no better candidate |
| MatcherSpec.CoveredIsBest | matcher.go:277-280 | when all candidates have been covered, the best seen is the best there is |
| Matcher.RankTemplates | matcher.go:52-70 | one template ranks before another iff it has more literal bytes, or as many and fewer parts, or as many of both and the smaller id; ranks are below the table size |
| Matcher.SortIDsByRank | matcher.go:385-392 | every list of an index is sorted by rank and still files the same templates |
| Matcher.DistinctKeyLens | matcher.go:128-140 | the key lengths of an index, each once, ascending |
| Matcher.BuildIndexes | matcher.go:72-94 | every template is filed in the one index its anchor belongs to |
| Matcher.KeptHasAll | matcher.go:41-50 | the normal form of every input template is in the table |
| Matcher.KeptInOrder | matcher.go:41-50 | ids follow the order in which normal forms first appear |
| Matcher.Matcher.constructor | matcher.go:37-126 | the table is the distinct normal forms in order of appearance, with valid indexes |
| Matcher.Matcher.BestMatchID | matcher.go:217-281 | fails iff no template but the lone placeholder matches; otherwise returns a matching one, and every other matching one has fewer literal bytes, or as many and more parts, or as many of both and a greater id |
| Matcher.Matcher.Match | matcher.go:161-173 | the best template together with the leftmost decomposition of the message |
| Matcher.Matcher.MatchAllIDs | matcher.go:185-215 | every position gets the id that a separate call for its message returns |
| Matcher.NewMatcherFromTemplateSets | matcher.go:142-149 | the table of all sets end to end |
| Matcher.FlattenedCons | matcher.go:142-149 | the sets follow one another, the first one first |
| SymbolTable.NewSymbolTable | tokenizer.go:69-90 | classes, nibble masks and the rune set answer exactly for the symbol set, whatever order its members come in |
| SymbolTable.SymbolRuneIs | tokenizer.go:96-102 | a rune is a split symbol iff it is in the set, except ASCII white space |
| Splitting.SplitTokenizes | tokenizer.go:383-431 | the split covers the runes with boundary tokens and non-empty boundary-free segments, no two segments adjacent |
| Splitting.SplitIsUnique | tokenizer.go:383-431 | it is the only such tokenization |
| Splitting.SplitTellsKind | tokenizer.go:383-431 | the slice of a token determines the token, wherever in a message it stands |
| Splitting.SplitOfText | tokenizer.go:383-431 | its tokens are not empty and concatenate to the text |
| Splitting.KindMeans | tokenizer.go:383-525 | a token is white space iff it is a single space, symbolic iff it is a single other split symbol; no other token contains either, and it is alphabetic if all its runes are letters, otherwise numeric if all are digits, otherwise impure |
| Tokenizer.TokenWith | tokenizer.go:472-525 | the byte fast path and the rune path classify a slice alike |
| Tokenizer.AppendSplitTokenScalar | tokenizer.go:383-431 | the index loop appends the split of the piece, whose runes are those that `Utf8.DecodeRuneIs` and whose kinds are those that `Splitting.KindMeans` tell |
| Tokenizer.SplitTokenCount | tokenizer.go:433-470 | the count is the number of tokens the split has |
| Utf8.DecodeRuneIs | tokenizer.go:404-425 | a string that starts with the UTF-8 encoding of a scalar value decodes to that value and its encoding, and any other to the replacement rune for one byte (section 3 of RFC 3629) |
| Utf8.RunesOfText | tokenizer.go:527-537 | ranging over an encoded text gives its scalar values with their encodings, one after the other |
| Unicode.AsciiClasses | tokenizer.go:92-94 | the ASCII white space, letters and digits |
| TokenizeSimd.ClassByteMeans | tokenize_simd.go:78-102 | the class byte answers the scalar splitter's questions about the byte, for every symbol set |
| TokenizeSimd.ClassifyBytes | tokenize_simd.go:78-102 | one class byte per input byte |
| TokenizeSimd.AppendSplitTokenSimd | tokenize_simd.go:28-64 | on ASCII text the class-byte route appends the scalar route's tokens; otherwise it reports failure with the tokens it was given |
| TokenizeSimd.AppendSplitToken | tokenizer.go:374-381 | the result is the split, whichever route is taken |
| Specials.LiteralSplitExact | tokenizer.go:336-364 | the literal splitter keeps the text, and no unrefined piece still contains the literal |
| Specials.AppendSplitSpecialLiteral | tokenizer.go:336-364 | the loop appends those pieces |
| Specials.RegexKeepsText | tokenizer.go:296-334 | the regex splitter keeps the text iff the scan does not both skip at an empty match and find a non-empty one; otherwise the text gets shorter |
| Specials.NonEmptyNeverSkips | tokenizer.go:309-318 | a pattern that matches only non-empty strings never loses text |
| Specials.EmptyMatchLosesText | tokenizer.go:309-318 | a concrete pattern and message that lose text |
| Specials.AppendSplitSpecialRegex | tokenizer.go:296-334 | the loop appends the pieces of that scan |
| Tokenize.TokenizeKeepsText | tokenizer.go:161-264 | tokens concatenate to the message iff no special pattern loses text on its turn; otherwise they are strictly shorter |
| Tokenize.NonEmptyPatternsKeepText | tokenizer.go:161-264 | if no special pattern has an empty match, tokens concatenate to the message |
| Tokenize.TokensAreMessageText | tokenizer.go:161-264 | every byte of a token is a byte of the message |
| Tokenize.TokenizeNoneEmpty | tokenizer.go:161-264 | no message has an empty token |
| Tokenize.PreTokenizeInto | tokenizer.go:198-264 | white patterns, then black ones, each applied to the pieces still unrefined; what that makes of a message is told by `SpecialTokens.LiteralTokens` and `SpecialTokens.RegexTokens` |
| Tokenize.TokenizeInto | tokenizer.go:161-192 | returns the tokens of the message, with the one-piece shortcut agreeing |
| SpecialTokens.LiteralTokens | tokenizer.go:198-264 | a literal as the first pattern, white ones standing before black ones: the text before its first occurrence is tokenized with the other patterns, the occurrence is a special token of its kind, and the rest is tokenized like a message; without an occurrence it changes nothing |
| SpecialTokens.RegexTokens | tokenizer.go:296-334 | a regular expression as the first pattern: the same for its first match if that is not empty, except for text behind it that is stepped over at empty matches when nothing more is found; a first match that is empty is stepped over if a non-empty one follows, and otherwise changes nothing |
| SpecialTokens.NoPatterns | tokenizer.go:161-192 | without special patterns the tokens are the split |
| SpecialTokens.FoundIsSpecial | tokenizer.go:216-264 | what the first pattern finds, literal or regular expression, is a special token with exactly that text, white iff there is a white pattern |
| SpecialTokens.SpecialsHavePatterns | tokenizer.go:161-264 | without white patterns there are no white special tokens, and without black patterns no black ones |
| Tokenize.ResplitPiece | parser.go:694-730 | re-splitting a coarse split with more punctuation gives the fine split |
| Tokenize.ResplitTokens | parser.go:694-730 | the same for a whole message with its special tokens |
| Tokenize.TokenNeedsSplit | parser.go:758-774 | tells whether a symbol rune occurs in the slice |
| Tokenize.RetokenizeInto | parser.go:694-730 | early return, untouched prefix and re-split rest give the fine tokens; the computed capacity is their number |
| Pieces.MaskDescribesRow | template.go:130-159 | a row's mask has one byte per text byte and describes the row's own cut into literals and parameters |
| Pieces.CutDecomposes | template.go:99-128 | the cut of non-empty chunks has non-empty parameters that fill its literals to the text; no two placeholders touch |
| Pieces.MaskMeans | corpus_codec.go:170-195 | a mask cuts a message into its runs: the mask is the cut with '0' for every byte of a literal and '1' for every byte of a parameter; literals and parameters fill the message, and no inner one is empty |
| Pieces.SplitCounts | corpus_codec.go:145-149 | splitting a joined template finds at least its literals, and exactly as many iff none contains the placeholder |
| Tokens.SwitchesAdmit | template.go:84-97 | the same for candidates, where white space and symbols need no switch |
| Template.CommonExact | template.go:17-80 | an id is in the intersection iff it is a candidate's id in every row |
| Template.CommonScratch.MarkFirst | template.go:50-60 | whatever the marks were: marks exactly the first row's candidates, and counts those whose mark changed |
| Template.CommonScratch.Advance | template.go:67-79 | whatever the marks were: moves exactly the candidates that stand at the level before to the next level, and counts them |
| Template.CommonScratch.SharedSlices | template.go:25-82 | from any marks: the marks afterwards, and for every id the answer they give; if the marks below the id space are clean, and so for a fixed id space, the answers are the ids common to all rows, across reuse, early exit and reset |
| Template.CleanAnswer | template.go:17-80 | from marks no higher than base, the answer is yes iff the id is common to all rows |
| Template.StaleAnswer | template.go:40-43 | a run of calls over a growing and shrinking id space after which an id that is in no row is answered to be common |
| Template.RenderRow | template.go:102-124 | the loop over one row writes the template of its cut |
| Template.TemplatesForCluster | template.go:99-128 | the distinct templates of the rows in string order |
| Template.MaskRow | template.go:133-157 | the buffer loops write the mask of the row's cut |
| Template.ParameterMasks | template.go:130-159 | one mask per row |
| Template.MaskOverToken | template.go:133-157 | over the text of a token the mask has '0' if the token's id is common, and '1' otherwise |
| Template.TemplateAndMaskAgree | template.go:99-159 | template and mask of a row are renderings of one cut, and filling the template with the masked text restores the row |
| Bytes.LessMeans | parser.go:807-812 | a string is less than another iff it is a proper prefix, or has the smaller byte where they first differ |
| AnchorKey.CanonicalAnchorKey | parser.go:792-831 | key and order depend on the set only, not on the order in which the map is ranged over; anchors are listed by kind, and by slice within a kind |
| AnchorKey.KeyInjective | parser.go:822-827 | keys of lists without markers are uniquely decodable |
| AnchorKey.SpelledKey | parser.go:822-827 | cutting a slice at its markers gives marker-free tokens with the same key |
| AnchorKey.KeysEqualIff | parser.go:822-827 | any two lists have the same key iff they spell the same tokens |
| AnchorKey.SetKeysEqualIff | parser.go:792-831 | any two anchor sets have the same key iff in canonical order they spell the same tokens |
| AnchorKey.SetKeysTellSets | parser.go:792-831 | marker-free sets spell themselves, and so have the same key iff they are equal |
| AnchorKey.EmptyKey | parser.go:797-801 | the key is empty iff the set is |
| AnchorKey.MarkerCollides | parser.go:824-826 | the smallest collision: one slice with a marker against the two entries it spells, if these stand in canonical order |
| AnchorKey.KeysCollide | parser.go:824-826 | two concrete anchor sets with one key |
| AnchorKey.KeyOrder | parser.go:822-827 | keys of lists without NUL bytes are ordered like the lists: by kind, then by slice, token after token |
| Sharding.ShardRanges | parser.go:629-642 | at most `workers` non-empty, contiguous, disjoint ranges that cover all rows |
| Sharding.ChainedCovers | parser.go:629-642 | every row lies in exactly one range |
| Sharding.RunSerial | parser.go:644-660 | the serial loop computes every row |
| Sharding.RunSharded | parser.go:599-627 | every interleaving of worker steps gives the serial result |
| Grouping.AddRow | parser.go:517-531 | a row joins the group of its key or founds it with its own anchors |
| Grouping.Worker.Step | parser.go:550-557 | one row step keeps the arenas and offset tables in line with the rows done |
| Grouping.RunTeam | parser.go:540-560 | workers that share nothing finish all rows under every interleaving |
| Grouping.MergeTeam | parser.go:561-568 | reading the arenas back in row order merges every row |
| Grouping.GroupByAnchorTokens | parser.go:501-593 | serial or parallel: one group per key, ascending, with its rows and message indices ascending and its first row's anchors |
| Grouping.GroupsDetermined | parser.go:533-592 | those groups are determined by the anchor sets and the message rows |
| Grouping.RowsAscend | parser.go:517-531 | the rows of a key are listed in ascending order |
| Grouping.IndicesAscend | parser.go:578-586 | and its messages too |
| Sampling.EvenlySpread | parser.go:425-440 | the sampled positions are strictly ascending and in range; the first row is among them, and of several positions the last row is too |
| Sampling.SamplePositions | parser.go:410-443 | every row is taken iff the share asked for exceeds n - 1 rows; otherwise the number of positions is the smallest one no smaller than that share; with exact arithmetic the two guards in the loop never change a position |
| Sampling.SampleSize | parser.go:412-423 | the same of the sample, for every share above zero |
| Sampling.SampledRows | parser.go:425-440 | one position is row 0; of k positions the i-th is the row nearest to i(n-1)/(k-1), the later one of two |
| Clusters.PickPatterns | parser.go:362-380 | patterns are made from the group's rows, or from a sample over its messages with duplicates expanded |
| Clusters.AssignMasks | parser.go:388-396 | each message of a group gets its row's mask through the position table; no other mask changes |
| Clusters.AssignResults | parser.go:330-407 | cluster ids, templates and masks of all groups, with the group without anchors left out |
| Clusters.ClustersAreKeyClasses | parser.go:340-403 | ids are -1 exactly for empty anchor sets, equal exactly for equal keys, and dense |
| Clusters.ClustersAreSpellingClasses | parser.go:340-403 | whatever the anchors, two messages share a cluster iff their anchor sets spell the same tokens, and at least one |
| Clusters.ClustersAreAnchorClasses | parser.go:340-403 | without markers, two messages share a cluster iff their anchor sets are equal and not empty |
| Clusters.IDsAscend | parser.go:340-403 | clusters are numbered in the order of their keys |
| Parser.WorkersFor | parser.go:149-162 | the largest number of workers within the configured parallelism, or the processor count if none is configured, that leaves each 512 rows; one if there is no such number |
| Parser.PrimaryStages | parser.go:237-290 | unique rows, tokens, ids, counts and groups of the messages |
| Parser.RichStages | parser.go:306-328 | reuse, re-splitting and tokenizing anew all give the messages' tokens under all punctuation |
| Parser.PunctuationIs | parser.go:15-21 | rich tokens are split at the 32 punctuation characters of that string and no others |
| Parser.PatternsFromMessages | parser.go:362-380 | patterns are made from all rows of a group, or, if a sample is asked for, from the rows of its messages at the sampled positions, duplicates counted each time |
| Parser.Parse | parser.go:206-408 | the whole parse: groups of the anchor sets, cluster ids, and on request templates made from all rows or a sample of them, and masks |
| Parser.ClustersOfMessages | parser.go:164-185 | one id per message, dense, -1 without anchors; one template list per id |
| Parser.SameClusterIffSameSpelling | parser.go:164-185 | the same for any two messages of any parse |
| Parser.SameClusterIffSameAnchors | parser.go:164-185 | two messages whose anchors have no markers share a cluster iff their anchor sets are equal and not empty |
| Parser.NulFreeClusters | parser.go:164-185 | two messages without NUL bytes share a cluster iff their anchor sets are equal and not empty |
| Parser.ClusterOrder | parser.go:340-403 | clusters of messages without NUL bytes are numbered in the lexicographic order of their anchors |
| Parser.AnchorsOfMessage | parser.go:289-290 | the anchors of a message are tokens of it: every white special token, no black one, and otherwise only members of the largest component |
| Parser.SpecialWhiteIsClustered | parser.go:105-109 | a message with a white special token always has a cluster |
| Parser.MaskOfMessage | parser.go:384-397 | a clustered message's mask renders its own tokens, cut at the ids common to its cluster's pattern rows; when all rows are used, the template of the same cut is one of the cluster's; an unclustered message has no mask |
| Parser.EqualMessagesEqualMasks | parser.go:393-395 | duplicates have equal masks |
| Determinism.SameAnchors | graph.go:33-189 | a row's anchors depend on the counts only |
| Determinism.ParseIsDeterministic | parser.go:141-147 | two parses that differ only in parallelism, processor count and splitting kernel give the same ids, templates and masks |
| Reordering.RecordCounts | token_record.go:12-72 | occurrences count the messages that keep a slice, co-occurrences those that keep both |
| Reordering.CountBag | token_record.go:29-72 | counting messages with a property ignores their order |
| Reordering.SameMessageAnchors | graph.go:33-189 | reordering the messages leaves every message's anchors as they are |
| Reordering.SameID | parser.go:340-403 | and its cluster id, also when patterns are sampled |
| Reordering.ClusterFromMembers | template.go:17-159 | when all rows are used, the templates of a cluster and the masks of its messages are functions of the set of its messages: a slice is literal iff it is a candidate of every member |
| Reordering.ParseIgnoresOrder | parser.go:206-408 | two parses of one bag of messages, all rows used: equal messages have equal cluster ids and masks, and the template lists are equal |
| Decoding.TemplateAndArgsFromMask | corpus_codec.go:170-195 | fails iff the lengths differ or a mask byte is neither 0 nor 1; otherwise returns the template and arguments of the cut the mask describes |
| Decoding.DecodesIff | corpus_codec.go:139-168 | stored under its own template, a rendering decodes to the message iff no literal run contains the placeholder's text; otherwise decoding fails |
| Decoding.FreeMessage | corpus_codec.go:139-168 | a message without that text has free literals under every mask |
| Decoding.Decode | corpus_codec.go:139-168 | fails iff the id or the number of arguments does not fit; otherwise fills the template |
| Training.EnsureTemplateID | corpus_codec.go:42-50 | the template gets an id, the known templates grow by it alone, and no earlier id changes |
| Training.FindTemplateID | corpus_codec.go:74-81 | returns the template's own id if it is known or nothing matches the message, and otherwise the id of the best match |
| Training.TrainMessage | corpus_codec.go:53-94 | fails iff the mask cannot be read or an earlier copy is stored with another template or other arguments; otherwise the message is stored with its own arguments under its own template, or under the best match if its own is unknown |
| Training.Train | corpus_codec.go:52-95 | the loop fails iff two copies of a message clash; otherwise the codec knows exactly the messages, each under its chosen template with its own arguments |
| Training.ClashIff | corpus_codec.go:83-88 | copies clash iff the first falls back to a match because its template is unknown, and a message in between registers that template |
| Training.OwnTemplateIff | corpus_codec.go:74-81 | a message is stored with its own template iff it has no full mask, nothing matches it, or that template is in the table or was registered before |
| Training.NoClash | corpus_codec.go:83-88 | no clash among distinct messages, nor when all messages are stored with their own templates |
| CorpusCodec.RowReadsBack | corpus_codec.go:69-74 | a full-length mask of a parse reads back as the cut its row was rendered from |
| CorpusCodec.OwnTemplateInTable | corpus_codec.go:34-41 | when all rows are used for patterns, a clustered message with a full mask and free literals has its own template in the matcher's table |
| CorpusCodec.OwnTemplateHit | matcher.go:308-372 | that template matches the message iff the scan meets no literal at its cursor, and is a candidate iff, besides, it is not the lone placeholder |
| CorpusCodec.EntryMeaning | corpus_codec.go:123-168 | a message stored with its own template comes back iff its literals are free; one stored with another template iff its own arguments fill that template to the message |
| CorpusCodec.FreeIsOwn | corpus_codec.go:69-81 | when all rows are used for patterns, every message with free literals is stored with its own template, the empty one included |
| CorpusCodec.FreeRoundTrips | corpus_codec.go:123-168 | and so comes back from what it encodes to, whatever the special patterns |
| CorpusCodec.NoFillSpells | corpus_codec.go:139-168 | if a literal run contains the placeholder's text and its bytes are tokens of their own, no template filled with the message's arguments gives the message |
| CorpusCodec.RoundTripIsFree | corpus_codec.go:69-101 | a message that comes back has free literals, whatever template it was stored with and however rows were sampled, if the bytes of the placeholder's text are tokens of their own in it |
| CorpusCodec.RoundTripIff | corpus_codec.go:21-168 | when all rows are used, such a message comes back iff its literals are free |
| CorpusCodec.PlainAlone | tokenizer.go:383-431 | without special patterns the bytes of the placeholder's text are tokens of their own in every message |
| CorpusCodec.UnclusteredRoundTrips | corpus_codec.go:54-67 | an unclustered message comes back iff it does not contain the placeholder's text |
| CorpusCodec.TrainingSucceeds | corpus_codec.go:21-101 | training succeeds on distinct messages and, when all rows are used, on messages with free literals |
| CorpusCodec.NewCorpusCodec | corpus_codec.go:21-101 | training fails iff copies of a message clash; otherwise every message is stored as the training loop says, comes back if its literals are free and all rows are used, and without special patterns only then; when all rows are used, a corpus without the text `<*>` trains and comes back |
| PlainCodec.ByteCommon | template.go:17-80 | without special patterns a byte of the placeholder's text is common to a group iff all messages of the cluster contain it |
| PlainCodec.ClusteredFreeIff | template.go:99-159 | without special patterns and with all rows used, the literals of a clustered message are free iff the message is or some message of its cluster lacks a byte of the placeholder's text |
| PlainCodec.PlainRoundTripIff | corpus_codec.go:21-168 | under the same conditions a message comes back iff it does not contain that text, or is clustered with a message that lacks a byte of it |
| Outcomes.InseparableAnchors | graph.go:33-189 | with a threshold below one, a message whose slices tell their kinds and whose kept slices always occur together has exactly these as anchors, black special tokens apart, and none if it keeps nothing |
| Outcomes.CompleteGraph | graph.go:111-172 | in a graph with all edges the largest component is everything |
| Outcomes.OnePattern | template.go:17-128 | one pattern row: its candidates are the common ids, and its template is the cluster's only one |
| Outcomes.VocabularyCovers | parser.go:445-476 | a corpus has at most two slices per byte, so one of 2^31 bytes does not exhaust the 32-bit ids |
| Corpora.DefaultSymbolsAre | parser.go:18 | the default split symbols are the characters of that string |
| Corpora.SplitBack | tokenizer.go:383-431 | the text of a legal list of ASCII tokens splits back into the list |
| Corpora.DecodesToAnother | corpus_codec.go:74-81 | trained on the message `k 1<*>` by the default parser, the codec's entry for it decodes to `k 1` |
| Corpora.WrongDecode | corpus_codec.go:21-168 | training, encoding and decoding that message returns `k 1` and success |
| Corpora.LostDecode | corpus_codec.go:21-168 | the message `<*>` is encoded, and decoding fails |
| Corpora.CannotTrain | corpus_codec.go:83-88 | the parse of ` y1<*>`, ` <*><*>`, ` y1<*>` with the symbol 1 gives a corpus with a clash |
| Corpora.FailingTraining | corpus_codec.go:83-88 | training on it returns an error |
| Corpora.SampledDecode | parser.go:362-380 | with templates from half of the rows, `k k 2` comes back as `k 2`, with success |
| Corpora.SharedCluster | parser.go:792-831 | two concrete messages of one corpus share a cluster though their anchor sets differ |
| SpecialCorpus.SpecialRoundTrips | corpus_codec.go:74-81 | with the special literals `<*>z` and `<<`, the first of the messages `<<<*>z` and `<1*>z` comes back though one of its literal runs contains the placeholder's text |
| SpecialCorpus.SpecialDecode | corpus_codec.go:21-168 | training on the two messages, encoding and decoding the first returns it with success |

## Left out

- Parser.Parse: buffers are fresh in every call; what reused marks can do is shown at `Template.StaleAnswer` and not carried through the parse.
- Interner.InternRows: requires fewer than 2^32 distinct slices, which the program does not check; `Outcomes.VocabularyCovers` shows that 2^31 bytes of messages never have more.
- Sampling.SamplePositions: the number of positions and the positions are computed with real numbers, not floats, so a rounding error that the loop's guards would absorb is not captured.
- Anchors.AnchorScratch.AnchorTokens: the threshold and the products with it are real numbers, not floats, and the anchor map is the set of its tokens, since keys hold the same fields as the values.
- AhoCorasick.Automaton.Search: trie states are unbounded numbers, not `int32`.
- Grouping.AddRow: a row's group is remembered by its key instead of by pointer.
- Specials.AppendSplitSpecialRegex: a regular expression is a function from text to an optional match range; the empty literal and the nil expression, which compilation never produces, are excluded.
- Unicode classes beyond ASCII are parameters; UTF-8 decoding itself is modelled byte by byte.
- The assembly kernels and CPU detection: the portable classifier is taken as the reference.
- Capacities and the reuse of backing arrays: fresh sequences take their place, so aliasing of a destination with its source is not captured.
- Goroutines are modelled at the grain of one row step; memory-model effects within a step are not.
- Compiling patterns to literals, option setters, validation of options, nil receivers and the copies returned by accessors.
- The command-line program, the oracle generator and the benchmarks.
