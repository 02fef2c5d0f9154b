# Byte-pair and word tokenizers, and a command-line parser, in Dafny

This project models two small Python components.

- `01_python/YBIGTA/tokenizers.py` is a byte-pair-encoding (BPE) style
  tokenizer with its helpers:
  - `get_vocab` counts the whitespace words of a corpus;
  - `get_stats` counts adjacent symbol pairs in a table whose keys are
    space-separated symbols;
  - `merge_vocab` rewrites every key by joining one pair of symbols;
  - `merge_n_best` ranks the pairs and greedily merges up to `n` of them
    that share no symbol.
  Two classes, `BPETokenizer` and `WordTokenizer`, hold a `corpus` (a list
  of lines) and a `vocab` (the trained table, `None` until `train`). Their
  `tokenize` turns text into the integers stored in `vocab`, cuts rows to
  `max_length` and, for a batch, right-pads rows with zeros (`_padding`).
- `02_python/utils/command_parser.py` holds `CommandParser.parse_command`. It
  splits a command line on whitespace, takes the first token as the command
  name, and sorts the rest into options (starting with `-`) and positional
  arguments, each kept in input order.

The model takes the program's own form:

- The two tokenizer classes and `CommandParser` are Dafny classes whose
  methods update their fields.
- The loops of `get_vocab`, `get_stats`, `merge_vocab`, `merge_n_best`,
  `tokenize`, `_padding` and `parse_command` are methods with loop
  invariants. Each is proved equal to a specification function.
- Lemmas then state what those functions promise.

Python dictionaries are modelled with their insertion order
(`PyDict.Dict`), because the order decides two things:

- how ties rank in the stable sort of `merge_n_best`;
- which value survives when two keys of `merge_vocab` rewrite to the same
  text.

A `defaultdict(int)` update `d[k] += w` is `PyDict.AddTo`, and `d[k] = v` is
`PyDict.Put`.

The code does several things that a reader of its comments might not expect.
The model follows the code:

- **Training never merges.** The keys of the `get_vocab` table come from
  `str.split()` and hold no whitespace. So `get_stats` of that table is empty,
  and every round of `BPETokenizer.train` returns the table unchanged. Both
  classes therefore train to the same word-count table.
- **The "ids" are frequencies.** `tokenize` returns the count stored for each
  word. An unknown word reads `vocab['<unk>']`, which is the corpus count of
  the literal word `<unk>`.
- **The `<unk>` lookup inserts.** Reading the missing key `<unk>` of the
  `defaultdict` inserts `<unk> ↦ 0`. Whenever `tokenize` raises on a trained
  table, the table is unchanged: only an empty padded batch raises, and it
  looks up no word (`Encoding.RaiseKeepsTable`).
- **`i += num_merged` in `train` has no effect.** The `range` loop
  overwrites it.
- **The boundary guard is literal.** The lookarounds of `merge_vocab` are
  `(?<!\\S)` and `(?!\\S)` inside raw strings. They reject the two characters
  `\S` (backslash, `S`), not a non-whitespace character. So a pair is merged
  even inside longer symbols (`Merge.MergesInsideSymbols`).
- **Collisions overwrite.** When two keys rewrite to the same text, the later
  key's value wins and the frequencies are not added
  (`Merge.CollisionOverwrites`).
- **The `num_merged >= n` test stops the loop only when `n <= 0`.** The loop
  never sees more than `n` candidates.
- **Negative `max_length`** follows Python slicing and drops entries from the
  end. Negative `n` in `merge_n_best` does the same.
- **A command name may start with `-`.** `-v x` names the command `-v`.

Whitespace is the full set of characters for which CPython's `str.isspace()`
holds (`Text.IsSpace`). Exceptions become `Err` values of `Outcomes.Result`:

- `ValueError` from `merge_n_best` and `tokenize` before training;
- `ValueError` from `max()` of an empty batch;
- `IndexError` from `input_command[0]` on empty input.

## Model

| member | source | states |
|---|---|---|
| Text.IsSpace | 01_python/YBIGTA/tokenizers.py:12 | the whitespace set `str.split()` splits on: the characters for which CPython's `str.isspace()` holds |
| Text.Split | 01_python/YBIGTA/tokenizers.py:12 | `str.split()` yields only non-empty pieces without whitespace |
| Text.SplitKeepsNonSpace | 01_python/YBIGTA/tokenizers.py:12 | joining the pieces of `split()` gives the input with its whitespace deleted: nothing else is lost or added |
| Text.WordLengthPrefix | 01_python/YBIGTA/tokenizers.py:12 | the first word of a string ends at its first whitespace, whatever follows that whitespace |
| Text.SplitSep | 01_python/YBIGTA/tokenizers.py:12 | `split()` cuts at every whitespace character: the pieces of `a + c + b`, with `c` whitespace, are the pieces of `a` followed by those of `b` |
| Text.SplitOfWord | 01_python/YBIGTA/tokenizers.py:20 | a string without whitespace splits into itself alone |
| Text.SplitEmptyIff | 02_python/utils/command_parser.py:47-48 | `split()` is empty exactly when the input is empty or all whitespace |
| PyDict.Put | 01_python/YBIGTA/tokenizers.py:31 | `d[k] = v`: the table maps `k` to `v`; a new key goes to the end of the order, an existing key keeps its place; the dict stays well formed |
| PyDict.AddTo | 01_python/YBIGTA/tokenizers.py:14 | `d[k] += w` on a `defaultdict(int)`: `k` is present afterwards and maps to its old value, or 0, plus `w` |
| PyDict.TallyClosed | 01_python/YBIGTA/tokenizers.py:10-14 | a run of `d[k] += w` on a fresh `defaultdict(int)` leaves the stream's keys in order of first occurrence, each mapped to its total weight |
| PyDict.TallySum | 01_python/YBIGTA/tokenizers.py:10-14 | the values of that dict add up to the total weight of the stream |
| PyDict.AddToSum | 01_python/YBIGTA/tokenizers.py:14 | one `d[k] += w` raises the sum of the values by `w` |
| PyDict.AssignClosed | 01_python/YBIGTA/tokenizers.py:26-31 | a run of `d[k] = v` on a fresh dict leaves the stream's keys in order of first occurrence, each with the last value written to it |
| PyDict.AssignKeys | 01_python/YBIGTA/tokenizers.py:29-31 | that dict has at most one key per assignment |
| PyDict.AssignHas | 01_python/YBIGTA/tokenizers.py:29-31 | every key assigned is in the dict |
| PyDict.LastValueOfLast | 01_python/YBIGTA/tokenizers.py:31 | an assignment that no later assignment to the same key follows leaves its value |
| PyDict.AssignLastWriter | 01_python/YBIGTA/tokenizers.py:29-31 | the last assignment to a key decides its value in the dict |
| PyDict.LastValueWritten | 01_python/YBIGTA/tokenizers.py:31 | the value a key keeps was written to that key by some assignment |
| PyDict.AssignSumDistinct | 01_python/YBIGTA/tokenizers.py:29-31 | when no key is assigned twice, the values of the dict add up to the total of the assigned values |
| VocabStats.GetVocab | 01_python/YBIGTA/tokenizers.py:9-15 | the loop over lines and words builds the word-count table of the corpus |
| VocabStats.WordTableCounts | 01_python/YBIGTA/tokenizers.py:9-15 | the keys are exactly the distinct words of the corpus, none empty or holding whitespace; each maps to its number of occurrences; the values sum to the number of words |
| VocabStats.OnesWeight | 01_python/YBIGTA/tokenizers.py:13-14 | counting a word by `+= 1` per occurrence gives its multiplicity |
| VocabStats.GetStats | 01_python/YBIGTA/tokenizers.py:17-23 | the loop over keys builds the pair table of the stream of `pairs[...] += freq` updates |
| VocabStats.AddAdjacent | 01_python/YBIGTA/tokenizers.py:21-22 | the inner loop adds the key's frequency to each adjacent pair, extending the tally by exactly those updates |
| VocabStats.Adjacent | 01_python/YBIGTA/tokenizers.py:21-22 | there is one pair per position but the last, pair `i` being `(symbols[i], symbols[i+1])`, and none for one symbol or fewer |
| VocabStats.WeightedWeight | 01_python/YBIGTA/tokenizers.py:21-22 | adding `freq` once per occurrence adds `freq` times the pair's multiplicity |
| VocabStats.PairCounts | 01_python/YBIGTA/tokenizers.py:17-23 | each pair's total is the sum over keys of the key's frequency times the pair's number of adjacent occurrences in its symbols |
| VocabStats.PairKeys | 01_python/YBIGTA/tokenizers.py:17-23 | a pair is updated exactly when it is adjacent in some key's symbols |
| VocabStats.PairTableCounts | 01_python/YBIGTA/tokenizers.py:17-23 | a pair is in the `get_stats` table exactly when some key holds it, and then maps to its frequency-weighted number of occurrences |
| VocabStats.PairStreamOfUnsplit | 01_python/YBIGTA/tokenizers.py:20-22 | keys with at most one symbol contribute no update |
| VocabStats.NoPairsInWordTable | 01_python/YBIGTA/tokenizers.py:9-23 | `get_stats` of a `get_vocab` table is empty |
| Merge.MergeVocab | 01_python/YBIGTA/tokenizers.py:25-32 | the loop builds the dict `merge_vocab` returns: each key rewritten, in order, and assigned its value |
| Merge.MergedKeysAssign | 01_python/YBIGTA/tokenizers.py:29-31 | the output dict is the dict that the stream of `v_out[w_out] = v_in[word]` assignments builds |
| Merge.SubFrom | 01_python/YBIGTA/tokenizers.py:27-30 | `re.sub` scanning left to right: at each position where the pattern occurs and is not next to the literal `\S`, the replacement is written and the scan resumes after the occurrence; elsewhere one character is copied |
| Merge.Rewrite | 01_python/YBIGTA/tokenizers.py:27-30 | `p.sub(''.join(pair), word)` with the pattern `' '.join(pair)` and its two `\S` guards |
| Merge.SubFromNoMatch | 01_python/YBIGTA/tokenizers.py:30 | without a match from a position on, the substitution copies the rest of the text |
| Merge.SubFromLength | 01_python/YBIGTA/tokenizers.py:30 | a replacement no longer than the pattern never lengthens the text |
| Merge.SubFromShorter | 01_python/YBIGTA/tokenizers.py:30 | a replacement shorter than the pattern shortens the text whenever the pattern matches |
| Merge.RewriteUnchangedIff | 01_python/YBIGTA/tokenizers.py:27-30 | a key is changed by the rewrite exactly when the guarded pattern matches it somewhere: every unguarded occurrence of `"a b"` is merged |
| Merge.RewriteWithoutBigram | 01_python/YBIGTA/tokenizers.py:27-30 | a key in which `"a b"` does not occur is left as it is |
| Merge.SubFromKeepsLetters | 01_python/YBIGTA/tokenizers.py:30 | a left-to-right substitution whose replacement has the pattern's non-space characters keeps the non-space characters of the text |
| Merge.RewriteKeepsLetters | 01_python/YBIGTA/tokenizers.py:27-30 | a merge only deletes spaces: with spaces removed a key reads the same before and after |
| Merge.MergesInsideSymbols | 01_python/YBIGTA/tokenizers.py:28 | the guard is the literal text `\S`: `"xa by"` merges `a b` into `"xaby"` |
| Merge.GuardBlocksMerge | 01_python/YBIGTA/tokenizers.py:28 | an occurrence right after the two characters `\S` is not merged |
| Merge.MergedShape | 01_python/YBIGTA/tokenizers.py:25-32 | no more keys out than in; the output keys are exactly the rewritten input keys; each output value is the value of an input key that rewrites to it |
| Merge.MergedPassThrough | 01_python/YBIGTA/tokenizers.py:25-32 | the key at position `i` survives when the bigram does not occur in it, and keeps its value unless a later key rewrites onto it; an earlier one is overwritten by it |
| Merge.StreamKeeps | 01_python/YBIGTA/tokenizers.py:29-31 | an unchanged key that no later key rewrites onto keeps its own value in `v_out` |
| Merge.RewriteCollisionKeys | 01_python/YBIGTA/tokenizers.py:30 | `"ab"` and `"a b"` both rewrite to `"ab"` under the pair `(a, b)` |
| Merge.CollisionOverwrites | 01_python/YBIGTA/tokenizers.py:31 | on such a collision the later value wins and the counts are not added: `{ab: 1, "a b": 2}` becomes `{ab: 2}` |
| Merge.RewriteStreamWeight | 01_python/YBIGTA/tokenizers.py:29-31 | the assigned values add up to the input's values |
| Merge.DropBlanksOfWord | 01_python/YBIGTA/tokenizers.py:12 | a word from `split()` holds no space, so deleting spaces leaves it as it is |
| Merge.WordTableSpellings | 01_python/YBIGTA/tokenizers.py:9-15 | the keys of the `get_vocab` table spell pairwise different words, the hypothesis under which merges keep the total frequency |
| Merge.MergedConservesFrequency | 01_python/YBIGTA/tokenizers.py:25-32 | when the keys spell different words, the merge keeps the total frequency, and the keys still spell different words |
| MergeSelect.Rank | 01_python/YBIGTA/tokenizers.py:39 | `sorted(pairs, key=pairs.get, reverse=True)` as a stable insertion sort; it has one entry per pair |
| MergeSelect.Insert | 01_python/YBIGTA/tokenizers.py:39 | inserting into the ranking adds one element |
| MergeSelect.InsertSplit | 01_python/YBIGTA/tokenizers.py:39 | the inserted pair goes after every pair with at least its count and before the first with less |
| MergeSelect.InsertAt | 01_python/YBIGTA/tokenizers.py:39 | the position of the inserted pair, and that the pair after it counts less |
| MergeSelect.InsertDescending | 01_python/YBIGTA/tokenizers.py:39 | inserting keeps a ranking in descending count order |
| MergeSelect.InsertPermutes | 01_python/YBIGTA/tokenizers.py:39 | inserting adds exactly the inserted pair |
| MergeSelect.InsertStable | 01_python/YBIGTA/tokenizers.py:39 | inserting puts the pair after every pair already ranked with the same count |
| MergeSelect.RankDescending | 01_python/YBIGTA/tokenizers.py:39 | `sorted(pairs, key=pairs.get, reverse=True)` is in descending count order |
| MergeSelect.RankPermutes | 01_python/YBIGTA/tokenizers.py:39 | the ranking is a permutation of the pairs |
| MergeSelect.RankStable | 01_python/YBIGTA/tokenizers.py:39 | pairs with equal counts keep their insertion order |
| MergeSelect.RankSpec | 01_python/YBIGTA/tokenizers.py:39 | the three together: descending, a permutation, and stable |
| MergeSelect.RankTop | 01_python/YBIGTA/tokenizers.py:39 | the first-ranked pair is one of the pairs and has the largest count |
| MergeSelect.PySliceTo | 01_python/YBIGTA/tokenizers.py:39 | `s[:n]` is a prefix of `s`: its first `n` entries, the whole of `s` when `n` exceeds its length, and for negative `n` all but the last `-n` entries |
| MergeSelect.SymbolsOf | 01_python/YBIGTA/tokenizers.py:51 | `selected_chars` holds exactly the symbols of the accepted pairs |
| MergeSelect.Greedy | 01_python/YBIGTA/tokenizers.py:46-52 | the acceptance test of the loop: a candidate is kept when neither of its symbols is in `selected_chars`, the symbols of the pairs kept before it |
| MergeSelect.GreedySubseq | 01_python/YBIGTA/tokenizers.py:46-52 | the accepted pairs are candidates, kept in candidate order |
| MergeSelect.GreedyDisjoint | 01_python/YBIGTA/tokenizers.py:46-52 | no two accepted pairs share a symbol |
| MergeSelect.GreedyFirst | 01_python/YBIGTA/tokenizers.py:46-52 | the first candidate is always accepted |
| MergeSelect.GreedyBlocked | 01_python/YBIGTA/tokenizers.py:46-52 | every candidate left out shares a symbol with an accepted pair |
| MergeSelect.GreedyPrefixMono | 01_python/YBIGTA/tokenizers.py:46-52 | a pair accepted after the first `i` candidates stays accepted to the end of the loop |
| MergeSelect.GreedyBlockedEarlier | 01_python/YBIGTA/tokenizers.py:46-52 | every candidate left out shares a symbol with a pair accepted earlier in the candidate order |
| MergeSelect.GreedySpec | 01_python/YBIGTA/tokenizers.py:46-52 | the selection properties together: accepted pairs are candidates in candidate order, pairwise without a shared symbol, the first candidate among them, and each candidate left out blocked by an earlier accepted pair |
| MergeSelect.LoopExit | 01_python/YBIGTA/tokenizers.py:46-48 | the loop stops at once when `n <= 0`, and otherwise walks all the `n` best-ranked pairs |
| MergeSelect.MergeNBest | 01_python/YBIGTA/tokenizers.py:34-54 | the loop with `selected_chars` and `num_merged` returns, or raises, what `merge_n_best` specifies: the number of accepted pairs and the table after merging them in order |
| MergeSelect.MergeAllValid | 01_python/YBIGTA/tokenizers.py:50 | a round of merges keeps the table a well-formed dict |
| MergeSelect.AcceptedSpec | 01_python/YBIGTA/tokenizers.py:38-52 | at most `n` accepted pairs, and no more than there are pairs; all are among the `n` best and share no symbol pairwise; none when `n <= 0` or there are no pairs; with `n >= 1` the top-ranked pair, which has the largest count, comes first |
| MergeSelect.MergeNBestSpec | 01_python/YBIGTA/tokenizers.py:34-54 | raises exactly when `vocab` is None; otherwise `0 <= num_merged <= min(n, len(pairs))`, the table stays well formed, and `(0, vocab)` is returned unchanged when `n <= 0` or `pairs` is empty |
| MergeSelect.MergeAllConserves | 01_python/YBIGTA/tokenizers.py:46-52 | when keys spell different words, a whole round of merges keeps the total frequency |
| Encoding.AfterLookup | 01_python/YBIGTA/tokenizers.py:104-108 | reading `vocab['<unk>']` for an unknown word inserts `<unk> ↦ 0` when `<unk>` is absent; the dict stays well formed |
| Encoding.LookupWords | 01_python/YBIGTA/tokenizers.py:104-108 | the inner loop of `tokenize` gives one value per word, and leaves the table the lookups leave |
| Encoding.AfterLookupChanges | 01_python/YBIGTA/tokenizers.py:104-108 | lookups keep every entry, add nothing but `<unk> ↦ 0`, and only when some word is unknown; with all words known the table is unchanged |
| Encoding.AfterLookupAppend | 01_python/YBIGTA/tokenizers.py:102-108 | looking up one sentence after another leaves the table that looking up all their words leaves |
| Encoding.IdsAfterLookup | 01_python/YBIGTA/tokenizers.py:102-108 | an inserted `<unk> ↦ 0` does not change what a later word reads |
| Encoding.TruncatedSpec | 01_python/YBIGTA/tokenizers.py:111-114 | a cut row is a prefix of the row; it is the whole row without `max_length` or when short enough; otherwise it has `max_length` entries, or, for negative `max_length`, that many fewer than the row |
| Encoding.MaxLen | 01_python/YBIGTA/tokenizers.py:135 | the longest row's length bounds every row and is reached by one |
| Encoding.Zeros | 01_python/YBIGTA/tokenizers.py:139 | `[0] * k` is `max(k, 0)` zeros |
| Encoding.PaddedSpec | 01_python/YBIGTA/tokenizers.py:133-142 | an empty batch raises; otherwise every row is the original row followed by zeros up to the longest row's length, and the longest row is unchanged |
| Encoding.Pad | 01_python/YBIGTA/tokenizers.py:133-142 | the loop of `_padding` returns, or raises, the padded batch |
| Encoding.Rows | 01_python/YBIGTA/tokenizers.py:102-114 | one row per sentence of the batch |
| Encoding.Encode | 01_python/YBIGTA/tokenizers.py:98-131 | the body of `tokenize` returns, or raises, the specified tokens, and leaves the table the lookups leave |
| Encoding.EncodeOne | 01_python/YBIGTA/tokenizers.py:120-131 | one string: one value per word, either the word's count or the `<unk>` entry's; the row is cut only when longer than `max_length`; `padding` is ignored and nothing is raised |
| Encoding.EncodeMany | 01_python/YBIGTA/tokenizers.py:100-117 | a batch: each row is what the sentence alone gives; with `padding`, padded after truncation; an empty padded batch raises |
| Encoding.VocabAfterChanges | 01_python/YBIGTA/tokenizers.py:95-131 | `tokenize` keeps the table well formed and every entry unchanged, adds at most `<unk> ↦ 0`, and nothing when all words are known |
| Encoding.RaiseKeepsTable | 01_python/YBIGTA/tokenizers.py:95-131 | whenever `tokenize` raises on a trained table, the table is unchanged |
| Encoding.TrainedIds | 01_python/YBIGTA/tokenizers.py:104-108 | on a trained table a corpus word reads its number of occurrences, and any other word the count of the literal word `<unk>` |
| Tokenizers.BPETokenizer.constructor | 01_python/YBIGTA/tokenizers.py:59-64 | a list becomes the corpus, one string a one-line corpus; `vocab` is None |
| Tokenizers.BPETokenizer.AddCorpus | 01_python/YBIGTA/tokenizers.py:74-78 | the corpus becomes the old corpus followed by the new lines; `vocab` is unchanged |
| Tokenizers.BPETokenizer.Train | 01_python/YBIGTA/tokenizers.py:81-89 | `vocab` becomes the `get_vocab` table of the whole current corpus; the corpus is unchanged |
| Tokenizers.BPETokenizer.Tokenize | 01_python/YBIGTA/tokenizers.py:95-131 | raises before `train`; otherwise returns the specified tokens and keeps the table the lookups leave; the corpus is unchanged |
| Tokenizers.BPETokenizer.Call | 01_python/YBIGTA/tokenizers.py:70-71 | the same as `tokenize` |
| Tokenizers.WordTokenizer.constructor | 01_python/YBIGTA/tokenizers.py:148-153 | a list becomes the corpus, one string a one-line corpus; `vocab` is None |
| Tokenizers.WordTokenizer.AddCorpus | 01_python/YBIGTA/tokenizers.py:163-167 | the corpus becomes the old corpus followed by the new lines; `vocab` is unchanged |
| Tokenizers.WordTokenizer.Train | 01_python/YBIGTA/tokenizers.py:170-175 | `vocab` becomes the word-count table of the corpus, whatever `n_iter` is |
| Tokenizers.WordTokenizer.Tokenize | 01_python/YBIGTA/tokenizers.py:181-209 | raises before `train`; otherwise returns the specified tokens and keeps the table the lookups leave; the corpus is unchanged |
| Tokenizers.WordTokenizer.Call | 01_python/YBIGTA/tokenizers.py:159-160 | the same as `tokenize` |
| Tokenizers.SameTraining | 01_python/YBIGTA/tokenizers.py:81-89 | both classes train the same corpus to the same table, so they tokenize alike |
| Commands.CommandParser.constructor | 02_python/utils/command_parser.py:28-30 | records `verbose` |
| Commands.CommandParser.ParseCommand | 02_python/utils/command_parser.py:32-66 | the loop over `input_command[1:]` returns, or raises on empty input, the specified name, options and arguments |
| Commands.IsOption | 02_python/utils/command_parser.py:53 | `token.startswith('-')` |
| Commands.SelectPartition | 02_python/utils/command_parser.py:52-56 | every option starts with `-` and no argument does; between them they hold each remaining token exactly once |
| Commands.SelectAppend | 02_python/utils/command_parser.py:52-56 | the selection keeps input order: selecting from `a + b` selects from `a`, then from `b` |
| Commands.SelectAll | 02_python/utils/command_parser.py:52-56 | tokens all of one kind are kept whole on their side |
| Commands.ParseSpec | 02_python/utils/command_parser.py:47-66 | fails exactly on empty or all-whitespace input; otherwise the name is the first token, and options and arguments partition the rest |
| Commands.DashedName | 02_python/utils/command_parser.py:47-48 | `-v x` names the command `-v`, with no options and the argument `x` |

## Left out

- The classes' argument `None` is left out: `__init__` would store `[None]`,
  and `split` then fails. The corpus is a list of strings.
- `add_corpus` extends the caller's list in place (`+=`). The corpus is a
  value here, so aliasing between the caller's list and `self.corpus` is not
  modelled. The same holds for the constructor storing the caller's list.
- Regular expressions are modelled only as `merge_vocab` uses them. That is
  the left-to-right, non-overlapping substitution of `' '.join(pair)` with
  the literal `\S` guard.
- `Merge.Rewrite` inserts the replacement `''.join(pair)` literally. For a
  pair whose symbols hold a backslash, `re.sub` would instead expand the
  escapes of that template, or raise `re.error` on an unknown one. For such
  pairs `Merge.Rewrite`, and the lemmas stated over it
  (`Merge.RewriteKeepsLetters`, `Merge.MergedConservesFrequency` and the
  others), describe the literal substitution, not what `re.sub` does.
- `Tokenizers.BPETokenizer.Train` states the resulting table, not the number
  of rounds. The loop runs `max(n_iter, 0)` rounds, and each round returns
  the table unchanged.
- A plain `dict` table left by a merge would raise `KeyError` on
  `vocab['<unk>']` for an unknown word. Only a `defaultdict` is modelled,
  because `train` never merges and always stores the `get_vocab` table.
- `verbose` is recorded but never read. The `logging.info` calls of
  `parse_command` are output only and are not modelled.
- Type checks of the arguments are modelled by the `TextInput` datatype.
  Other Python types passed as text or corpus are not modelled.
