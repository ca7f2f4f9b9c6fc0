# logmine in Dafny

A model of the core of logmine, a small C++ library that clusters log lines
online. Each incoming line is split into whitespace-separated words, and
each word becomes a token. Words that look like a date, a time or a
timestamp become canonical `Date`, `Time` or `DateTime` tokens; every
other word becomes a `Text` token. The token sequence is compared with the
representative of each existing cluster by a positional distance. The line
joins a cluster whose representative is closer than 0.5, or else it opens
a new cluster with itself as the representative. When a line joins a
cluster, the library also aligns it with the representative by
Smith–Waterman local alignment. It has a Needleman–Wunsch global alignment
too, and a pointwise `merge` of two aligned token sequences that replaces
differing words by `WORD`.

The model has one module per header, and one module of worked examples for each:

- `Alignment` (`align.dfy`) covers `include/align.h`.
  - Both score grids are specified cell by cell, as predicates
    (`IsLocalTable`, `IsGlobalTable`). Each predicate is proved to have
    exactly one solution, the recursively defined table.
  - The fill loops (`LocalGrid`, `GlobalGrid`) work on an `array2<int>`
    and are proved to fill it with that table.
  - The local fill loop also finds the *last* cell with the largest score,
    because it compares with `>=`.
  - The backtrace loops are proved to emit the rows of a recursively
    defined path (`LocalPath`, `GlobalPath`).
  - Lemmas about the paths show that each one consumes a contiguous slice
    of each input.
- `Tokens` (`tokens.dfy`) covers `include/tokens.h`:
  - the token kinds and the three recognisers, each written position by
    position;
  - the whitespace splitter, specified by the function `Words`;
  - `tokenize`, `join`, `untokenize` and `merge`, each as a method proved
    against a function;
  - a round trip: joining words with a space and splitting again gives the
    same words.
- `Logmine` (`logmine.dfy`) covers `include/logmine.h`.
  - `distance` is proved equal to an exact-arithmetic `DistanceOf`. It lies
    in [0, 1], is symmetric, is 0 from a nonempty line to itself and is 1
    against an empty line.
  - The threshold test `distance < 0.5` is proved equivalent to an integer
    predicate, `Close`.
  - `Cluster` and `Logmine` are classes with the source's fields.
  - `Logmine` keeps an invariant, `Valid`: the representatives and sizes
    of its clusters are `Routed(history)`. `Routed` is the pure fold of
    `Added` over every line routed so far, and each of those lines is one
    `tokenize` can produce. So no representative ever holds a `Gap` token.
  - Lemmas about `Added` and `Routed` show that:
    - a line goes to the last close cluster, or opens one;
    - no line is lost, since the sizes add up to the number of lines;
    - every cluster holds at least one line;
    - representatives never change and are always lines that were added.
- `AlignmentExamples`, `TokensExamples` and `LogmineExamples` work through
  the scenarios of the repository's unit tests on the model.

Some behaviours of the code are not what its names, comments or tests
lead one to expect. The model follows the code in each case:

- `find_cluster` sets `d` to `FLT_MAX` and compares each distance with it
  (include/logmine.h:82-89), but never assigns it, so `d` stays at
  `FLT_MAX`. The scan therefore picks the **last** cluster closer than 0.5
  in list order, not the closest one (`Logmine.Logmine.Scan`,
  `Logmine.LastClose`).
- `Cluster::add` only counts the line. Its alignment with the
  representative is computed and then only logged, so a representative is
  never generalised (include/logmine.h:49-54). The clustering test expects
  merged representatives with `WORD` in them
  (tests/src/logmine_tests.cpp:63-70). The code instead keeps the first line of each
  cluster as it was tokenized (`LogmineExamples.ClusteringTest`).
- `merge` turns a `Word`/`Word` pair into a `Text` token holding "WORD",
  and a `Gap` pair into `Text`, because neither matches a rule before the
  fallback (include/tokens.h:158-190, `Tokens.MergeFallbacks`).
- The local backtrace tries the cell to the left before the diagonal
  (include/align.h:63-72, `Alignment.LocalMove`).
- `tokenize` replaces a timestamp by the payload "DateTime". A merge of two
  tokenized lines therefore never shows the original timestamp, which the
  merge test expects to see (tests/src/logmine_tests.cpp:82,
  `LogmineExamples.MergeTest`).

## Model

| member | source | states |
|---|---|---|
| Alignment.Match | include/align.h:10-13 | the default pair score is positive exactly for equal elements and is ±3 |
| Alignment.LocalCell | include/align.h:31-38 | the Smith–Waterman recurrence is never negative and is 0 on the top row and left column |
| Alignment.LocalBest | include/align.h:37 | an interior cell is the largest of 0 and its three candidates |
| Alignment.LocalTable | include/align.h:29-46 | the recursively defined local grid has (n+1)×(m+1) cells, a zero border and every cell given by the recurrence |
| Alignment.LocalTableIsLocal | include/align.h:29-46 | the recursive table obeys the cell-by-cell specification of the fill loop |
| Alignment.LocalCellsAgree | include/align.h:29-46 | every cell of any grid obeying the specification equals the recursive cell |
| Alignment.LocalTableIsTheTable | include/align.h:29-46 | a grid obeying the specification is the recursive table |
| Alignment.LocalTableUnique | include/align.h:29-46 | two inputs have exactly one local grid |
| Alignment.LocalTableCell | include/align.h:34-38 | an interior cell of a local grid is the best of diagonal + score, left − 2, up − 2 and 0 |
| Alignment.LocalTableNonNegative | include/align.h:37 | every cell of a local grid is nonnegative |
| Alignment.LastMaxCellUnique | include/align.h:39-43 | at most one cell is the last maximum in row-major order |
| Alignment.LastMaxCellWithoutScore | include/align.h:29-46 | when no pair scores above 0, the fill loop's `>=` ends on the bottom-right cell |
| Alignment.LocalCellsZero | include/align.h:31-38 | when no pair scores above 0, every cell of the local grid is 0 |
| Alignment.ColumnAt | include/align.h:58-76 | a diagonal step emits both elements; a step left puts the gap in the left output; a step up puts it in the right output |
| Alignment.LocalMove | include/align.h:54-80 | the walk stops exactly when the diagonal predecessor is 0; otherwise it steps left exactly when the left cell is at least the diagonal and the upper cell, diagonally exactly when the diagonal beats the left cell and is at least the upper one, and up exactly when the upper cell beats both; a step that goes on stays inside the grid |
| Alignment.LocalPath | include/align.h:48-84 | the local backtrace from an interior cell, in output order, has at least one and at most i + j − 1 columns and starts with a pair |
| Alignment.LocalPathSlices | include/align.h:48-84 | a local backtrace starts with a pair and consumes nonempty contiguous slices of both inputs ending at the start cell |
| Alignment.ScannedIsBest | include/align.h:25-46 | the running `max`/`mi`/`mj` is the last maximum of the interior cells scanned so far |
| Alignment.LocalGrid | include/align.h:21-46 | the array holds the local grid, and (mi, mj) is its last maximum cell holding `max` (all zero when an input is empty) |
| Alignment.LocalBacktrace | include/align.h:48-84 | the outputs, after pushing and reversing, are the two rows of the local path from (mi, mj) |
| Alignment.Align2 | include/align.h:18-87 | for nonempty inputs, the outputs are the rows of the backtrace from the last maximum cell of the unique local grid and have the same nonzero length |
| Alignment.Align2Chars | include/align.h:165-168 | the string wrapper aligns with `Match` and the gap '-' |
| Alignment.GlobalCell | include/align.h:97-111 | the Needleman–Wunsch border cells are i or j times −2 |
| Alignment.GlobalTable | include/align.h:95-111 | the recursively defined global grid has (n+1)×(m+1) cells, each given by the recurrence |
| Alignment.GlobalTableIsGlobal | include/align.h:97-111 | the recursive table obeys the cell-by-cell specification |
| Alignment.GlobalTablesAgree | include/align.h:97-111 | two grids obeying the specification agree on every cell |
| Alignment.GlobalCellsAgree | include/align.h:97-111 | every cell of any grid obeying the specification equals the recursive cell |
| Alignment.GlobalTableIsTheTable | include/align.h:97-111 | a grid obeying the specification is the recursive table |
| Alignment.GlobalTableUnique | include/align.h:97-111 | two inputs have exactly one global grid |
| Alignment.GlobalTableCell | include/align.h:99-108 | border and interior cells of a global grid, read off the grid |
| Alignment.GlobalMove | include/align.h:124-140 | a global backtrace step always moves: left exactly when neither the diagonal nor the upper cell beats the left one, diagonally exactly when the diagonal beats the left cell and the upper cell does not beat the diagonal, up exactly when the upper cell beats both |
| Alignment.GlobalPath | include/align.h:116-157 | the global backtrace from (i, j), in output order, ends once i or j is 0 and has at most i + j columns |
| Alignment.GlobalChoice | include/align.h:124-140 | the offsets the loop picks by its two strict comparisons lead to the predecessor that `GlobalMove` names |
| Alignment.SuffixesSnoc | include/align.h:141-152 | one more backtrace column, taking at most one element from each input, keeps the consumed elements suffixes of both prefixes, one of them whole |
| Alignment.GlobalPathSuffixes | include/align.h:122-152 | the global backtrace consumes suffixes of both inputs, one of them whole, and is at most n + m long |
| Alignment.GlobalGrid | include/align.h:93-111 | the array holds the unique global grid |
| Alignment.GlobalBacktrace | include/align.h:116-157 | the outputs are the two rows of the global path from the bottom-right cell |
| Alignment.Align | include/align.h:89-158 | the outputs are the rows of the backtrace over the unique global grid, of equal length at most n + m |
| AlignmentExamples.TwoMaximaLast | tests/src/align_tests.cpp:18-27 | for "ABCYE"/"ABCZE" the later of the two cells scoring 9, (5, 5), is the last maximum |
| AlignmentExamples.TwoMaxima | tests/src/align_tests.cpp:18-27 | local alignment of "ABCYE" and "ABCZE" gives "ABCYE" and "ABCZE" |
| AlignmentExamples.CommonPrefixLast | tests/src/align_tests.cpp:29-38 | for "ABCXE"/"ABCYZE" the only cell scoring 9 is (3, 3) |
| AlignmentExamples.CommonPrefix | tests/src/align_tests.cpp:29-38 | local alignment of "ABCXE" and "ABCYZE" gives "ABC" and "ABC" |
| AlignmentExamples.GappedLast | tests/src/align_tests.cpp:7-16 | for "HEAGAWGHEE"/"PAWHEAE" the last maximum is the bottom-right cell, scoring 11 |
| AlignmentExamples.GappedPath | tests/src/align_tests.cpp:7-16 | the backtrace from it takes a step up and a step left between diagonal pairs and stops at (5, 2) |
| AlignmentExamples.Gapped | tests/src/align_tests.cpp:7-16 | local alignment of "HEAGAWGHEE" and "PAWHEAE" gives "AWGHE-E" and "AW-HEAE" |
| Tokens.KindName | include/tokens.h:12-35 | every kind has a name, so "Unknown" is never returned |
| Tokens.KindNameInjective | include/tokens.h:12-35 | two kinds print the same exactly when they are the same kind |
| Tokens.Equal | include/tokens.h:47-49 | token equality compares both string and kind, and is value equality |
| Tokens.IsDate | include/tokens.h:75-80 | the date pattern `\d{4}-\d{2}-\d{2}`, matched against a whole word; what it accepts is ten characters long and holds no whitespace |
| Tokens.IsTime | include/tokens.h:87-92 | the time pattern `\d{2}:\d{2}:\d{2},\d{3}`, matched against a whole word; what it accepts is twelve characters long and holds no whitespace |
| Tokens.IsDateTime | include/tokens.h:100-105 | the timestamp pattern, matched against a whole word; what it accepts is nineteen characters long and holds no whitespace |
| Tokens.DateTimeFields | include/tokens.h:105 | the timestamp pattern accepts year 20xx, month 1-12, day 0-39, hour 0-23, minute and second 0-59 |
| Tokens.RecognizersExclusive | include/tokens.h:80-105 | no word is accepted by two of the three patterns |
| Tokens.IsSpace | include/tokens.h:113 | the whitespace that ends a word: `isspace` in the "C" locale, the space and the characters tab through carriage return |
| Tokens.WordLength | include/tokens.h:113 | the length of the leading run of non-space characters, stopped by a space or the end |
| Tokens.Words | include/tokens.h:109-113 | the extracted words are nonempty and contain no whitespace |
| Tokens.WordsBlank | include/tokens.h:113 | a string yields no words exactly when it is all whitespace |
| Tokens.WordsSkipSpaces | include/tokens.h:113 | leading whitespace does not change the words |
| Tokens.ReadWord | include/tokens.h:113 | one extraction skips whitespace and reads the first word; it fails exactly when only whitespace is left |
| Tokens.Classify | include/tokens.h:114-122 | a word becomes Date, Time or DateTime exactly when the matching pattern accepts it, and Text holding the word otherwise; never Gap or Word |
| Tokens.Tokenized | include/tokens.h:107-126 | one token per word, in order; a Text token keeps its word, and any other token carries its kind's name |
| Tokens.TokenizedWellFormed | include/tokens.h:107-126 | tokenizing yields only Text tokens carrying words and the canonical Date/Time/DateTime tokens; it yields none exactly for a blank line |
| Tokens.TokenizedCons | include/tokens.h:113-123 | the first word contributes its classification, followed by the tokens of the rest |
| Tokens.Tokenize | include/tokens.h:107-126 | the loop yields one classified token per word, in order |
| Tokens.JoinWith | include/tokens.h:128-138 | the strings with the delimiter between consecutive ones; the join starts with the first string |
| Tokens.JoinWithLength | include/tokens.h:128-138 | a join is as long as its strings together plus one delimiter between each two |
| Tokens.JoinWithCons | include/tokens.h:128-138 | a join is the first string, the delimiter and the join of the rest |
| Tokens.WordsJoinWith | include/tokens.h:128-138 | splitting words joined by " " gives the same words back |
| Tokens.Join | include/tokens.h:128-138 | the loop puts the delimiter before every element but the first |
| Tokens.Untokenize | include/tokens.h:140-146 | the tokens' strings joined with the delimiter, which is empty by default |
| Tokens.UntokenizeWords | include/tokens.h:140-146 | splitting an untokenized line gives back one word per token, each the token's string |
| Tokens.MergeToken | include/tokens.h:156-190 | a pair merges to WORD exactly for differing Text/Text, Word/Text or Text/Word; two Date, two Time or two DateTime tokens merge to the canonical token of that kind, and only they give a non-Text, non-Word kind; everything else becomes Text holding the right-hand string; never Gap |
| Tokens.Merged | include/tokens.h:148-194 | the merge is as long as the shorter input and merges position by position |
| Tokens.Merge | include/tokens.h:148-194 | the loop computes the positionwise merge |
| Tokens.MergeKindSymmetric | include/tokens.h:158-190 | the merged kind does not depend on which side is left; only the Text fallback differs, taking the right-hand string in each order |
| Tokens.MergeTextPair | include/tokens.h:158-190 | two Text tokens merge to the right-hand token when their strings agree and to WORD when they differ |
| Tokens.MergeTokenIdempotent | include/tokens.h:158-190 | a token `tokenize` can produce merges with itself to itself |
| Tokens.MergedIdempotent | include/tokens.h:148-194 | a tokenized line merged with itself is unchanged |
| Tokens.MergeFallbacks | include/tokens.h:163-189 | Word/Word merges to Text "WORD", and Gap/Gap merges to Text |
| TokensExamples.GoodTokens | tests/src/tokens_tests.cpp:7-18 | "This is a good test" tokenizes to five Text tokens |
| TokensExamples.BadTokens | tests/src/tokens_tests.cpp:7-18 | "This is a bad test" tokenizes to five Text tokens |
| TokensExamples.GoodBadMerged | tests/src/tokens_tests.cpp:7-18 | merging those tokens replaces only "good"/"bad" by "WORD" |
| TokensExamples.GoodBadTest | tests/src/tokens_tests.cpp:7-18 | the merged line untokenized with " " is "This is a WORD test" |
| TokensExamples.PrefixMerged | tests/src/align_tests.cpp:69-82 | the common-prefix rows "This is a" merged with each other and untokenized with " " give "This is a" |
| Logmine.Score | include/logmine.h:12-15 | the score is 1 exactly for equal tokens and 0 otherwise |
| Logmine.MatchesUpTo | include/logmine.h:26-31 | the number of equal positions among the first i is at most i |
| Logmine.MatchesUpToAll | include/logmine.h:26-31 | all of the first i positions score exactly when every one holds equal tokens |
| Logmine.MatchesUpToSymmetric | include/logmine.h:26-31 | counting equal positions does not depend on the order of the lines |
| Logmine.DistanceOf | include/logmine.h:17-35 | the exact distance lies in [0, 1] and is below 1 exactly when some position holds equal tokens |
| Logmine.Distance | include/logmine.h:17-35 | the loop's `1 - sum` of score/max is one minus the share of equal positions in the longer line |
| Logmine.DistanceProperties | include/logmine.h:17-35 | the distance lies in [0, 1], is symmetric, is 0 from a nonempty line to itself and is 1 when either line is empty |
| Logmine.CloseMatches | include/logmine.h:80-87 | distance < 0.5 exactly when more than half of the longer line's positions match; then neither line is empty |
| Logmine.Cluster.constructor | include/logmine.h:43 | a new cluster keeps the line as its representative and has size 1 |
| Logmine.Cluster.ClusterDistance | include/logmine.h:45-47 | the absolute value of the distance is the distance |
| Logmine.Cluster.Add | include/logmine.h:49-54 | the size goes up by one; the representative is a constant, so the line never changes it |
| Logmine.Cluster.Size | include/logmine.h:56-58 | returns the size |
| Logmine.LastClose | include/logmine.h:82-90 | the choice is a close representative with no close one after it, or none when no representative is close |
| Logmine.LastCloseSnoc | include/logmine.h:84-90 | scanning one more representative moves the choice to it exactly when the line is close to it |
| Logmine.LastCloseIs | include/logmine.h:84-90 | the last close representative is the one chosen |
| Logmine.LastCloseNone | include/logmine.h:84-90 | with no close representative none is chosen |
| Logmine.Added | include/logmine.h:78-98 | routing a line keeps one size per representative |
| Logmine.AddedGrows | include/logmine.h:87-93 | a line close to some cluster grows the last close one by one, and nothing else changes |
| Logmine.AddedOpens | include/logmine.h:91-97 | a line close to no cluster appends a new cluster of size 1 with the line as representative |
| Logmine.AddedOpensOnly | include/logmine.h:94-96 | a new representative can only be the line just routed |
| Logmine.AddedCounts | include/logmine.h:78-98 | routing keeps every size at least 1, raises the total by exactly 1, keeps the representatives as a prefix and adds at most one cluster |
| Logmine.SumIncrement | include/logmine.h:50 | raising one size by one raises the total by one |
| Logmine.JoinedNonempty | include/logmine.h:87-93 | a line that joins a cluster and that cluster's representative are both nonempty, as `align2` in `add` needs |
| Logmine.Routed | include/logmine.h:67-98 | the clusters after a sequence of lines keep one size per representative |
| Logmine.RoutedSnoc | include/logmine.h:67-98 | routing one more line is one more step of `Added` |
| Logmine.RoutedCounts | include/logmine.h:62-99 | after any sequence of lines: every size is at least 1, the sizes add up to the number of lines, there are no more clusters than lines, and every representative is one of the lines |
| Logmine.RoutedWellFormed | include/logmine.h:43-98 | when every line routed is one `tokenize` can produce, so is every representative, which therefore holds no Gap token |
| Logmine.Logmine.constructor | include/logmine.h:62-64 | a new model has no clusters and satisfies the invariant |
| Logmine.ScanTest | include/logmine.h:82-87 | a distance is below both the 0.5 threshold and `FLT_MAX` exactly when the line is close to the representative |
| Logmine.ScanStep | include/logmine.h:85-89 | with the distance to the next representative in hand, the test against 0.5 and the never-updated `d` leaves the last close cluster among those scanned so far |
| Logmine.Logmine.Scan | include/logmine.h:82-90 | the scan, with `d` never updated, picks the last cluster within distance 0.5 |
| Logmine.Logmine.FindCluster | include/logmine.h:78-98 | for a line `tokenize` can produce, the new representatives and sizes are `Added` of the old ones, and the invariant holds for the history extended by the line |
| Logmine.Logmine.Grow | include/logmine.h:91-93 | the chosen cluster grows by one; no other cluster and no representative changes |
| Logmine.Logmine.Open | include/logmine.h:94-96 | a new cluster of size 1 holding the line is appended and the clusters stay distinct |
| Logmine.Logmine.Add | include/logmine.h:67-74 | the line is tokenized and routed; every cluster holds at least one line, the sizes add up to the number of lines added, and no representative holds a Gap token |
| LogmineExamples.DisconnectedMatches | tests/src/logmine_tests.cpp:17-27 | two "Disconnected" lines match on 5 positions if the brokers agree, and on 4 otherwise |
| LogmineExamples.ConnectedMatches | tests/src/logmine_tests.cpp:29-73 | two "Connected" lines match on 7 positions if the users agree, and on 6 otherwise |
| LogmineExamples.Apart | tests/src/logmine_tests.cpp:29-73 | a "Disconnected" and a "Connected" line are not close, either way round |
| LogmineExamples.DisconnectedDistance | tests/src/logmine_tests.cpp:17-27 | two "Disconnected" lines with different brokers are at distance 0.2 |
| LogmineExamples.SameKindClose | tests/src/logmine_tests.cpp:29-73 | lines of the same kind are always close |
| LogmineExamples.Interleaved | tests/src/logmine_tests.cpp:29-73 | four "Disconnected" lines interleaved with three "Connected" lines make two clusters, of sizes 4 and 3 |
| LogmineExamples.Timestamp | tests/src/logmine_tests.cpp:19-20 | "2020-09-06T16:00:00" classifies as DateTime |
| LogmineExamples.DisconnectedLine | tests/src/logmine_tests.cpp:19-20 | a "Disconnected" test line tokenizes to DateTime followed by four Text tokens |
| LogmineExamples.ConnectedLine | tests/src/logmine_tests.cpp:76-77 | a "Connected" test line tokenizes to DateTime followed by six Text tokens |
| LogmineExamples.DistanceTest | tests/src/logmine_tests.cpp:17-27 | the test's first and third lines are at distance 0.2 |
| LogmineExamples.ClusteringTest | tests/src/logmine_tests.cpp:29-73 | the seven test lines make two clusters of sizes 4 and 3, represented by the first line of each kind as tokenized |
| LogmineExamples.ConnectedMergedTokens | tests/src/logmine_tests.cpp:75-85 | merging two "Connected" lines that differ only in the user gives the DateTime token, the shared words, WORD for the user, then the shared words |
| LogmineExamples.ConnectedMerged | tests/src/logmine_tests.cpp:75-85 | merging two "Connected" lines puts "WORD" in place of the user and keeps "DateTime" |
| LogmineExamples.MergeTest | tests/src/logmine_tests.cpp:75-85 | merging the test's two tokenized lines gives the payloads "DateTime Connected as user: WORD database: users1" |

## Left out

- The push of `left[llen]` and `right[rlen]` before the global backtrace
  (include/align.h:119-120) reads one past the end of each input, which is
  undefined behaviour. `Alignment.Align` models the loop without it.
- Alignment.Align2, Alignment.Align2Chars: require both inputs to be
  nonempty. On an empty input the source backtraces from cell (0, 0) and
  reads outside the grid. In `Cluster::add` both are always nonempty
  (`Logmine.JoinedNonempty`).
- The `std::string_view` wrapper of the global alignment
  (include/align.h:160-163) is not modelled separately. It is `Align` with
  the gap '-' on characters.
- The variable-length stack array `int grid[llen + 1][rlen + 1]` is an
  `array2<int>`. Dafny's `int` is unbounded, so overflow of the source's
  32-bit `int` scores is not modelled.
- `std::regex` is replaced by fixed-length position-by-position predicates
  that accept the same strings. `isspace` is the "C" locale's set of six
  whitespace characters. Other locales are not modelled.
- Logmine.Distance, Logmine.Logmine.Scan: use exact reals in place of
  `float`/`double`. The source's rounding is not modelled, so a distance of
  exactly 0.5 in the model could round either way in the source. `FLT_MAX`
  is kept as its exact value.
- Logmine.Score: returns an integer, not the source's `float` 1 or 0.
- Logmine.Cluster.Add: the counter `int size_` (include/logmine.h:40, 50)
  is unbounded in the model, so its overflow after 2^31 − 1 lines is not
  modelled.
- Logmine.Cluster.Add: the alignment result is discarded, as in the
  source. The logging of it to `std::cout`, like all the other logging of
  `Logmine::add` and `find_cluster`, is output and is left out.
- src/logmine.cpp (the command-line reader of JSON log files) and the JSON
  parser the tests use are not part of this model.
- The clustering test looks clusters up through `Logmine::get_clusters()`
  and `Cluster::id()`, which the headers do not define. The model states
  instead what the clusters are (`LogmineExamples.ClusteringTest`).
- The alignment steps of the token tests of tests/src/align_tests.cpp
  (lines 40-82) are not worked through on tokens. Distinct words play the
  part of distinct letters, because `match` only compares for equality.
  - The first test aligns single-letter `Text` tokens. Its grid and
    backtrace are those of `AlignmentExamples.Gapped`.
  - The second test aligns "This is a good test" with "This is a bad test".
    Its alignment has the shape of `AlignmentExamples.TwoMaxima`: both
    lines whole. The merge of those rows is `TokensExamples.GoodBadTest`.
  - The third test aligns "This is a good test" with "This is a really bad
    test". Its alignment has the shape of `AlignmentExamples.CommonPrefix`:
    the common prefix "This is a" on both sides. The merge of those rows is
    `TokensExamples.PrefixMerged`.
