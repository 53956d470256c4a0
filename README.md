# mapreduce word count, modelled in Dafny

The program counts the words of a text file with a small map/reduce. A word is a maximal run
of ASCII letters, folded to lower case. It runs in four stages:

- **Plan.** `main` cuts the file into one chunk per thread. `prepare_chunks` moves every naive
  cut forward to the next word start with `find_next_starting_word`, so no word is split.
  It drops the threads with nothing left to read.
- **Map.** Each worker (`task`) reads its chunk byte by byte and inserts the words into a
  private prefix tree (trie). A trie level holds letters in ascending order, each with the
  number of words that end there.
- **Reduce.** `main` merges the workers' tries into one root trie in chunk order
  (`merge_trees`) and sums their word counts.
- **Report.** `print_tree` prints each word with a non-zero count as `word=count`, in
  increasing order.

The model has one module per part of the program:

| module | file | models |
|---|---|---|
| `Ascii` | ascii.dfy | bytes, `fgetc` on a file held as a byte sequence, `isalpha`, `tolower` |
| `Lex` | lex.dfy | the order of the printed words |
| `Words` | words.dfy | reference definitions of what a worker reads: runs of letters, the pending word, tallies |
| `TreeLib` | treelib.dfy | treelib.c. The class `Trie` holds the levels of one trie in a table, plus ghost bookkeeping |
| `Chunks` | chunks.dfy | `find_next_starting_word` and `prepare_chunks`, the latter over an `array` of chunks |
| `Worker` | worker.dfy | `task`, with its loop and state machine |
| `MapReduce` | mapreduce.dfy | the chunk size, the map and reduce loops of `main`, and the whole pipeline |
| `Example` | example.dfy | the example of treelib.h, followed through the whole model as lemmas, and the trie it draws |

Pointers become indices.
- A `struct node *` is the index of a level in `Trie.nodes`, with the root at level 0.
- An `alpha_node *` is the index of an entry within its level.
- A `FILE *` is a position in the byte sequence of the file. `Ascii.Getc(bytes, pos)` stands
  for `fgetc` at that position: the byte there, or `EOF` when the position is past the end.

A `Trie` keeps ghost state beside its levels.
- `Contents` maps every recorded path to the count of its last entry.
- `At` maps every path to its level.
- `Valid()` ties the ghost state to the levels: every level is ascending, and every entry is
  recorded under its path with its count.
- `Get(Contents, w)` is the number of times the trie holds `w`.

The headline results:
- `MapReduce.WordCount` runs plan, map, reduce and print for any number of threads.
  - Its root counts every non-empty word exactly as often as it occurs in the file.
  - Its total is the number of words the workers report.
  - Its printed listing is that multiset with counts, each word once, in increasing order.
- `MapReduce.ReportDetermined` adds that the listing does not depend on the thread count.

Where the code behaves differently from what its comments suggest, the model follows the code:

- **The empty lead word.** `task` starts with `in_word = 1` and an empty word (main.c:113-117).
  A chunk that opens with a non-letter therefore reports the empty word first. It adds one
  to `word_count` and calls `insert_word("")`, which changes nothing.
  - Only the first chunk can open that way, because later chunks start on a letter.
  - So the total exceeds the number of runs of letters by one when the file starts with a
    non-letter. `Example.LeadingSeparator` shows this on ", a".
  - `Words.Lead` and `MapReduce.FileWords` carry this lead word.
- **The word pending when the byte budget runs out.** `task` finalises a pending word only
  on end of file (main.c:146), not when `count` reaches `len`. `Worker.Parsed` models this:
  a pending word is dropped when the chunk stops before the end of the file.
  - Planned chunks never hit this case, since each one ends just before a word start
    (`MapReduce.ChunkWords`).
- **The byte past the chunk.** `task` reads one byte past the budget before testing `count < len`
  (main.c:120). It does not process that byte; the loop condition models this order.
- **The dropped chunk.** When `prepare_chunks` lowers the thread count to `i`, the same loop
  turn still computes chunk `i` (main.c:78-88). That slot is left as `(size, 0)`, which
  `Chunks.Planned` records. The extra chunk is never run.

## Model

| member | source | states |
|---|---|---|
| Ascii.Lower | main.c:125 | `tolower` of an ASCII letter is a lower-case letter, the same code or the code plus 32 |
| Lex.Irreflexive | treelib.c:112-117 | no word sorts before itself, so an increasing listing has no repeated word |
| Lex.Asymmetric | treelib.c:112-117 | two words never sort each before the other |
| Lex.PrefixFirst | treelib.c:114-116 | a word sorts before every longer word that extends it, as a word is printed before those below it |
| Lex.BranchOrder | treelib.c:112-116 | words that leave a common prefix through different letters sort by those letters, as the ascending levels are walked |
| Chunks.FindNextStartingWord | main.c:42-48 | from a position inside the file, the result is the first word start after it, or the end of the file; no word starts in between; a position at or past the end is left as it is |
| Chunks.Cut | main.c:82-88 | one chunk: starts at `start` and stops at the first word start after `start + chunkSize`, or at the end of the file when there is none; it stays inside the file, and a start at or past the end gives a chunk that ends at the end of the file |
| Chunks.CutsDetermined | main.c:82-88 | two chunks cut from the same start are equal: the description of a cut leaves no choice |
| Chunks.CutsAt | main.c:82-84 | a chunk whose naive end is followed first by the word start `q` ends at `q` |
| Chunks.CutsToEnd | main.c:82-88 | a chunk with no word start after its naive end ends at the end of the file |
| Chunks.FirstChunk | main.c:64-73 | chunk 0 starts at 0; the thread count drops to 1 when that chunk already reaches the end of the file |
| Chunks.NextChunk | main.c:75-89 | chunk `i` starts where chunk `i - 1` ends; the thread count drops to `i` when that start is at or past the end |
| Chunks.LastChunk | main.c:75-94 | when the loop stops, the kept chunks are a plan, and the slots after them are untouched |
| Chunks.PlanFirst | main.c:64-73 | chunk 0 is cut from offset 0, and the thread count is 1 when it reaches the end of the file, `n` otherwise |
| Chunks.PlanNext | main.c:75-89 | one turn of the loop: chunk `i` is cut from the end of chunk `i - 1`, and the thread count drops to `i` when that is at or past the end of the file |
| Chunks.PrepareChunks | main.c:60-94 | `1 <= m <= n` chunks that start at 0, follow each other, are sound, and are each cut as `Cut` promises (ending at the first word start after the naive end); all but the last end before the end of the file; the last ends it when the count was reduced or the naive chunks cover the file; the dropped chunk is `(size, 0)`; other slots keep their contents |
| Chunks.LastEnds | main.c:68-88 | when the loop stops, the last kept chunk ends the file if the thread count was reduced or if `n` chunks one byte longer than the naive size cover the file |
| Chunks.SameChunks | main.c:60-94 | two plans for the same file, worker count and naive size agree on every chunk both keep |
| Chunks.NotLonger | main.c:75-80 | such a plan keeps no more chunks than any other one, as the count drops at the first chunk that starts at or past the end |
| Chunks.PlanDetermined | main.c:60-94 | prepare_chunks' result is fixed by the file, the worker count and the naive size: the same thread count and the same chunks |
| Chunks.Followed | main.c:75-77 | a kept chunk that ends before the end of the file, with a worker slot after it, is followed by a kept chunk that starts where it ends |
| Chunks.EndsBefore | main.c:77 | a chunk ends before any later chunk starts |
| Chunks.Tiling | main.c:60-94 | when the last chunk ends the file, every byte lies in exactly one chunk |
| Words.LowerWord | main.c:123-126 | the word built from a run of letters is the run lower-cased letter by letter |
| Words.RunsAreWords | main.c:102-104 | every run reported is a non-empty word of lower-case letters |
| Words.RunsAppend | main.c:105 | cutting a file just after a non-letter splits no word: the runs of both parts, in order, are the runs of the whole |
| Words.TallyAppend | main.c:252-254 | the count of a word over two lists of words is the sum of its counts over each list |
| Words.TallyIsMultiplicity | treelib.h:1-2 | the count of a non-empty word is its multiplicity in the multiset of reported words |
| Words.ScannedRuns | main.c:120-145 | what the byte-by-byte state machine has reported after reading `s` is the lead word, then every run of letters that a non-letter has closed |
| Words.ScanEnd | main.c:146-149 | at end of file, the pending word is reported too, so everything read yields the lead word and all runs of letters |
| Worker.Record | main.c:129-130 | inserting a reported word adds it to the running tally of the chunk's trie |
| Worker.Consume | main.c:121-144 | one turn of task's loop keeps the state in step with the reference scan: the words reported, the word being built and the count |
| Worker.Flush | main.c:146-149 | after the loop, on end of file inside a word, that word is counted and inserted, so the count and the trie match the chunk's words |
| Worker.Task | main.c:110-153 | the word count is the number of words the chunk reports; the trie gains exactly those words; a chunk of length 0 reports nothing and leaves the trie unchanged |
| TreeLib.IsIn | treelib.c:20-25 | the index of the first entry with letter `c`, or -1 (NULL) exactly when no entry has it |
| TreeLib.InsertLetter | treelib.c:54-75 | the level grows by one entry `(c, 0, next)`, placed after the smaller letters and before the first letter that is not smaller; the others keep their order |
| TreeLib.MakeRoom | treelib.c:65-68 | the entries from slot `i` on move up one slot and those before `i` stay put |
| TreeLib.InsertKeepsAscending | treelib.c:63-73 | putting an absent letter at that place keeps the level strictly ascending |
| TreeLib.Trie.constructor | main.c:244-245 | an empty root holds no word |
| TreeLib.Trie.InsertLetterAt | treelib.c:35-45 | an absent letter gets an entry with count 0 and a fresh empty level below it; only that path is added |
| TreeLib.Trie.Lookup | treelib.c:142-144 | the entry for letter `c` on the level, created when absent; counts do not change, every path keeps its level, and the recorded paths gain exactly `p + [c]` |
| TreeLib.Trie.AddCount | treelib.c:146 | the count of one entry grows by `k`, and nothing else changes |
| TreeLib.Trie.InsertWord | treelib.c:138-151 | the count of `w` grows by 1 and no other count changes; the recorded paths gain exactly the non-empty prefixes of `w`; the empty word leaves the trie unchanged; every level stays ascending |
| TreeLib.Trie.WordLetter | treelib.c:141-149 | one turn of insert_word's loop records `w[..k + 1]`; after the last letter `w` counts once more, otherwise the walk moves to the level of `w[..k + 1]` |
| TreeLib.Trie.PrefixEntry | treelib.c:141-149 | every non-empty prefix of a recorded word has its own entry, whose count is the prefix's own count |
| TreeLib.PrefixRecorded | treelib.c:141-144 | in a well-formed trie, every non-empty prefix of a recorded path is recorded |
| TreeLib.Trie.MergeTrees | treelib.c:83-94 | below level `x`, each word that `from` records below its level `f` gains `from`'s count and is recorded; nothing else changes; `from` is only read |
| TreeLib.Trie.MergeLevel | treelib.c:84-93 | after the loop over the entries of `from`'s level, everything `from` records below it is merged, counts and paths |
| TreeLib.Trie.MergeRound | treelib.c:86-91 | one turn of the loop extends the merged part by the paths through entry `i` |
| TreeLib.Trie.MergeEntry | treelib.c:86-91 | one turn of merge_trees' loop adds, with their counts, every path of `from` that leaves `q` through the letter of entry `i` |
| TreeLib.Trie.Merge | treelib.c:83-94 | the count of every word becomes the sum of its counts in both tries, and the recorded paths are those of both; `from` is only read |
| TreeLib.Trie.PrintAt | treelib.c:102-120 | the lines printed below a prefix are the words below it with non-zero counts, each with its count and in increasing order, and every such word appears |
| TreeLib.Trie.PrintEntry | treelib.c:112-117 | one turn of _print_tree's loop prints the word of the entry if its count is not 0, then the words below it, keeping the listing ordered |
| TreeLib.Trie.PrintTree | treelib.c:128-130 | the lines printed are exactly the words with a non-zero count, each with its count, in strictly increasing order |
| TreeLib.OrderedUnique | treelib.c:112-117 | two strictly increasing listings with the same lines are equal |
| MapReduce.ChunkSize | main.c:215-216 | the naive chunk size is at least 1, `n` chunks of it fit in the file (or in `n` bytes), and `n` chunks one byte longer cover the file |
| MapReduce.Reduce | main.c:243-256 | the total is the sum of the workers' counts, and the root holds, for each word, the sum of its counts in all tries |
| MapReduce.ChunkWords | main.c:110-153 | on a planned chunk, task reports the runs of letters of its bytes, preceded for the first chunk by the file's lead word |
| MapReduce.ChunkReports | main.c:119 | the same for every placed chunk, empty ones included: an empty chunk reports nothing |
| MapReduce.PlannedContiguous | main.c:60-94 | the plan's chunks start at 0 or at a word start, and follow each other |
| MapReduce.GatheredPrefix | main.c:249-256 | the first `k` chunks of a plan report the lead word, then the runs of letters of the bytes they cover |
| MapReduce.GatheredWhole | main.c:249-256 | a plan that ends the file reports, chunk after chunk, exactly the file's words |
| MapReduce.MapChunk | main.c:227-239 | one worker on a fresh empty trie: its count and its trie are those of the chunk's words |
| MapReduce.MapNext | main.c:227-239 | one more worker, on the next chunk: the count sum and pooled tally now cover that chunk's words too |
| MapReduce.MapAll | main.c:227-239 | after all workers, the sum of their counts and the pooled tally of their tries are those of the words of all chunks |
| MapReduce.Plan | main.c:213-220 | the plan has `1 <= m <= n` chunks, each placed, and together they report exactly the file's words |
| MapReduce.WordCount | main.c:213-272 | the root counts every non-empty word exactly as often as the file holds it; the total is the number of words reported; the listing is that multiset, each word once with its count, in increasing order |
| MapReduce.ReportDetermined | main.c:272 | two listings that meet WordCount's promise for the same words are equal, so the report does not depend on the thread count |
| MapReduce.PrefixNotWord | treelib.c:141-149 | in the final trie, a proper prefix of a word of the file that is not itself a word has an entry with count 0 |
| Example.SampleWords | treelib.h:4-6 | the file "a a at ban\n" holds the words a, a, at, ban |
| Example.SampleTally | treelib.h:4-15 | its counts are a=2, at=1 and ban=1, and 0 for every other word |
| Example.SamplePrinted | treelib.h:4-15 | whatever the thread count, the program prints exactly a=2, at=1, ban=1, in that order |
| Example.SampleTrie | treelib.h:3-16 | inserting a, a, at, ban into an empty trie records exactly a=2, at=1, b=0, ba=0, ban=1, and the root level holds a (count 2) before b (count 0) |
| Example.SpacedPlan | main.c:60-94 | on " a b c" with 10 workers and a naive size of 1, the plan is exactly (0,3), (3,2), (5,1) and the thread count drops to 3 |
| Example.LeadingSeparator | main.c:113-130 | on ", a" the program reports 2 words, the empty lead word and a, yet only a is counted |

## Left out

- Thread creation, `pthread_join` and the fallback that runs `task` on the main thread (main.c:227-239). The workers run one after the other in plan order; each reads only its own chunk and writes only its own trie, and the reduce runs in plan order in the source too.
- The `fopen` loop that lowers the thread count when a file cannot be opened (main.c:199-209). `MapReduce.WordCount` takes the thread count left after it, which is at least 1.
- Argument parsing, `stat`, the timing code, `[LOG]` and `[DBG]` messages, and `fclose`: they do not change the counts.
- `fseek`/`ftell`/`ungetc` on a real file. The file is its byte sequence and a position is an index. A seek past the end is kept as that position, as `ftell` reports it.
- `malloc`, `realloc` and `free`, and the exit on allocation failure. Memory is unbounded in the model.
- `deallocate_tree` (treelib.c:156-163): it only frees memory, which the model does not track.
- `printf` formatting. A printed line `word=count` is the pair `(word, count)`.
- The C locale is assumed for `isalpha` and `tolower`: letters are the ASCII A-Z and a-z.
- Worker.Task: `count`, `word_count` and the entry counts are unbounded integers, so the C `int` and `long` overflows on huge inputs are not modelled.
- TreeLib.Trie.InsertWord: the source's NUL-terminated `char *` is a `string`, and words hold no NUL because they are made of letters.
