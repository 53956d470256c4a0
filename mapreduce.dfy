/**
 * The driver of main.c without its threads: the naive chunk size, the reduce step that sums
 * the workers' word counts and merges their tries in plan order, and the whole pipeline, which
 * counts exactly the words of the file.
 */
module MapReduce {
  import opened Ascii
  import opened Words
  import opened TreeLib
  import opened Chunks
  import opened Worker

  /** `st_size / thread_count`, raised to 1: a plan of `n` chunks of one more byte covers the file. */
  function ChunkSize(size: int, n: int): (chunkSize: int)
    requires 0 <= size && 1 <= n
    ensures 1 <= chunkSize && chunkSize * n <= if size < n then n else size
    ensures (chunkSize + 1) * n > size
  {
    var q := size / n;
    assert size == q * n + size % n;
    if q < 1 then 1 else q
  }

  /** The sum of the workers' word counts, taken in plan order. */
  function Sum(counts: seq<int>): int
    decreases |counts|
  {
    if counts == [] then 0 else Sum(counts[..|counts| - 1]) + counts[|counts| - 1]
  }

  /** How often the tries `tries` hold `u`, all together. */
  ghost function Pool(tries: seq<Trie>, u: string): nat
    reads tries
    decreases |tries|
  {
    if tries == [] then 0 else Pool(tries[..|tries| - 1], u) + Get(tries[|tries| - 1].Contents, u)
  }

  /**
   * The reduce loop of main: starting from an empty root, add each worker's word count to the
   * total and merge its trie into the root, in plan order. The workers' tries are only read.
   */
  method Reduce(tries: seq<Trie>, counts: seq<int>) returns (root: Trie, total: int)
    requires |tries| == |counts|
    requires forall k :: 0 <= k < |tries| ==> tries[k].Valid()
    ensures fresh(root) && root.Valid()
    ensures total == Sum(counts)
    ensures forall u :: Get(root.Contents, u) == Pool(tries, u)
  {
    root := new Trie();
    total := 0;
    var i := 0;
    while i < |tries|
      invariant 0 <= i <= |tries|
      invariant fresh(root) && root.Valid()
      invariant total == Sum(counts[..i])
      invariant forall u :: Get(root.Contents, u) == Pool(tries[..i], u)
    {
      total := total + counts[i];
      root.Merge(tries[i]);
      assert counts[..i + 1][..i] == counts[..i];
      assert tries[..i + 1][..i] == tries[..i];
      i := i + 1;
    }
    assert counts[..i] == counts;
    assert tries[..i] == tries;
  }

  /**
   * What the program reports for a whole file: nothing for an empty file; otherwise the empty
   * word when the file opens with a non-letter (the first worker starts inside a word),
   * then every maximal run of letters, lower-cased, in file order.
   */
  function FileWords(bytes: seq<byte>): seq<string> {
    if bytes == [] then [] else Lead(bytes, true) + Runs(bytes)
  }

  /** A sound non-empty chunk reads exactly its own bytes. */
  lemma WindowOfChunk(bytes: seq<byte>, r: Range)
    requires Sound(bytes, r) && r.len > 0
    ensures Window(bytes, r.start, r.len) == bytes[r.start..End(r)]
    ensures HitsEnd(bytes, r.start, r.len) <==> End(r) == |bytes|
  {
  }

  /**
   * The words of one chunk of a plan: the lead of the first chunk, then the runs of its bytes;
   * a chunk that stops before the end of the file stops just after a non-letter, so it leaves
   * no word pending, and a later chunk starts on a letter, so it has no lead.
   */
  lemma {:induction false} ChunkWords(bytes: seq<byte>, r: Range, first: bool)
    requires Sound(bytes, r) && |bytes| > 0
    requires if first then r.start == 0 else WordStart(bytes, r.start)
    ensures Parsed(bytes, r.start, r.len) == (if first then Lead(bytes, true) else []) + Runs(bytes[r.start..End(r)])
  {
    WindowOfChunk(bytes, r);
    var s := bytes[r.start..End(r)];
    assert s[0] == bytes[r.start];
    if End(r) < |bytes| {
      assert s[|s| - 1] == bytes[End(r) - 1];
    }
  }

  /** The runs of the bytes before `e'` are those before the non-letter at `e - 1`, then the rest. */
  lemma {:induction false} SplitRuns(bytes: seq<byte>, e: int, e': int)
    requires 0 < e <= e' <= |bytes| && !IsAlpha(bytes[e - 1] as int)
    ensures Runs(bytes[..e']) == Runs(bytes[..e]) + Runs(bytes[e..e'])
  {
    assert bytes[..e'] == bytes[..e] + bytes[e..e'];
    assert bytes[..e][e - 1] == bytes[e - 1];
    RunsAppend(bytes[..e], bytes[e..e']);
  }

  /**
   * What a worker reports for the chunk `r` of a plan, in terms of the file: nothing for an
   * empty chunk; otherwise the file's lead when `r` is the first chunk, then the runs of
   * letters of the chunk's bytes.
   */
  function ChunkRuns(bytes: seq<byte>, r: Range, first: bool): seq<string>
    requires Inside(bytes, r)
  {
    if r.len == 0 then []
    else if first then Lead(bytes, true) + Runs(bytes[r.start..End(r)])
    else Runs(bytes[r.start..End(r)])
  }

  /** A chunk whose bytes lie in the file. */
  predicate Inside(bytes: seq<byte>, r: Range) {
    0 <= r.start && 0 <= r.len && End(r) <= |bytes|
  }

  /** A chunk a worker may be given as the first chunk or a later one. */
  predicate Placed(bytes: seq<byte>, r: Range, first: bool) {
    Sound(bytes, r) && if first then r.start == 0 else WordStart(bytes, r.start)
  }

  /** The first `m` chunks of `plan` are chunks the workers may be given, in order. */
  predicate Chunked(bytes: seq<byte>, plan: seq<Range>, m: int) {
    0 <= m <= |plan| && forall j :: 0 <= j < m ==> Placed(bytes, plan[j], j == 0)
  }

  /** task on a placed chunk reports its ChunkRuns. */
  lemma ChunkReports(bytes: seq<byte>, r: Range, first: bool)
    requires Placed(bytes, r, first)
    ensures Parsed(bytes, r.start, r.len) == ChunkRuns(bytes, r, first)
  {
    if r.len > 0 {
      ChunkWords(bytes, r, first);
    }
  }

  /** The words the first `k` chunks of `plan` report, one chunk after the other. */
  function Gathered(bytes: seq<byte>, plan: seq<Range>, k: int): seq<string>
    requires 0 <= k <= |plan| && forall j :: 0 <= j < k ==> Inside(bytes, plan[j])
    decreases k
  {
    if k == 0 then [] else Gathered(bytes, plan, k - 1) + ChunkRuns(bytes, plan[k - 1], k == 1)
  }

  /** The first `m` chunks of `plan` are placed and each starts where the previous one ends. */
  predicate Contiguous(bytes: seq<byte>, plan: seq<Range>, m: int) {
    1 <= m && Chunked(bytes, plan, m) && forall k :: 1 <= k < m ==> Adjacent(plan, k)
  }

  /** A plan's chunks are placed and contiguous: the first starts the file, each later one a word. */
  lemma {:induction false} PlannedContiguous(bytes: seq<byte>, plan: seq<Range>, m: int, n: int, chunkSize: int)
    requires Planned(bytes, plan, m, n, chunkSize)
    ensures Contiguous(bytes, plan, m)
  {
    forall j | 0 <= j < m
      ensures Placed(bytes, plan[j], j == 0)
    {
      assert Sound(bytes, plan[j]);
      if j > 0 {
        assert Adjacent(plan, j) && Sound(bytes, plan[j - 1]);
        assert End(plan[j - 1]) < |bytes|;
      }
    }
  }

  /** The words of the first `k` chunks are those of the first `k - 1`, then those of chunk `k - 1`. */
  lemma GatheredStep(bytes: seq<byte>, plan: seq<Range>, k: int, w: seq<string>, p: seq<string>)
    requires 1 <= k <= |plan| && forall j :: 0 <= j < k ==> Inside(bytes, plan[j])
    requires Gathered(bytes, plan, k - 1) == w && ChunkRuns(bytes, plan[k - 1], k == 1) == p
    ensures Gathered(bytes, plan, k) == w + p
  {
  }

  /** The runs before a non-letter at `e - 1`, then the runs from `e` to `e'`, are the runs before `e'`. */
  lemma RunsStep(bytes: seq<byte>, lead: seq<string>, e: int, e': int)
    requires 0 < e <= e' <= |bytes| && !IsAlpha(bytes[e - 1] as int)
    ensures (lead + Runs(bytes[..e])) + Runs(bytes[e..e']) == lead + Runs(bytes[..e'])
  {
    SplitRuns(bytes, e, e');
    AppendAssoc(lead, Runs(bytes[..e]), Runs(bytes[e..e']));
  }

  /** The first chunk of a plan of a non-empty file reports the lead, then the runs of its bytes. */
  lemma {:induction false} GatheredFirst(bytes: seq<byte>, plan: seq<Range>)
    requires 1 <= |plan| && Placed(bytes, plan[0], true) && |bytes| > 0
    ensures Gathered(bytes, plan, 1) == Lead(bytes, true) + Runs(bytes[..End(plan[0])])
  {
    var e := End(plan[0]);
    var p := Lead(bytes, true) + Runs(bytes[..e]);
    assert bytes[plan[0].start..e] == bytes[..e];
    GatheredStep(bytes, plan, 1, [], p);
    AppendEmpty(p);
  }

  /** A chunk that starts at the word start `e` reports the runs of its own bytes, and the byte before it is not a letter. */
  lemma LaterRuns(bytes: seq<byte>, r: Range, e: int)
    requires Placed(bytes, r, false) && r.start == e
    ensures 0 < e <= End(r) <= |bytes| && !IsAlpha(bytes[e - 1] as int)
    ensures ChunkRuns(bytes, r, false) == Runs(bytes[e..End(r)])
  {
  }

  /** Each later chunk of a plan extends the runs so far with those of its own bytes. */
  lemma {:induction false} GatheredNext(bytes: seq<byte>, plan: seq<Range>, k: int, w: seq<string>)
    requires Contiguous(bytes, plan, k) && 2 <= k
    requires Gathered(bytes, plan, k - 1) == w && w == Lead(bytes, true) + Runs(bytes[..End(plan[k - 2])])
    ensures Gathered(bytes, plan, k) == Lead(bytes, true) + Runs(bytes[..End(plan[k - 1])])
  {
    var r, e := plan[k - 1], End(plan[k - 2]);
    assert Placed(bytes, r, false) && Adjacent(plan, k - 1);
    LaterRuns(bytes, r, e);
    GatheredStep(bytes, plan, k, w, Runs(bytes[e..End(r)]));
    RunsStep(bytes, Lead(bytes, true), e, End(r));
  }

  /** The first `k` chunks of a plan report the lead, then the runs of the bytes they cover. */
  lemma {:induction false} GatheredPrefix(bytes: seq<byte>, plan: seq<Range>, k: int)
    requires Contiguous(bytes, plan, k) && |bytes| > 0
    ensures Gathered(bytes, plan, k) == Lead(bytes, true) + Runs(bytes[..End(plan[k - 1])])
    decreases k
  {
    if k == 1 {
      assert Placed(bytes, plan[0], true);
      GatheredFirst(bytes, plan);
    } else {
      GatheredPrefix(bytes, plan, k - 1);
      GatheredNext(bytes, plan, k, Gathered(bytes, plan, k - 1));
    }
  }

  /** Chunks of no bytes report nothing. */
  lemma {:induction false} GatheredNone(bytes: seq<byte>, plan: seq<Range>, k: int)
    requires 0 <= k <= |plan| && forall j :: 0 <= j < k ==> Inside(bytes, plan[j]) && plan[j].len == 0
    ensures Gathered(bytes, plan, k) == []
    decreases k
  {
    if k > 0 {
      GatheredNone(bytes, plan, k - 1);
      GatheredStep(bytes, plan, k, [], []);
    }
  }

  /** Every chunk of a plan of an empty file is empty. */
  lemma {:induction false} EmptyPlan(bytes: seq<byte>, plan: seq<Range>, m: int)
    requires Contiguous(bytes, plan, m) && |bytes| == 0
    ensures forall j :: 0 <= j < m ==> Inside(bytes, plan[j]) && plan[j].len == 0
  {
    forall j | 0 <= j < m
      ensures Inside(bytes, plan[j]) && plan[j].len == 0
    {
      assert Placed(bytes, plan[j], j == 0);
    }
  }

  /** A contiguous plan that ends the file reports exactly the file's words. */
  lemma {:induction false} GatheredWhole(bytes: seq<byte>, plan: seq<Range>, m: int)
    requires Contiguous(bytes, plan, m) && End(plan[m - 1]) == |bytes|
    ensures Gathered(bytes, plan, m) == FileWords(bytes)
  {
    if |bytes| > 0 {
      GatheredPrefix(bytes, plan, m);
      assert bytes[..|bytes|] == bytes;
    } else {
      EmptyPlan(bytes, plan, m);
      GatheredNone(bytes, plan, m);
    }
  }

  /** Another worker's words and trie extend the running tallies. */
  lemma PoolSnoc(tries: seq<Trie>, t: Trie, w: seq<string>, p: seq<string>, u: string)
    requires Pool(tries, u) == Tally(w, u) && Get(t.Contents, u) == Tally(p, u)
    ensures Pool(tries + [t], u) == Tally(w + p, u)
  {
    assert (tries + [t])[..|tries|] == tries;
    TallyAppend(w, p, u);
  }

  /** The tallies of the first `i` workers, extended with worker `i`'s, are those of the first `i + 1` chunks. */
  lemma MapStep(bytes: seq<byte>, plan: seq<Range>, i: int, tries: seq<Trie>, counts: seq<int>, t: Trie, wordCount: int)
    requires 0 <= i < |plan| && forall j :: 0 <= j <= i ==> Inside(bytes, plan[j])
    requires Sum(counts) == |Gathered(bytes, plan, i)|
    requires forall u :: Pool(tries, u) == Tally(Gathered(bytes, plan, i), u)
    requires wordCount == |ChunkRuns(bytes, plan[i], i == 0)|
    requires forall u :: Get(t.Contents, u) == Tally(ChunkRuns(bytes, plan[i], i == 0), u)
    ensures Sum(counts + [wordCount]) == |Gathered(bytes, plan, i + 1)|
    ensures forall u :: Pool(tries + [t], u) == Tally(Gathered(bytes, plan, i + 1), u)
  {
    var w, p := Gathered(bytes, plan, i), ChunkRuns(bytes, plan[i], i == 0);
    assert Gathered(bytes, plan, i + 1) == w + p;
    forall u ensures Pool(tries + [t], u) == Tally(w + p, u) {
      PoolSnoc(tries, t, w, p, u);
    }
    assert (counts + [wordCount])[..|counts|] == counts;
  }

  /** One worker on the chunk `r`: a fresh, empty trie for the chunk, then task on it. */
  method MapChunk(bytes: seq<byte>, r: Range, first: bool) returns (t: Trie, wordCount: int)
    requires Placed(bytes, r, first)
    ensures fresh(t) && t.Valid()
    ensures wordCount == |ChunkRuns(bytes, r, first)|
    ensures forall u :: Get(t.Contents, u) == Tally(ChunkRuns(bytes, r, first), u)
  {
    t := new Trie();
    wordCount := Task(bytes, r.start, r.len, t);
    ChunkReports(bytes, r, first);
  }

  /** One more worker, on chunk `i` of the plan, after the first `i` have run. */
  method MapNext(bytes: seq<byte>, plan: seq<Range>, m: int, i: int, tries: seq<Trie>, counts: seq<int>)
    returns (tries': seq<Trie>, counts': seq<int>)
    requires Chunked(bytes, plan, m) && 0 <= i < m && |tries| == i && |counts| == i
    requires forall k :: 0 <= k < i ==> tries[k].Valid()
    requires Sum(counts) == |Gathered(bytes, plan, i)|
    requires forall u :: Pool(tries, u) == Tally(Gathered(bytes, plan, i), u)
    ensures |tries'| == i + 1 && |counts'| == i + 1
    ensures forall k :: 0 <= k < i + 1 ==> tries'[k].Valid()
    ensures Sum(counts') == |Gathered(bytes, plan, i + 1)|
    ensures forall u :: Pool(tries', u) == Tally(Gathered(bytes, plan, i + 1), u)
  {
    assert Placed(bytes, plan[i], i == 0);
    var t, wordCount := MapChunk(bytes, plan[i], i == 0);
    MapStep(bytes, plan, i, tries, counts, t, wordCount);
    tries', counts' := tries + [t], counts + [wordCount];
  }

  /** The map step: one worker per chunk of the plan, each on its own trie, in plan order. */
  method MapAll(bytes: seq<byte>, plan: seq<Range>, m: int) returns (tries: seq<Trie>, counts: seq<int>)
    requires Chunked(bytes, plan, m)
    ensures |tries| == m && |counts| == m
    ensures forall k :: 0 <= k < m ==> tries[k].Valid()
    ensures Sum(counts) == |Gathered(bytes, plan, m)|
    ensures forall u :: Pool(tries, u) == Tally(Gathered(bytes, plan, m), u)
  {
    tries, counts := [], [];
    var i := 0;
    while i < m
      invariant 0 <= i <= m && |tries| == i && |counts| == i
      invariant forall k :: 0 <= k < i ==> tries[k].Valid()
      invariant Sum(counts) == |Gathered(bytes, plan, i)|
      invariant forall u :: Pool(tries, u) == Tally(Gathered(bytes, plan, i), u)
    {
      tries, counts := MapNext(bytes, plan, m, i, tries, counts);
      i := i + 1;
    }
  }

  /**
   * The set-up of main for `n` threads, none of which fails to open the file: the naive chunk
   * size, the zeroed chunk table, then prepare_chunks. The `m` chunks it keeps start inside the
   * file and together report the file's words.
   */
  method Plan(bytes: seq<byte>, n: int) returns (plan: seq<Range>, m: int)
    requires 1 <= n
    ensures 1 <= m <= n == |plan|
    ensures Chunked(bytes, plan, m)
    ensures Gathered(bytes, plan, m) == FileWords(bytes)
  {
    var chunkSize := ChunkSize(|bytes|, n);
    var chunks := new Range[n](_ => Range(0, 0));
    m := PrepareChunks(bytes, chunks, n, chunkSize);
    plan := chunks[..];
    assert Planned(bytes, plan, m, n, chunkSize);
    PlannedContiguous(bytes, plan, m, n, chunkSize);
    GatheredWhole(bytes, plan, m);
  }

  /**
   * `out` is what print_tree prints for a trie holding the words `words`: each non-empty word
   * with its number of occurrences, each once, in strictly increasing order.
   */
  ghost predicate Report(words: seq<string>, out: seq<(string, nat)>) {
    && Ordered(out)
    && (forall k :: 0 <= k < |out| ==> out[k].1 == Tally(words, out[k].0) > 0)
    && (forall u :: Tally(words, u) > 0 ==> (u, Tally(words, u)) in out)
  }

  /**
   * The report is determined by the words alone: two runs on the same file, whatever their
   * thread counts, print the same lines in the same order.
   */
  lemma ReportDetermined(words: seq<string>, a: seq<(string, nat)>, b: seq<(string, nat)>)
    requires Report(words, a) && Report(words, b)
    ensures a == b
  {
    forall x | x in a
      ensures x in b
    {
      var k :| 0 <= k < |a| && a[k] == x;
    }
    forall x | x in b
      ensures x in a
    {
      var k :| 0 <= k < |b| && b[k] == x;
    }
    OrderedUnique(a, b);
  }

  /**
   * The whole program on a file holding `bytes` with `n` threads asked for, none of which
   * fails to open the file or to start: the plan, one task per chunk on a fresh trie, the
   * reduce, then print_tree on the result. The total is the number of words reported, the
   * root counts each non-empty word as often as it occurs in the file, and the printed lines
   * are those words with their counts, each once, in increasing order.
   */
  method WordCount(bytes: seq<byte>, n: int) returns (root: Trie, total: int, out: seq<(string, nat)>)
    requires 1 <= n
    ensures root.Valid()
    ensures total == |FileWords(bytes)|
    ensures forall u :: Get(root.Contents, u) == Tally(FileWords(bytes), u)
    ensures Report(FileWords(bytes), out)
  {
    var plan, m := Plan(bytes, n);
    var tries, counts := MapAll(bytes, plan, m);
    root, total := Reduce(tries, counts);
    out := root.PrintTree();
  }

  /**
   * In the final trie of a file, a proper prefix of one of its words that is not itself a
   * word has an entry of its own, with count 0 (insert_word created it on the way down).
   */
  lemma PrefixNotWord(root: Trie, words: seq<string>, w: string, k: nat)
    requires root.Valid() && forall u :: Get(root.Contents, u) == Tally(words, u)
    requires Tally(words, w) > 0 && 0 < k <= |w| && Tally(words, w[..k]) == 0
    ensures w[..k] in root.Contents && root.Contents[w[..k]] == 0
  {
    assert Get(root.Contents, w) > 0;
    root.PrefixEntry(w, k);
  }
}
