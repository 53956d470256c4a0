/**
 * Cutting the input file into word-aligned chunks, one per worker (`find_next_starting_word`
 * and `prepare_chunks`).  The file is its sequence of bytes; a `FILE *` position is an index.
 */
module Chunks {
  import opened Ascii

  /** Position `j` starts a word: an alphabetic byte right after a non-alphabetic one. */
  predicate WordStart(bytes: seq<byte>, j: int) {
    0 < j < |bytes| && IsAlpha(bytes[j] as int) && !IsAlpha(bytes[j - 1] as int)
  }

  /**
   * find_next_starting_word on a file positioned at `p`: the position it leaves the file at.
   * The word under `p` is skipped, so the result is the first word start strictly after `p`,
   * or the end of the file when there is none; a position at or past the end stays put.
   */
  method FindNextStartingWord(bytes: seq<byte>, p: int) returns (q: int)
    requires 0 <= p
    ensures p >= |bytes| ==> q == p
    ensures p < |bytes| ==> p < q <= |bytes| && (q < |bytes| ==> WordStart(bytes, q))
    ensures forall j :: p < j < q ==> !WordStart(bytes, j)
  {
    var pos := p;
    var c := Getc(bytes, pos);
    if c != EOF {
      pos := pos + 1;
    }
    // jump over alphabetics
    while c != EOF && IsAlpha(c)
      invariant p <= pos
      invariant c != EOF ==> p < pos <= |bytes| && c == bytes[pos - 1] as int
      invariant c == EOF ==> (pos == p && p >= |bytes|) || (pos == |bytes| && p < |bytes|)
      invariant forall j :: p <= j < pos && j < |bytes| && (c == EOF || j < pos - 1) ==> IsAlpha(bytes[j] as int)
      decreases |bytes| - pos + (if c != EOF then 1 else 0)
    {
      c := Getc(bytes, pos);
      if c != EOF {
        pos := pos + 1;
      }
    }
    if c == EOF {
      return pos;
    }
    ghost var a := pos - 1;
    // jump over non-alphabetics
    c := Getc(bytes, pos);
    if c != EOF {
      pos := pos + 1;
    }
    while c != EOF && !IsAlpha(c)
      invariant a < pos <= |bytes|
      invariant c != EOF ==> a + 1 < pos && c == bytes[pos - 1] as int
      invariant c == EOF ==> pos == |bytes|
      invariant forall j :: a <= j < pos && (c == EOF || j < pos - 1) ==> !IsAlpha(bytes[j] as int)
      decreases |bytes| - pos + (if c != EOF then 1 else 0)
    {
      c := Getc(bytes, pos);
      if c != EOF {
        pos := pos + 1;
      }
    }
    if c != EOF {
      pos := pos - 1; // ungetc
    }
    q := pos;
  }

  /** The part of the file one worker parses: `len` bytes from offset `start` (two fields of struct chunk). */
  datatype Range = Range(start: int, len: int)

  /** Where a range stops. */
  function End(r: Range): int {
    r.start + r.len
  }

  /**
   * What prepare_chunks computes for the chunk `r` from its start: it stays inside the file,
   * and unless it starts past the end it is non-empty, reaches beyond the naive size
   * `chunkSize` and stops at the first word start after `r.start + chunkSize`, or at the end
   * of the file when there is none.
   */
  predicate Cuts(bytes: seq<byte>, chunkSize: int, r: Range) {
    && End(r) <= |bytes|
    && (r.start >= |bytes| ==> End(r) == |bytes|)
    && (r.start < |bytes| ==> r.start < End(r) && (End(r) < |bytes| ==> WordStart(bytes, End(r))))
    && (r.start < |bytes| ==> End(r) == |bytes| || End(r) > r.start + chunkSize)
    && (forall j :: r.start + chunkSize < j < End(r) ==> !WordStart(bytes, j))
  }

  /** A chunk's range is determined by where it starts. */
  lemma CutsDetermined(bytes: seq<byte>, chunkSize: int, r: Range, r': Range)
    requires r.start == r'.start && Cuts(bytes, chunkSize, r) && Cuts(bytes, chunkSize, r')
    ensures r == r'
  {
  }

  /** A chunk that does not start past the end stops at the first word start after its naive end. */
  lemma CutsAt(bytes: seq<byte>, chunkSize: int, r: Range, q: int)
    requires Cuts(bytes, chunkSize, r) && r.start < |bytes|
    requires r.start + chunkSize < q && WordStart(bytes, q)
    requires forall j :: r.start + chunkSize < j < q ==> !WordStart(bytes, j)
    ensures End(r) == q
  {
  }

  /** A chunk with no word start after its naive end stops at the end of the file. */
  lemma CutsToEnd(bytes: seq<byte>, chunkSize: int, r: Range)
    requires Cuts(bytes, chunkSize, r)
    requires forall j :: r.start + chunkSize < j < |bytes| ==> !WordStart(bytes, j)
    ensures End(r) == |bytes|
  {
  }

  /**
   * The steps prepare_chunks takes for each chunk: seek `chunkSize` bytes past `start`, move on
   * to the next word start, take the distance as the length, and clamp the range to the file.
   */
  method Cut(bytes: seq<byte>, start: int, chunkSize: int) returns (r: Range)
    requires 0 <= start && 0 <= chunkSize
    ensures r.start == start && Cuts(bytes, chunkSize, r)
  {
    var q := FindNextStartingWord(bytes, start + chunkSize);
    r := Range(start, q - start);
    if r.start + r.len >= |bytes| {
      r := Range(start, |bytes| - start);
    }
  }

  /** Chunk `k` of the plan starts where chunk `k - 1` ends. */
  predicate Adjacent(plan: seq<Range>, k: int) {
    0 < k < |plan| && plan[k].start == End(plan[k - 1])
  }

  /**
   * A chunk a worker may be given: inside the file, non-empty unless the file is, and ending
   * at a word start unless it ends the file.
   */
  predicate Sound(bytes: seq<byte>, r: Range) {
    && 0 <= r.start && 0 <= r.len && End(r) <= |bytes|
    && (|bytes| > 0 ==> r.len > 0)
    && (End(r) < |bytes| ==> WordStart(bytes, End(r)))
  }

  /** How far `i` naive chunks of `chunkSize` bytes reach when each is pushed past one more byte. */
  function Reach(i: nat, chunkSize: int): int {
    if i == 0 then 0 else Reach(i - 1, chunkSize) + chunkSize + 1
  }

  lemma {:induction false} ReachIsProduct(i: nat, chunkSize: int)
    ensures Reach(i, chunkSize) == i * (chunkSize + 1)
  {
    if i > 0 {
      ReachIsProduct(i - 1, chunkSize);
    }
  }

  /**
   * The state of prepare_chunks' loop: chunks `0 .. i-1` are computed and `m` is the thread
   * count so far; once it has been reduced, the slot at `m` holds the dropped chunk.  The
   * slots from `i` on still hold what they held in `init`.
   */
  ghost predicate Progress(bytes: seq<byte>, init: seq<Range>, plan: seq<Range>, i: int, m: int, n: int, chunkSize: int) {
    && 1 <= i <= m + 1 && 1 <= m <= n <= |plan| == |init|
    && (forall k :: i <= k < |plan| ==> plan[k] == init[k])
    && plan[0].start == 0
    && (forall k :: 1 <= k < i && k < m ==> Adjacent(plan, k))
    && (forall k :: 0 <= k < i && k < m ==> Sound(bytes, plan[k]))
    && (forall k :: 0 <= k < i && k < m ==> Cuts(bytes, chunkSize, plan[k]))
    && (forall k :: 0 <= k < i - 1 && k < m - 1 ==> End(plan[k]) < |bytes|)
    && (i <= m ==> End(plan[i - 1]) >= |bytes| || End(plan[i - 1]) >= Reach(i, chunkSize))
    && (m < n ==> End(plan[m - 1]) == |bytes| && (if m == 1 then i == 1 else i == m + 1 && plan[m].start == |bytes| && plan[m].len == 0))
    && (m == n ==> i <= m)
    && (m > 1 ==> End(plan[0]) < |bytes|)
  }

  /** After chunk 0, with the thread count cut to 1 when that chunk already reaches the end. */
  lemma FirstChunk(bytes: seq<byte>, init: seq<Range>, plan: seq<Range>, r: Range, m: int, n: int, chunkSize: int)
    requires 1 <= n <= |init| == |plan| && 0 <= chunkSize
    requires plan[0] == r && forall k :: 1 <= k < |plan| ==> plan[k] == init[k]
    requires r.start == 0 && Cuts(bytes, chunkSize, r)
    requires m == if End(r) >= |bytes| then 1 else n
    ensures Progress(bytes, init, plan, 1, m, n, chunkSize)
  {
    assert Sound(bytes, plan[0]) && Cuts(bytes, chunkSize, plan[0]);
    assert Reach(1, chunkSize) == chunkSize + 1;
    if End(r) >= |bytes| {
      assert m == 1 && End(plan[0]) == |bytes|;
    } else {
      assert m == n && End(plan[0]) > chunkSize;
    }
  }

  /** One turn of the loop: chunk `i` starts where chunk `i - 1` ends. */
  lemma {:induction false} NextChunk(bytes: seq<byte>, init: seq<Range>, plan: seq<Range>, i: int, m: int, n: int, chunkSize: int, r: Range, m': int)
    requires Progress(bytes, init, plan, i, m, n, chunkSize) && i < m && 0 <= chunkSize
    requires r.start == End(plan[i - 1]) && Cuts(bytes, chunkSize, r)
    requires m' == if End(plan[i - 1]) >= |bytes| then i else m
    ensures Progress(bytes, init, plan[i := r], i + 1, m', n, chunkSize)
  {
    var plan' := plan[i := r];
    forall k | 1 <= k < i + 1 && k < m'
      ensures Adjacent(plan', k)
    {
      if k < i {
        assert Adjacent(plan, k);
      }
    }
    forall k | 0 <= k < i + 1 && k < m'
      ensures Sound(bytes, plan'[k]) && Cuts(bytes, chunkSize, plan'[k])
    {
      if k < i {
        assert Sound(bytes, plan[k]) && Cuts(bytes, chunkSize, plan[k]);
      }
    }
  }

  /**
   * The plan prepare_chunks promises in `plan[..m]` for `n` requested workers: `1 <= m <= n`
   * chunks that start at offset 0, follow each other, are sound, are each cut as `Cuts` says,
   * and all but the last end before the end of the file.  The last one ends the file when the thread count was reduced
   * and whenever `n` naive chunks of `chunkSize` bytes cover it; a reduction after chunk 0
   * leaves the dropped chunk `(size, 0)` in slot `m`.
   */
  ghost predicate Planned(bytes: seq<byte>, plan: seq<Range>, m: int, n: int, chunkSize: int) {
    && 1 <= m <= n <= |plan|
    && plan[0].start == 0
    && (forall k :: 1 <= k < m ==> Adjacent(plan, k))
    && (forall k :: 0 <= k < m ==> Sound(bytes, plan[k]))
    && (forall k :: 0 <= k < m ==> Cuts(bytes, chunkSize, plan[k]))
    && (forall k :: 0 <= k < m - 1 ==> End(plan[k]) < |bytes|)
    && (m < n || (chunkSize + 1) * n > |bytes| ==> End(plan[m - 1]) == |bytes|)
    && (2 <= m < n ==> plan[m].start == |bytes| && plan[m].len == 0)
  }

  /**
   * When the loop stops, the last chunk ends the file if the thread count was reduced, and also
   * if `n` naive chunks, each pushed past one more byte, reach beyond the file.
   */
  lemma LastEnds(bytes: seq<byte>, init: seq<Range>, plan: seq<Range>, i: int, m: int, n: int, chunkSize: int)
    requires Progress(bytes, init, plan, i, m, n, chunkSize) && i >= m
    ensures m < n || (chunkSize + 1) * n > |bytes| ==> End(plan[m - 1]) == |bytes|
  {
    ReachIsProduct(n, chunkSize);
    assert Sound(bytes, plan[m - 1]);
  }

  /** The loop of prepare_chunks stops with the plan it promises. */
  lemma LastChunk(bytes: seq<byte>, init: seq<Range>, plan: seq<Range>, i: int, m: int, n: int, chunkSize: int)
    requires Progress(bytes, init, plan, i, m, n, chunkSize) && i >= m
    ensures Planned(bytes, plan, m, n, chunkSize)
    ensures forall k :: (if 2 <= m < n then m + 1 else m) <= k < |plan| ==> plan[k] == init[k]
  {
    LastEnds(bytes, init, plan, i, m, n, chunkSize);
  }

  /** Two plans for the same file, worker count and chunk size agree up to chunk `k`. */
  lemma {:induction false} SameChunks(bytes: seq<byte>, plan: seq<Range>, m: int, plan': seq<Range>, m': int, n: int, chunkSize: int, k: int)
    requires Planned(bytes, plan, m, n, chunkSize) && Planned(bytes, plan', m', n, chunkSize)
    requires 0 <= k < m && k < m'
    ensures plan[k] == plan'[k]
    decreases k
  {
    if k > 0 {
      SameChunks(bytes, plan, m, plan', m', n, chunkSize, k - 1);
      assert Adjacent(plan, k) && Adjacent(plan', k);
    }
    assert Cuts(bytes, chunkSize, plan[k]) && Cuts(bytes, chunkSize, plan'[k]);
    CutsDetermined(bytes, chunkSize, plan[k], plan'[k]);
  }

  /** A plan for the same file, worker count and chunk size has at least as many chunks. */
  lemma NotLonger(bytes: seq<byte>, plan: seq<Range>, m: int, plan': seq<Range>, m': int, n: int, chunkSize: int)
    requires Planned(bytes, plan, m, n, chunkSize) && Planned(bytes, plan', m', n, chunkSize)
    ensures m <= m'
  {
    if m' < n && m' - 1 < m {
      SameChunks(bytes, plan, m, plan', m', n, chunkSize, m' - 1);
    }
  }

  /**
   * What prepare_chunks computes is determined by the file, the requested worker count and the
   * chunk size: the same thread count and the same chunks.
   */
  lemma PlanDetermined(bytes: seq<byte>, plan: seq<Range>, m: int, plan': seq<Range>, m': int, n: int, chunkSize: int)
    requires Planned(bytes, plan, m, n, chunkSize) && Planned(bytes, plan', m', n, chunkSize)
    ensures m == m' && plan[..m] == plan'[..m']
  {
    NotLonger(bytes, plan, m, plan', m', n, chunkSize);
    NotLonger(bytes, plan', m', plan, m, n, chunkSize);
    forall k | 0 <= k < m
      ensures plan[k] == plan'[k]
    {
      SameChunks(bytes, plan, m, plan', m', n, chunkSize, k);
    }
  }

  /** A kept chunk that ends before the end of the file is followed by another kept chunk, unless the workers run out. */
  lemma Followed(bytes: seq<byte>, plan: seq<Range>, m: int, n: int, chunkSize: int, k: int)
    requires Planned(bytes, plan, m, n, chunkSize) && 0 <= k < m && k + 1 < n && End(plan[k]) < |bytes|
    ensures k + 1 < m && plan[k + 1].start == End(plan[k])
  {
    assert k + 1 < m ==> Adjacent(plan, k + 1);
  }

  /** In a plan, a chunk ends before any later chunk starts. */
  lemma {:induction false} EndsBefore(bytes: seq<byte>, plan: seq<Range>, m: int, n: int, chunkSize: int, j: int, k: int)
    requires Planned(bytes, plan, m, n, chunkSize) && 0 <= j < k < m
    ensures End(plan[j]) <= plan[k].start
    decreases k - j
  {
    assert Adjacent(plan, k);
    if j + 1 < k {
      EndsBefore(bytes, plan, m, n, chunkSize, j, k - 1);
      assert Sound(bytes, plan[k - 1]);
    }
  }

  /** The chunk among the first `k + 1` that holds offset `p`, which lies before the end of chunk `k`. */
  lemma {:induction false} Locate(bytes: seq<byte>, plan: seq<Range>, m: int, n: int, chunkSize: int, k: int, p: int) returns (j: int)
    requires Planned(bytes, plan, m, n, chunkSize) && 0 <= k < m && 0 <= p < End(plan[k])
    ensures 0 <= j <= k && plan[j].start <= p < End(plan[j])
    decreases k
  {
    if p >= plan[k].start {
      j := k;
    } else {
      assert Adjacent(plan, k);
      j := Locate(bytes, plan, m, n, chunkSize, k - 1, p);
    }
  }

  /**
   * When the plan's last chunk ends the file, the chunks tile it: every byte lies in exactly
   * one chunk, so each byte is parsed by exactly one worker.
   */
  lemma Tiling(bytes: seq<byte>, plan: seq<Range>, m: int, n: int, chunkSize: int, p: int)
    requires Planned(bytes, plan, m, n, chunkSize) && End(plan[m - 1]) == |bytes| && 0 <= p < |bytes|
    ensures exists k :: 0 <= k < m && plan[k].start <= p < End(plan[k])
    ensures forall j, k :: 0 <= j < m && 0 <= k < m && plan[j].start <= p < End(plan[j]) && plan[k].start <= p < End(plan[k]) ==> j == k
  {
    var k := Locate(bytes, plan, m, n, chunkSize, m - 1, p);
    forall j, k | 0 <= j < m && 0 <= k < m && plan[j].start <= p < End(plan[j]) && plan[k].start <= p < End(plan[k])
      ensures j == k
    {
      if j < k {
        EndsBefore(bytes, plan, m, n, chunkSize, j, k);
      } else if k < j {
        EndsBefore(bytes, plan, m, n, chunkSize, k, j);
      }
    }
  }

  /** Chunk 0 starts at 0; the thread count drops to 1 when it already reaches the end of the file. */
  method PlanFirst(bytes: seq<byte>, chunks: array<Range>, n: int, chunkSize: int) returns (m: int)
    requires 1 <= n <= chunks.Length && 0 <= chunkSize
    modifies chunks
    ensures Progress(bytes, old(chunks[..]), chunks[..], 1, m, n, chunkSize)
  {
    ghost var init := chunks[..];
    var r := Cut(bytes, 0, chunkSize);
    m := if End(r) >= |bytes| then 1 else n;
    chunks[0] := r;
    FirstChunk(bytes, init, chunks[..], r, m, n, chunkSize);
  }

  /**
   * One turn of prepare_chunks' loop: chunk `i` starts where chunk `i - 1` ends, and the thread
   * count drops to `i` when that is at or past the end of the file.
   */
  method PlanNext(bytes: seq<byte>, chunks: array<Range>, i: int, m: int, n: int, chunkSize: int, ghost init: seq<Range>)
    returns (m': int)
    requires Progress(bytes, init, chunks[..], i, m, n, chunkSize) && i < m && 0 <= chunkSize
    modifies chunks
    ensures Progress(bytes, init, chunks[..], i + 1, m', n, chunkSize)
  {
    var start := chunks[i - 1].start + chunks[i - 1].len;
    m' := m;
    if start >= |bytes| {
      m' := i;
    }
    ghost var plan := chunks[..];
    chunks[i] := Cut(bytes, start, chunkSize);
    NextChunk(bytes, init, plan, i, m, n, chunkSize, chunks[i], m');
    assert chunks[..] == plan[i := chunks[i]];
  }

  /**
   * prepare_chunks on a file of `|bytes|` bytes, for `n` workers and a naive chunk size
   * `chunkSize`: fills `chunks[..m]` with the plan and returns the reduced worker count `m`;
   * the slots after the plan (and after the dropped chunk) keep their contents.
   */
  method PrepareChunks(bytes: seq<byte>, chunks: array<Range>, n: int, chunkSize: int) returns (m: int)
    requires 1 <= n <= chunks.Length && 0 <= chunkSize
    modifies chunks
    ensures Planned(bytes, chunks[..], m, n, chunkSize)
    ensures forall k :: (if 2 <= m < n then m + 1 else m) <= k < chunks.Length ==> chunks[k] == old(chunks[k])
  {
    ghost var init := chunks[..];
    m := PlanFirst(bytes, chunks, n, chunkSize);
    var i := 1;
    while i < m
      invariant Progress(bytes, init, chunks[..], i, m, n, chunkSize)
    {
      m := PlanNext(bytes, chunks, i, m, n, chunkSize, init);
      i := i + 1;
    }
    LastChunk(bytes, init, chunks[..], i, m, n, chunkSize);
    forall k | (if 2 <= m < n then m + 1 else m) <= k < chunks.Length
      ensures chunks[k] == old(chunks[k])
    {
      assert chunks[..][k] == init[k];
    }
  }
}
