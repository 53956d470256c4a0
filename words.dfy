/**
 * What a worker reads out of its part of the file: the maximal runs of letters, lower-cased.
 * These definitions are the reference the worker loop of main.c is proved against.
 */
module Words {
  import opened Ascii

  /** `tolower` over a run of letters. */
  function LowerWord(s: seq<byte>): (w: string)
    requires forall j :: 0 <= j < |s| ==> IsAlpha(s[j] as int)
    ensures |w| == |s|
    ensures forall j :: 0 <= j < |s| ==> w[j] == Lower(s[j] as int)
  {
    if s == [] then [] else LowerWord(s[..|s| - 1]) + [Lower(s[|s| - 1] as int)]
  }

  /** The number of letters `s` starts with. */
  function AlphaLen(s: seq<byte>): (k: nat)
    ensures k <= |s|
  {
    if s == [] || !IsAlpha(s[0] as int) then 0 else 1 + AlphaLen(s[1..])
  }

  /** AlphaLen measures a maximal run: letters up to it, a non-letter (or the end) at it. */
  lemma {:induction false} AlphaLenRun(s: seq<byte>)
    ensures forall j :: 0 <= j < AlphaLen(s) ==> IsAlpha(s[j] as int)
    ensures AlphaLen(s) < |s| ==> !IsAlpha(s[AlphaLen(s)] as int)
    decreases |s|
  {
    if s != [] && IsAlpha(s[0] as int) {
      AlphaLenRun(s[1..]);
    }
  }

  /** The maximal runs of letters in `s`, left to right and lower-cased, one word per run. */
  function Runs(s: seq<byte>): seq<string>
    decreases |s|
  {
    if s == [] then []
    else if !IsAlpha(s[0] as int) then Runs(s[1..])
    else
      var k := AlphaLen(s);
      AlphaLenRun(s);
      [LowerWord(s[..k])] + Runs(s[k..])
  }

  /** The letters at the end of `s`: a word still being read when `s` stops. */
  function Pending(s: seq<byte>): (p: seq<byte>)
    ensures forall j :: 0 <= j < |p| ==> IsAlpha(p[j] as int)
    ensures p == [] <==> s == [] || !IsAlpha(s[|s| - 1] as int)
    decreases |s|
  {
    if s == [] || !IsAlpha(s[|s| - 1] as int) then [] else Pending(s[..|s| - 1]) + [s[|s| - 1]]
  }

  /** `s` without the letters at its end: it is empty or ends with a non-letter. */
  function Settled(s: seq<byte>): (t: seq<byte>)
    ensures t + Pending(s) == s
    ensures t == [] || !IsAlpha(t[|t| - 1] as int)
    decreases |s|
  {
    if s == [] || !IsAlpha(s[|s| - 1] as int) then s
    else
      assert s == s[..|s| - 1] + [s[|s| - 1]];
      Settled(s[..|s| - 1])
  }

  /**
   * The empty word a worker reports first: its state starts "inside a word" with nothing read,
   * so a chunk opening with a non-letter, or an empty chunk that hits the end of the file,
   * reports "".
   */
  function Lead(s: seq<byte>, eof: bool): seq<string> {
    if s == [] then (if eof then [""] else [])
    else if !IsAlpha(s[0] as int) then [""]
    else []
  }

  /** Whether a worker that has read `s` is inside a word (it starts out inside an empty one). */
  predicate InWord(s: seq<byte>) {
    s == [] || IsAlpha(s[|s| - 1] as int)
  }

  /**
   * The words a worker has reported after reading `s`, byte by byte: a non-letter read
   * inside a word reports the word pending before it.
   */
  function Scanned(s: seq<byte>): seq<string>
    decreases |s|
  {
    if s == [] then []
    else
      var r, b := s[..|s| - 1], s[|s| - 1];
      Scanned(r) + (if !IsAlpha(b as int) && InWord(r) then [LowerWord(Pending(r))] else [])
  }

  /** How often `u` occurs in `ws`, counting only non-empty words (the trie ignores ""). */
  function Tally(ws: seq<string>, u: string): nat
    decreases |ws|
  {
    if ws == [] then 0
    else Tally(ws[..|ws| - 1], u) + (if ws[|ws| - 1] == u && u != [] then 1 else 0)
  }

  /** One more reported word adds one to its own tally, unless it is the empty word. */
  lemma TallySnoc(ws: seq<string>, w: string, u: string)
    ensures Tally(ws + [w], u) == Tally(ws, u) + (if u == w && w != [] then 1 else 0)
  {
    assert (ws + [w])[..|ws|] == ws;
  }

  /** The tally of two lists run one after the other is the sum of their tallies. */
  lemma {:induction false} TallyAppend(a: seq<string>, b: seq<string>, u: string)
    ensures Tally(a + b, u) == Tally(a, u) + Tally(b, u)
    decreases |b|
  {
    if b == [] {
      assert a + b == a;
    } else {
      var r := b[..|b| - 1];
      assert (a + b)[..|a + b| - 1] == a + r;
      assert (a + b)[|a + b| - 1] == b[|b| - 1];
      TallyAppend(a, r, u);
    }
  }

  /** Tally is the multiplicity of `u` in the multiset of `ws`, for every non-empty `u`. */
  lemma {:induction false} TallyIsMultiplicity(ws: seq<string>, u: string)
    ensures Tally(ws, u) == if u == [] then 0 else multiset(ws)[u]
    decreases |ws|
  {
    if ws != [] {
      var r := ws[..|ws| - 1];
      assert ws == r + [ws[|ws| - 1]];
      assert multiset(ws) == multiset(r) + multiset{ws[|ws| - 1]};
      TallyIsMultiplicity(r, u);
    }
  }

  /** Every run is a non-empty word of lower-case letters. */
  lemma {:induction false} RunsAreWords(s: seq<byte>)
    ensures forall w :: w in Runs(s) ==> w != [] && forall j :: 0 <= j < |w| ==> IsLowerLetter(w[j])
    decreases |s|
  {
    if s != [] {
      if !IsAlpha(s[0] as int) {
        RunsAreWords(s[1..]);
      } else {
        RunsAreWords(s[AlphaLen(s)..]);
      }
    }
  }

  /** Cutting `a + c` where `a` ends with a non-letter splits no word. */
  lemma {:induction false} RunsAppend(a: seq<byte>, c: seq<byte>)
    requires a == [] || !IsAlpha(a[|a| - 1] as int)
    ensures Runs(a + c) == Runs(a) + Runs(c)
    decreases |a|
  {
    if a != [] {
      assert (a + c)[0] == a[0];
      if !IsAlpha(a[0] as int) {
        assert (a + c)[1..] == a[1..] + c;
        assert a[1..] == [] || a[1..][|a| - 2] == a[|a| - 1];
        RunsAppend(a[1..], c);
      } else {
        var k := AlphaLen(a);
        AlphaLenRun(a);
        AlphaLenLonger(a, c);
        assert a[k..][|a| - k - 1] == a[|a| - 1];
        assert (a + c)[..k] == a[..k];
        assert (a + c)[k..] == a[k..] + c;
        RunsAppend(a[k..], c);
      }
    } else {
      assert a + c == c;
    }
  }

  /** A run of letters is one word. */
  lemma {:induction false} RunsOfWord(s: seq<byte>)
    requires forall j :: 0 <= j < |s| ==> IsAlpha(s[j] as int)
    ensures Runs(s) == if s == [] then [] else [LowerWord(s)]
  {
    if s != [] {
      AlphaLenAll(s);
      assert s[..|s|] == s;
    }
  }

  lemma {:induction false} AlphaLenAll(s: seq<byte>)
    requires forall j :: 0 <= j < |s| ==> IsAlpha(s[j] as int)
    ensures AlphaLen(s) == |s|
    decreases |s|
  {
    if s != [] {
      AlphaLenAll(s[1..]);
    }
  }

  /** The runs of `s` are those of its settled part, then the pending word if there is one. */
  lemma RunsSplit(s: seq<byte>)
    ensures Runs(s) == Runs(Settled(s)) + (if Pending(s) == [] then [] else [LowerWord(Pending(s))])
  {
    RunsAppend(Settled(s), Pending(s));
    RunsOfWord(Pending(s));
  }

  /** Reading one more letter extends the pending word. */
  lemma TrailLetter(s: seq<byte>, b: byte)
    requires IsAlpha(b as int)
    ensures Settled(s + [b]) == Settled(s) && Pending(s + [b]) == Pending(s) + [b]
  {
    assert (s + [b])[..|s|] == s;
  }

  /** Reading a non-letter settles everything read so far and ends no new word. */
  lemma TrailOther(s: seq<byte>, b: byte)
    requires !IsAlpha(b as int)
    ensures Settled(s + [b]) == s + [b] && Pending(s + [b]) == []
  {
    assert (s + [b])[|s|] == b;
  }

  /** A non-letter at the end closes the last run without changing the runs. */
  lemma {:induction false} RunsOther(s: seq<byte>, b: byte)
    requires !IsAlpha(b as int)
    ensures Runs(s + [b]) == Runs(s)
    decreases |s|
  {
    if s == [] {
      assert [b][1..] == [];
    } else {
      assert (s + [b])[0] == s[0];
      if !IsAlpha(s[0] as int) {
        assert (s + [b])[1..] == s[1..] + [b];
        RunsOther(s[1..], b);
      } else {
        var k := AlphaLen(s);
        if k < |s| {
          AlphaLenLonger(s, [b]);
          assert (s + [b])[..k] == s[..k];
          assert (s + [b])[k..] == s[k..] + [b];
          RunsOther(s[k..], b);
        } else {
          assert (s + [b])[k] == b;
          AlphaLenRun(s);
          AlphaLenPrefix(s + [b], k);
          assert (s + [b])[..k] == s[..k];
          assert (s + [b])[k..] == [b] && [b][1..] == [];
        }
      }
    }
  }

  /** The leading letters are not changed by what follows a non-letter. */
  lemma {:induction false} AlphaLenLonger(a: seq<byte>, c: seq<byte>)
    requires AlphaLen(a) < |a|
    ensures AlphaLen(a + c) == AlphaLen(a)
    decreases |a|
  {
    assert (a + c)[0] == a[0];
    if IsAlpha(a[0] as int) {
      assert (a + c)[1..] == a[1..] + c;
      AlphaLenLonger(a[1..], c);
    }
  }

  lemma {:induction false} AlphaLenPrefix(s: seq<byte>, k: int)
    requires 0 <= k < |s| && !IsAlpha(s[k] as int)
    requires forall j :: 0 <= j < k ==> IsAlpha(s[j] as int)
    ensures AlphaLen(s) == k
    decreases k
  {
    if k > 0 {
      AlphaLenPrefix(s[1..], k - 1);
    }
  }

  lemma LowerWordSnoc(s: seq<byte>, b: byte)
    requires forall j :: 0 <= j < |s| ==> IsAlpha(s[j] as int)
    requires IsAlpha(b as int)
    ensures LowerWord(s + [b]) == LowerWord(s) + [Lower(b as int)]
  {
    var l, r := LowerWord(s + [b]), LowerWord(s) + [Lower(b as int)];
    assert |l| == |r|;
    forall j | 0 <= j < |l|
      ensures l[j] == r[j]
    {
      if j < |s| {
        assert (s + [b])[j] == s[j];
      }
    }
  }

  /** One byte read: a letter extends the pending word, a non-letter drops it. */
  lemma PendingStep(s: seq<byte>, b: byte)
    ensures IsAlpha(b as int) ==> Pending(s + [b]) == Pending(s) + [b] && InWord(s + [b])
    ensures !IsAlpha(b as int) ==> Pending(s + [b]) == [] && !InWord(s + [b])
  {
    if IsAlpha(b as int) {
      TrailLetter(s, b);
    } else {
      TrailOther(s, b);
    }
  }

  /** Reading one more byte reports the pending word exactly when a non-letter ends it. */
  lemma ScannedStep(s: seq<byte>, b: byte)
    ensures Scanned(s + [b]) == Scanned(s) + (if !IsAlpha(b as int) && InWord(s) then [LowerWord(Pending(s))] else [])
  {
    assert (s + [b])[..|s|] == s;
  }

  /** Concatenation is associative. */
  lemma AppendAssoc<T>(a: seq<T>, b: seq<T>, c: seq<T>)
    ensures (a + b) + c == a + (b + c)
  {
  }

  /** The empty sequence is a unit of concatenation. */
  lemma AppendEmpty<T>(p: seq<T>)
    ensures [] + p == p && p + [] == p
  {
  }

  /** A letter read after `r` extends the pending word: nothing new is reported and nothing settles. */
  lemma ScannedLetter(r: seq<byte>, b: byte)
    requires IsAlpha(b as int) && Scanned(r) == Lead(r, false) + Runs(Settled(r))
    ensures Scanned(r + [b]) == Lead(r + [b], false) + Runs(Settled(r + [b]))
  {
    ScannedStep(r, b);
    TrailLetter(r, b);
    AppendEmpty(Scanned(r));
    if r != [] {
      assert (r + [b])[0] == r[0];
    }
  }

  /** A non-letter read after `r` settles it, and reports the word pending in `r` if there is one. */
  lemma ScannedOther(r: seq<byte>, b: byte)
    requires !IsAlpha(b as int) && Scanned(r) == Lead(r, false) + Runs(Settled(r))
    ensures Scanned(r + [b]) == Lead(r + [b], false) + Runs(Settled(r + [b]))
  {
    var s := r + [b];
    ScannedStep(r, b);
    TrailOther(r, b);
    RunsOther(r, b);
    if r == [] {
      assert Lead(s, false) == [""] && Runs(s) == [];
      AppendEmpty([""]);
    } else {
      assert s[0] == r[0];
      RunsSplit(r);
      var x := if InWord(r) then [LowerWord(Pending(r))] else [];
      assert Scanned(s) == Scanned(r) + x;
      assert Runs(s) == Runs(Settled(r)) + x;
      AppendAssoc(Lead(r, false), Runs(Settled(r)), x);
    }
  }

  /**
   * What a worker has reported after reading `s` is the lead and then the runs of `s` that a
   * non-letter has closed.
   */
  lemma {:induction false} ScannedRuns(s: seq<byte>)
    ensures Scanned(s) == Lead(s, false) + Runs(Settled(s))
    decreases |s|
  {
    if s != [] {
      var r, b := s[..|s| - 1], s[|s| - 1];
      assert s == r + [b];
      ScannedRuns(r);
      if IsAlpha(b as int) {
        ScannedLetter(r, b);
      } else {
        ScannedOther(r, b);
      }
    }
  }

  /** At the end of the file the pending word is reported as well (the lead "" when nothing was read). */
  lemma ScanEnd(s: seq<byte>)
    ensures Lead(s, true) + Runs(s) == Scanned(s) + (if InWord(s) then [LowerWord(Pending(s))] else [])
  {
    ScannedRuns(s);
    RunsSplit(s);
    if s == [] {
      assert LowerWord(Pending(s)) == "";
    } else {
      var x := if InWord(s) then [LowerWord(Pending(s))] else [];
      assert Runs(s) == Runs(Settled(s)) + x;
      AppendAssoc(Lead(s, false), Runs(Settled(s)), x);
    }
  }
}
