/**
 * The map step of main.c: `task`, which one worker runs over its chunk, reading it byte by
 * byte, cutting it into words and inserting each word into the chunk's own trie.
 */
module Worker {
  import opened Ascii
  import opened Words
  import opened TreeLib

  /** The bytes a worker given `len` bytes from offset `start` reads: never past the end of the file. */
  function Window(bytes: seq<byte>, start: int, len: int): (s: seq<byte>)
    requires 0 <= start
    ensures |s| == if start >= |bytes| || len <= 0 then 0 else if start + len < |bytes| then len else |bytes| - start
  {
    if start >= |bytes| || len <= 0 then [] else bytes[start..if start + len < |bytes| then start + len else |bytes|]
  }

  /** The worker's loop stops on end of file rather than on its byte budget. */
  predicate HitsEnd(bytes: seq<byte>, start: int, len: int)
    requires 0 <= start
  {
    start + |Window(bytes, start, len)| >= |bytes|
  }

  /**
   * The words `task` reports for the chunk `(start, len)`, in the order it inserts them: none for
   * an empty chunk; otherwise the lead "" when the chunk opens with a non-letter, then the
   * runs of letters it reads, the last one only when that run reaches the end of the file.
   */
  function Parsed(bytes: seq<byte>, start: int, len: int): seq<string>
    requires 0 <= start
  {
    if len == 0 then []
    else
      var s := Window(bytes, start, len);
      var eof := HitsEnd(bytes, start, len);
      Lead(s, eof) + Runs(if eof then s else Settled(s))
  }

  /** The bytes from `start` on, up to `n` of them: what the worker has read after `n` steps. */
  lemma WindowIs(bytes: seq<byte>, start: int, len: int, s: seq<byte>)
    requires 0 <= start
    requires |s| == if start >= |bytes| || len <= 0 then 0 else if start + len < |bytes| then len else |bytes| - start
    requires forall j :: 0 <= j < |s| ==> s[j] == bytes[start + j]
    ensures s == Window(bytes, start, len)
  {
  }

  /**
   * Parsed in the worker's own terms: what it reported while reading its window, then the
   * pending word if it hit the end of the file inside a word.
   */
  lemma ParsedScan(bytes: seq<byte>, start: int, len: int)
    requires 0 <= start && len != 0
    ensures var s := Window(bytes, start, len);
      Parsed(bytes, start, len) == Scanned(s) + (if HitsEnd(bytes, start, len) && InWord(s) then [LowerWord(Pending(s))] else [])
  {
    var s := Window(bytes, start, len);
    ScannedRuns(s);
    if HitsEnd(bytes, start, len) {
      ScanEnd(s);
    }
  }

  /**
   * One byte `b` read after `s`: whether the worker is then inside a word, the word it is
   * building, and what it has reported.
   */
  lemma Step(s: seq<byte>, b: byte)
    ensures InWord(s + [b]) <==> IsAlpha(b as int)
    ensures LowerWord(Pending(s + [b])) ==
      if !IsAlpha(b as int) then [] else if InWord(s) then LowerWord(Pending(s)) + [Lower(b as int)] else [Lower(b as int)]
    ensures Scanned(s + [b]) == Scanned(s) + (if !IsAlpha(b as int) && InWord(s) then [LowerWord(Pending(s))] else [])
  {
    PendingStep(s, b);
    ScannedStep(s, b);
    if IsAlpha(b as int) {
      LowerWordSnoc(Pending(s), b);
      if !InWord(s) {
        assert Pending(s) == [];
      }
    }
  }

  /**
   * Where the worker's loop stops, what it has reported, plus the pending word when it stopped
   * on end of file inside a word, is the chunk's Parsed list.
   */
  lemma Finish(bytes: seq<byte>, start: int, len: int, s: seq<byte>, c: int, emitted: seq<string>)
    requires 0 <= start && len != 0
    requires |s| == 0 || (|s| <= len && start + |s| <= |bytes|)
    requires forall j :: 0 <= j < |s| ==> s[j] == bytes[start + j]
    requires c == Getc(bytes, start + |s|) && (c == EOF || |s| >= len)
    requires emitted == Scanned(s)
    ensures emitted + (if c == EOF && InWord(s) then [LowerWord(Pending(s))] else []) == Parsed(bytes, start, len)
  {
    WindowIs(bytes, start, len, s);
    assert c == EOF <==> HitsEnd(bytes, start, len);
    ParsedScan(bytes, start, len);
  }

  /** Counting `word` once more in `root`, which holds `C0` plus the words `emitted` so far. */
  method Record(root: Trie, word: string, ghost C0: map<string, nat>, ghost emitted: seq<string>)
    requires root.Valid()
    requires forall u :: Get(root.Contents, u) == Get(C0, u) + Tally(emitted, u)
    modifies root
    ensures root.Valid()
    ensures forall u :: Get(root.Contents, u) == Get(C0, u) + Tally(emitted + [word], u)
  {
    root.InsertWord(word);
    forall u ensures Get(root.Contents, u) == Get(C0, u) + Tally(emitted + [word], u) {
      TallySnoc(emitted, word, u);
    }
  }

  /** What the worker holds after reading `s`: the words it reported, the word it is building, whether it is inside one. */
  ghost predicate Scanning(s: seq<byte>, emitted: seq<string>, word: string, inWord: bool) {
    emitted == Scanned(s) && word == LowerWord(Pending(s)) && (inWord <==> InWord(s))
  }

  /**
   * The body of task's loop, for the byte `c` read after `s`: extends or ends the word being
   * built, and on the end of a word counts it and inserts it into `root`.
   */
  method Consume(root: Trie, c: int, inWord: bool, word: string, wordCount: int,
                 ghost s: seq<byte>, ghost C0: map<string, nat>, ghost emitted: seq<string>)
    returns (inWord': bool, word': string, wordCount': int, ghost emitted': seq<string>)
    requires 0 <= c < 256 && root.Valid()
    requires Scanning(s, emitted, word, inWord) && wordCount == |emitted|
    requires forall u :: Get(root.Contents, u) == Get(C0, u) + Tally(emitted, u)
    modifies root
    ensures root.Valid()
    ensures Scanning(s + [c as byte], emitted', word', inWord') && wordCount' == |emitted'|
    ensures forall u :: Get(root.Contents, u) == Get(C0, u) + Tally(emitted', u)
  {
    Step(s, c as byte);
    inWord', word', wordCount', emitted' := inWord, word, wordCount, emitted;
    if inWord { // already in the middle of a word
      if IsAlpha(c) {
        word' := word + [Lower(c)];
      } else { // non alphabetic, so end of a word
        inWord' := false;
        wordCount' := wordCount + 1;
        Record(root, word, C0, emitted);
        emitted' := emitted + [word];
        word' := [];
      }
    } else {
      if IsAlpha(c) {
        inWord' := true;
        word' := [Lower(c)];
      }
    }
  }

  /**
   * The end of task, once its loop has stopped after reading `s`, on the byte `c` after it:
   * on end of file inside a word, that word is counted and inserted as well.
   */
  method Flush(bytes: seq<byte>, start: int, len: int, root: Trie, c: int, inWord: bool, word: string, wordCount: int,
               ghost s: seq<byte>, ghost C0: map<string, nat>, ghost emitted: seq<string>)
    returns (wordCount': int)
    requires 0 <= start && len != 0 && root.Valid()
    requires |s| == 0 || (|s| <= len && start + |s| <= |bytes|)
    requires forall j :: 0 <= j < |s| ==> s[j] == bytes[start + j]
    requires c == Getc(bytes, start + |s|) && (c == EOF || |s| >= len)
    requires Scanning(s, emitted, word, inWord) && wordCount == |emitted|
    requires forall u :: Get(root.Contents, u) == Get(C0, u) + Tally(emitted, u)
    modifies root
    ensures root.Valid()
    ensures wordCount' == |Parsed(bytes, start, len)|
    ensures forall u :: Get(root.Contents, u) == Get(C0, u) + Tally(Parsed(bytes, start, len), u)
  {
    Finish(bytes, start, len, s, c, emitted);
    ghost var parsed := emitted + (if c == EOF && inWord then [word] else []);
    assert parsed == Parsed(bytes, start, len);
    wordCount' := wordCount;
    if c == EOF && inWord { // one new word on end of file
      wordCount' := wordCount + 1;
      Record(root, word, C0, emitted);
    } else {
      assert parsed == emitted;
    }
  }

  /**
   * task on the chunk `(start, len)` of a file holding `bytes`, with the chunk's trie `root`:
   * returns the chunk's word count, the number of words it reported, and inserts each of
   * them into `root`; an empty chunk reports nothing and leaves `root` as it was.
   */
  method Task(bytes: seq<byte>, start: int, len: int, root: Trie) returns (wordCount: int)
    requires 0 <= start && root.Valid()
    modifies root
    ensures root.Valid()
    ensures wordCount == |Parsed(bytes, start, len)|
    ensures forall u :: Get(root.Contents, u) == Get(old(root.Contents), u) + Tally(Parsed(bytes, start, len), u)
    ensures len == 0 ==> unchanged(root)
  {
    var count := 0;
    var inWord := true;
    var word: string := [];
    wordCount := 0;
    if len == 0 {
      return;
    }
    ghost var C0 := root.Contents;
    ghost var emitted: seq<string> := [];
    ghost var s: seq<byte> := [];
    var c := Getc(bytes, start);
    while c != EOF && count < len
      invariant 0 <= count && (count == 0 || (count <= len && start + count <= |bytes|))
      invariant c == Getc(bytes, start + count)
      invariant root.Valid()
      invariant |s| == count && forall j :: 0 <= j < count ==> s[j] == bytes[start + j]
      invariant Scanning(s, emitted, word, inWord)
      invariant wordCount == |emitted|
      invariant forall u :: Get(root.Contents, u) == Get(C0, u) + Tally(emitted, u)
      decreases len - count
    {
      ghost var b := bytes[start + count];
      inWord, word, wordCount, emitted := Consume(root, c, inWord, word, wordCount, s, C0, emitted);
      s := s + [b];
      count := count + 1;
      c := Getc(bytes, start + count);
    }
    wordCount := Flush(bytes, start, len, root, c, inWord, word, wordCount, s, C0, emitted);
  }
}
