/**
 * The example of treelib.h: the words a, a, at, ban. A file holding "a a at ban\n" makes the
 * program print a=2, at=1 and ban=1, in that order.
 */
module Example {
  import opened Ascii
  import opened Words
  import Lex
  import opened TreeLib
  import opened MapReduce
  import Chunks

  /** The bytes of "a a at ban\n". */
  function Sample(): seq<byte> {
    [97, 32, 97, 32, 97, 116, 32, 98, 97, 110, 10]
  }

  /** The count of each word of the sample. */
  function Counts(u: string): nat {
    if u == "a" then 2 else if u == "at" || u == "ban" then 1 else 0
  }

  /** A run of letters closed by a non-letter reads as that one word. */
  lemma Piece(word: seq<byte>, sep: byte)
    requires word != [] && forall j :: 0 <= j < |word| ==> IsAlpha(word[j] as int)
    requires !IsAlpha(sep as int)
    ensures Runs(word + [sep]) == [LowerWord(word)]
  {
    RunsOther(word, sep);
    RunsOfWord(word);
  }

  /** Four one-element sequences, concatenated, make the four-element display. */
  lemma Display4<T>(a: T, b: T, c: T, d: T)
    ensures [a] + ([b] + ([c] + [d])) == [a, b, c, d]
  {
  }

  /** "a " reads as the word a. */
  lemma PieceA()
    ensures Runs([97, 32]) == ["a"]
  {
    var word: seq<byte> := [97];
    Piece(word, 32);
    assert word + [32] == [97, 32];
    assert LowerWord(word) == "a";
  }

  /** "at " reads as the word at. */
  lemma PieceAt()
    ensures Runs([97, 116, 32]) == ["at"]
  {
    var word: seq<byte> := [97, 116];
    Piece(word, 32);
    assert word + [32] == [97, 116, 32];
    var w := LowerWord(word);
    assert |w| == 2 && w[0] == 'a' && w[1] == 't';
    assert w == "at";
  }

  /** "ban\n" reads as the word ban. */
  lemma PieceBan()
    ensures Runs([98, 97, 110, 10]) == ["ban"]
  {
    var word: seq<byte> := [98, 97, 110];
    Piece(word, 10);
    assert word + [10] == [98, 97, 110, 10];
    var w := LowerWord(word);
    assert |w| == 3 && w[0] == 'b' && w[1] == 'a' && w[2] == 'n';
    assert w == "ban";
  }

  /** The file's words are a, a, at and ban: it opens with a letter, so there is no lead. */
  lemma SampleWords()
    ensures FileWords(Sample()) == ["a", "a", "at", "ban"]
  {
    var p1: seq<byte>, p3: seq<byte>, p4: seq<byte> := [97, 32], [97, 116, 32], [98, 97, 110, 10];
    var s := Sample();
    assert s == p1 + (p1 + (p3 + p4));
    PieceA();
    PieceAt();
    PieceBan();
    RunsAppend(p3, p4);
    RunsAppend(p1, p3 + p4);
    RunsAppend(p1, p1 + (p3 + p4));
    var ws := ["a", "a", "at", "ban"];
    Display4("a", "a", "at", "ban");
    assert FileWords(s) == Lead(s, true) + Runs(s) && Lead(s, true) == [];
    AppendEmpty(ws);
  }

  /** One occurrence of `x`, counted for `u` as Tally counts it. */
  function One(x: string, u: string): nat {
    if x == u && u != [] then 1 else 0
  }

  /** Tally of a four-word list. */
  lemma Tally4(a: string, b: string, c: string, d: string, u: string)
    ensures Tally([a, b, c, d], u) == One(a, u) + One(b, u) + One(c, u) + One(d, u)
  {
    assert [a, b, c, d] == [a, b, c] + [d] && [a, b, c] == [a, b] + [c] && [a, b] == [a] + [b] && [a] == [] + [a];
    TallySnoc([], a, u);
    TallySnoc([a], b, u);
    TallySnoc([a, b], c, u);
    TallySnoc([a, b, c], d, u);
  }

  /** The counts of the sample's words. */
  lemma SampleTally(u: string)
    ensures Tally(FileWords(Sample()), u) == Counts(u)
  {
    SampleWords();
    Tally4("a", "a", "at", "ban", u);
    if u == "a" {
      assert |u| == 1 && u != "at" && u != "ban";
    } else if u == "at" {
      assert |u| == 2 && u != "ban";
    }
  }

  /** Tally of a two-word list. */
  lemma Tally2(a: string, b: string, u: string)
    ensures Tally([a, b], u) == One(a, u) + One(b, u)
  {
    assert [a, b] == [a] + [b] && [a] == [] + [a];
    TallySnoc([], a, u);
    TallySnoc([a], b, u);
  }

  /** Two non-letters, then a letter: one word, and the lead "" at the start of a file. */
  lemma SeparatorsThenLetter(b: byte, c: byte, x: byte)
    requires !IsAlpha(b as int) && !IsAlpha(c as int) && IsAlpha(x as int)
    ensures FileWords([b, c, x]) == [""] + [LowerWord([x])]
  {
    var s := [b, c, x];
    assert s[1..] == [c, x] && s[1..][1..] == [x];
    RunsOfWord([x]);
    assert Runs([c, x]) == Runs([x]);
    assert Runs(s) == Runs([c, x]);
    assert Lead(s, true) == [""];
  }

  /** The words of ", a": the lead "" reported by the first worker, then a. */
  lemma LeadingWords()
    ensures FileWords([44, 32, 97]) == ["", "a"]
  {
    SeparatorsThenLetter(44, 32, 97);
    assert LowerWord([97]) == "a";
  }

  /**
   * A file that opens with a separator, ", a": the first worker starts inside an empty word,
   * so it reports "" before a.  The total is 2, yet only a=1 is recorded and printed.
   */
  lemma LeadingSeparator()
    ensures |FileWords([44, 32, 97])| == 2
    ensures forall u :: Tally(FileWords([44, 32, 97]), u) == if u == "a" then 1 else 0
  {
    LeadingWords();
    forall u
      ensures Tally(FileWords([44, 32, 97]), u) == if u == "a" then 1 else 0
    {
      Tally2("", "a", u);
    }
  }

  /** How the sample's words sort. */
  lemma SampleOrder()
    ensures Lex.Less("a", "at") && Lex.Less("at", "ban") && Lex.Less("a", "ban")
  {
    Lex.PrefixFirst("a", "at");
  }

  /** The expected listing: a=2, at=1, ban=1. */
  function Expected(): seq<(string, nat)> {
    [("a", 2), ("at", 1), ("ban", 1)]
  }

  /** Its lines are in increasing word order. */
  lemma ExpectedOrdered()
    ensures Ordered(Expected())
  {
    var e := Expected();
    SampleOrder();
    assert e[0].0 == "a" && e[1].0 == "at" && e[2].0 == "ban";
  }

  /** Each of its lines carries the count of its word in the sample. */
  lemma ExpectedCounts(k: int)
    requires 0 <= k < |Expected()|
    ensures Expected()[k].1 == Tally(FileWords(Sample()), Expected()[k].0) > 0
  {
    var e := Expected();
    if k == 0 {
      assert e[0] == ("a", 2);
      SampleTally("a");
    } else if k == 1 {
      assert e[1] == ("at", 1) && |"at"| == 2;
      SampleTally("at");
    } else {
      assert e[2] == ("ban", 1) && |"ban"| == 3;
      SampleTally("ban");
    }
  }

  /** Every word of the sample has its line. */
  lemma ExpectedCovers(u: string)
    requires Tally(FileWords(Sample()), u) > 0
    ensures (u, Tally(FileWords(Sample()), u)) in Expected()
  {
    SampleTally(u);
    var e := Expected();
    if u == "a" {
      assert e[0] == (u, 2);
    } else if u == "at" {
      assert e[1] == (u, 1);
    } else {
      assert e[2] == (u, 1);
    }
  }

  /** The expected listing is a report of the sample's words. */
  lemma SampleReport()
    ensures Report(FileWords(Sample()), Expected())
  {
    ExpectedOrdered();
    forall k | 0 <= k < |Expected()|
      ensures Expected()[k].1 == Tally(FileWords(Sample()), Expected()[k].0) > 0
    {
      ExpectedCounts(k);
    }
    forall u | Tally(FileWords(Sample()), u) > 0
      ensures (u, Tally(FileWords(Sample()), u)) in Expected()
    {
      ExpectedCovers(u);
    }
  }

  /**
   * Any listing that WordCount may print for the sample, with any number of threads, is
   * exactly a=2, at=1, ban=1.
   */
  lemma SamplePrinted(out: seq<(string, nat)>)
    requires Report(FileWords(Sample()), out)
    ensures out == [("a", 2), ("at", 1), ("ban", 1)]
  {
    SampleReport();
    ReportDetermined(FileWords(Sample()), out, Expected());
  }

  /** The bytes of " a b c": three one-letter words, each after a space. */
  function Spaced(): seq<byte> {
    [32, 97, 32, 98, 32, 99]
  }

  /**
   * prepare_chunks on " a b c" for 10 workers with a naive chunk size of 1: each chunk runs to
   * the first word start after its naive end, so the plan is (0,3), (3,2), (5,1) and the
   * thread count drops to 3, one per word.
   */
  lemma SpacedPlan(plan: seq<Chunks.Range>, m: int)
    requires Chunks.Planned(Spaced(), plan, m, 10, 1)
    ensures m == 3 && plan[..3] == [Chunks.Range(0, 3), Chunks.Range(3, 2), Chunks.Range(5, 1)]
  {
    var b := Spaced();
    assert Chunks.WordStart(b, 3) && Chunks.WordStart(b, 5) && !Chunks.WordStart(b, 2) && !Chunks.WordStart(b, 4);
    assert Chunks.Cuts(b, 1, plan[0]);
    Chunks.CutsAt(b, 1, plan[0], 3);
    Chunks.Followed(b, plan, m, 10, 1, 0);
    assert Chunks.Cuts(b, 1, plan[1]);
    Chunks.CutsAt(b, 1, plan[1], 5);
    Chunks.Followed(b, plan, m, 10, 1, 1);
    assert Chunks.Cuts(b, 1, plan[2]);
    Chunks.CutsToEnd(b, 1, plan[2]);
  }

  /** A level that holds exactly the letters a and b, in ascending order, is a then b. */
  lemma LevelAB(s: seq<Entry>)
    requires Ascending(s) && HasLetter(s, 'a') && HasLetter(s, 'b')
    requires forall k :: 0 <= k < |s| ==> s[k].c == 'a' || s[k].c == 'b'
    ensures |s| == 2 && s[0].c == 'a' && s[1].c == 'b'
  {
    var i := FindLetter(s, 'a');
    var j := FindLetter(s, 'b');
    assert i < j;
    var last := s[|s| - 1].c;
    assert last == 'a' || last == 'b';
    assert 0 == i && |s| - 1 == j;
    assert 1 == i || 1 == j;
  }

  /** The words and counts of the trie of treelib.h. */
  function SampleMap(): map<string, nat> {
    map["a" := 2, "at" := 1, "b" := 0, "ba" := 0, "ban" := 1]
  }

  /** Four insertions into an empty trie, of a, a, at and ban, with what each one promises. */
  lemma SampleContents(C0: map<string, nat>, C1: map<string, nat>, C2: map<string, nat>, C3: map<string, nat>, C4: map<string, nat>)
    requires C0 == map[]
    requires forall u :: Get(C1, u) == Get(C0, u) + (if u == "a" && "a" != [] then 1 else 0)
    requires forall u :: Get(C2, u) == Get(C1, u) + (if u == "a" && "a" != [] then 1 else 0)
    requires forall u :: Get(C3, u) == Get(C2, u) + (if u == "at" && "at" != [] then 1 else 0)
    requires forall u :: Get(C4, u) == Get(C3, u) + (if u == "ban" && "ban" != [] then 1 else 0)
    requires C1.Keys == C0.Keys + Prefixes("a", |"a"|) && C2.Keys == C1.Keys + Prefixes("a", |"a"|)
    requires C3.Keys == C2.Keys + Prefixes("at", |"at"|) && C4.Keys == C3.Keys + Prefixes("ban", |"ban"|)
    ensures C4 == SampleMap()
  {
    assert Prefixes("a", 1) == {"a"} by { assert "a"[..1] == "a"; }
    assert Prefixes("at", 2) == {"a", "at"} by { assert "at"[..1] == "a" && "at"[..2] == "at"; }
    assert Prefixes("ban", 3) == {"b", "ba", "ban"} by { assert "ban"[..1] == "b" && "ban"[..2] == "ba" && "ban"[..3] == "ban"; }
    forall u | u in C4
      ensures C4[u] == SampleMap()[u]
    {
      assert C4[u] == Get(C4, u);
    }
  }

  /** In a trie recording exactly the sample's paths, the root level is a (count 2) then b (count 0). */
  lemma SampleRoot(T: seq<seq<Entry>>, A: map<string, nat>, C: map<string, nat>, O: seq<string>, h: nat)
    requires Shape(T, A, C, O, h) && C == SampleMap()
    ensures |T| > 0 && |T[0]| == 2 && T[0][0].c == 'a' && T[0][0].count == 2 && T[0][1].c == 'b' && T[0][1].count == 0
  {
    assert C.Keys == {"a", "at", "b", "ba", "ban"};
    var s := T[0];
    forall k | 0 <= k < |s|
      ensures s[k].c == 'a' || s[k].c == 'b'
    {
      Descend(T, A, C, O, h, [], k);
      var u := [] + [s[k].c];
      assert |u| == 1 && u[0] == s[k].c;
    }
    assert HasLetter(s, 'a') && HasLetter(s, 'b') by {
      assert [] + ['a'] == "a" && [] + ['b'] == "b";
    }
    LevelAB(s);
    Descend(T, A, C, O, h, [], 0);
    Descend(T, A, C, O, h, [], 1);
  }

  /**
   * The trie of treelib.h: inserting a, a, at, ban into an empty trie records a (2), at (1)
   * and ban (1) with the prefixes b and ba at count 0, and the root level holds a, count 2,
   * before b, count 0.
   */
  method SampleTrie() returns (t: Trie)
    ensures fresh(t) && t.Valid()
    ensures t.Contents == SampleMap()
    ensures |t.nodes[0]| == 2 && t.nodes[0][0].c == 'a' && t.nodes[0][0].count == 2
    ensures t.nodes[0][1].c == 'b' && t.nodes[0][1].count == 0
  {
    t := new Trie();
    ghost var C0 := t.Contents;
    t.InsertWord("a");
    ghost var C1 := t.Contents;
    t.InsertWord("a");
    ghost var C2 := t.Contents;
    t.InsertWord("at");
    ghost var C3 := t.Contents;
    t.InsertWord("ban");
    SampleContents(C0, C1, C2, C3, t.Contents);
    SampleRoot(t.nodes, t.At, t.Contents, t.Owner, t.Height);
  }
}
