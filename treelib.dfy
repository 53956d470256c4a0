/**
 * A multiset of words held in a prefix tree (trie).  Every level (`struct node`) is a sequence
 * of `Entry` values in ascending letter order; an entry (`struct alpha_node`) holds its letter,
 * the number of words that end exactly there, and the level of the next letter.
 *
 * Inserting a, a, at, ban into an empty trie gives
 *
 *     a,2 ---- b,0
 *     |        |
 *     t,1      a,0
 *              |
 *              n,1
 *
 * The levels of one trie live in a table, `Trie.nodes`, and a `struct node *` is an index into
 * it (the root is level 0).  `Trie` keeps, as ghost state, the path that leads to every level
 * and the count of every entry; `Get(Contents, w)` is the multiset's value for `w`.
 */
module TreeLib {
  import Lex

  /** struct alpha_node: a letter, the number of words ending with it, and the next level. */
  datatype Entry = Entry(c: char, count: nat, next: nat)

  /** The letters of a level are unique and strictly ascending. */
  ghost predicate Ascending(s: seq<Entry>) {
    forall i, j :: 0 <= i < j < |s| ==> s[i].c < s[j].c
  }

  /** Some entry of the level carries letter `c`. */
  ghost predicate HasLetter(s: seq<Entry>, c: char)
    decreases |s|
  {
    s != [] && (s[0].c == c || HasLetter(s[1..], c))
  }

  lemma {:induction false} LetterAt(s: seq<Entry>, i: nat)
    requires i < |s|
    ensures HasLetter(s, s[i].c)
    decreases i
  {
    if i > 0 {
      LetterAt(s[1..], i - 1);
    }
  }

  lemma {:induction false} NoLetter(s: seq<Entry>, c: char)
    requires forall k :: 0 <= k < |s| ==> s[k].c != c
    ensures !HasLetter(s, c)
    decreases |s|
  {
    if s != [] {
      NoLetter(s[1..], c);
    }
  }

  lemma {:induction false} FindLetter(s: seq<Entry>, c: char) returns (i: nat)
    requires HasLetter(s, c)
    ensures i < |s| && s[i].c == c
    decreases |s|
  {
    if s[0].c == c {
      i := 0;
    } else {
      var j := FindLetter(s[1..], c);
      i := j + 1;
    }
  }

  lemma {:induction false} HasLetterInsert(s: seq<Entry>, i: nat, e: Entry, x: char)
    requires i <= |s|
    ensures HasLetter(s[..i] + [e] + s[i..], x) <==> HasLetter(s, x) || x == e.c
  {
    var t := s[..i] + [e] + s[i..];
    if HasLetter(s, x) {
      var k := FindLetter(s, x);
      if k < i { assert t[k] == s[k]; LetterAt(t, k); } else { assert t[k + 1] == s[k]; LetterAt(t, k + 1); }
    }
    if x == e.c {
      assert t[i] == e;
      LetterAt(t, i);
    }
    if HasLetter(t, x) {
      var k := FindLetter(t, x);
      if k < i { assert t[k] == s[k]; LetterAt(s, k); } else if k > i { assert t[k] == s[k - 1]; LetterAt(s, k - 1); }
    }
  }

  /**
   * Putting a letter that is absent from an ascending level at the first position whose letter
   * is not smaller keeps the level ascending (the placement made by insert_letter).
   */
  lemma InsertKeepsAscending(s: seq<Entry>, i: nat, e: Entry)
    requires Ascending(s) && !HasLetter(s, e.c) && i <= |s|
    requires forall k :: 0 <= k < i ==> s[k].c < e.c
    requires i < |s| ==> e.c <= s[i].c
    ensures Ascending(s[..i] + [e] + s[i..])
  {
    var t := s[..i] + [e] + s[i..];
    if i < |s| {
      LetterAt(s, i);
    }
    forall a, b | 0 <= a < b < |t|
      ensures t[a].c < t[b].c
    {
      if b < i {
        assert t[a] == s[a] && t[b] == s[b];
      } else if b == i {
        assert t[a] == s[a];
      } else if a < i {
        assert t[a] == s[a] && t[b] == s[b - 1];
      } else if a == i {
        assert t[b] == s[b - 1];
      } else {
        assert t[a] == s[a - 1] && t[b] == s[b - 1];
      }
    }
  }

  // ---------------------------------------------------------------------------------------
  // The shape of a whole trie, stated on values.  `T` is the table of levels, `A` gives the
  // level reached by each path, `C` the count of the entry that ends each non-empty path,
  // `O` the path of each level, and `h` bounds the length of every path.
  // ---------------------------------------------------------------------------------------

  ghost predicate Shape(T: seq<seq<Entry>>, A: map<string, nat>, C: map<string, nat>, O: seq<string>, h: nat) {
    Keys(A, C) && Indexed(T, A, O, h) && Sorted(T) && AllLinked(T, A, C) && Complete(T, A, C)
  }

  /** The root path leads to level 0; every other path ends at an entry. */
  ghost predicate Keys(A: map<string, nat>, C: map<string, nat>) {
    [] in A && A[[]] == 0 && [] !in C &&
    (forall u {:trigger u in C} :: u in C ==> u in A) &&
    (forall u {:trigger u in A} :: u in A ==> u == [] || u in C)
  }

  /** Every path leads to its own level of the table; no path is longer than `h`. */
  ghost predicate Indexed(T: seq<seq<Entry>>, A: map<string, nat>, O: seq<string>, h: nat) {
    |O| == |T| &&
    forall p {:trigger p in A} :: p in A ==> A[p] < |T| && O[A[p]] == p && |p| <= h
  }

  /** Every level of the table is ascending. */
  ghost predicate Sorted(T: seq<seq<Entry>>) {
    forall x {:trigger Ascending(T[x])} :: 0 <= x < |T| ==> Ascending(T[x])
  }

  /** Every entry of every level is recorded under its path. */
  ghost predicate AllLinked(T: seq<seq<Entry>>, A: map<string, nat>, C: map<string, nat>) {
    forall p, i :: p in A && A[p] < |T| && 0 <= i < |T[A[p]]| ==> Linked(A, C, p, T[A[p]][i])
  }

  /** Every recorded path is spelled by entries: its last letter sits at the level of the rest. */
  ghost predicate Complete(T: seq<seq<Entry>>, A: map<string, nat>, C: map<string, nat>) {
    forall p, c {:trigger p + [c] in C} :: p + [c] in C ==> p in A && A[p] < |T| && HasLetter(T[A[p]], c)
  }

  /** Entry `e` at the level of path `p` is recorded under the path `p + [e.c]`. */
  ghost predicate Linked(A: map<string, nat>, C: map<string, nat>, p: string, e: Entry) {
    p + [e.c] in C && C[p + [e.c]] == e.count && p + [e.c] in A && A[p + [e.c]] == e.next
  }

  lemma SnocInjective(p: string, x: char, q: string, y: char)
    requires p + [x] == q + [y]
    ensures p == q && x == y
  {
    assert p == (p + [x])[..|p|];
    assert q == (q + [y])[..|q|];
  }

  /** The letter an absent entry would carry is not recorded under its path. */
  lemma AbsentNotRecorded(T: seq<seq<Entry>>, A: map<string, nat>, C: map<string, nat>, p: string, c: char)
    requires Complete(T, A, C) && p in A && A[p] < |T| && !HasLetter(T[A[p]], c)
    ensures p + [c] !in C
  {
  }

  lemma InsertKeys(A: map<string, nat>, C: map<string, nat>, w: string, x: nat)
    requires Keys(A, C) && w != []
    ensures Keys(A[w := x], C[w := 0])
  {
  }

  lemma InsertIndexed(T: seq<seq<Entry>>, A: map<string, nat>, O: seq<string>, h: nat, p: string, t: seq<Entry>, w: string)
    requires Indexed(T, A, O, h) && p in A && w !in A && |w| == |p| + 1
    ensures Indexed(T[A[p] := t] + [[]], A[w := |T|], O + [w], if |p| + 1 > h then |p| + 1 else h)
  {
    var x := A[p];
    var T', A', O', h' := T[x := t] + [[]], A[w := |T|], O + [w], if |p| + 1 > h then |p| + 1 else h;
    forall q | q in A'
      ensures A'[q] < |T'| && O'[A'[q]] == q && |q| <= h'
    {
      if q != w {
        assert q in A;
        if A[q] == x {
          assert q == p;
        }
      }
    }
  }

  lemma InsertSorted(T: seq<seq<Entry>>, x: nat, t: seq<Entry>)
    requires Sorted(T) && x < |T| && Ascending(t)
    ensures Sorted(T[x := t] + [[]])
  {
    var T' := T[x := t] + [[]];
    forall y | 0 <= y < |T'|
      ensures Ascending(T'[y])
    {
      if y < |T| && y != x {
        assert T'[y] == T[y];
      }
    }
  }

  lemma InsertLinked(T: seq<seq<Entry>>, A: map<string, nat>, C: map<string, nat>, O: seq<string>, h: nat,
                     p: string, i: nat, e: Entry)
    requires Indexed(T, A, O, h) && AllLinked(T, A, C) && Keys(A, C)
    requires p in A && i <= |T[A[p]]| && !HasLetter(T[A[p]], e.c) && e.count == 0 && e.next == |T|
    requires p + [e.c] !in C
    ensures AllLinked(T[A[p] := T[A[p]][..i] + [e] + T[A[p]][i..]] + [[]], A[p + [e.c] := |T|], C[p + [e.c] := 0])
  {
    var x := A[p];
    var w := p + [e.c];
    var s := T[x];
    var t := s[..i] + [e] + s[i..];
    var T', A', C' := T[x := t] + [[]], A[w := |T|], C[w := 0];
    forall q, k | q in A' && A'[q] < |T'| && 0 <= k < |T'[A'[q]]|
      ensures Linked(A', C', q, T'[A'[q]][k])
    {
      if q != w {
        if A[q] == x {
          assert q == p;
          if k == i {
            assert T'[A'[q]][k] == e;
          } else {
            var j := if k < i then k else k - 1;
            assert T'[A'[q]][k] == s[j];
            assert Linked(A, C, p, s[j]);
            LetterAt(s, j);
          }
        } else {
          assert T'[A'[q]] == T[A[q]];
          assert Linked(A, C, q, T[A[q]][k]);
          if q + [T[A[q]][k].c] == w {
            SnocInjective(q, T[A[q]][k].c, p, e.c);
          }
        }
      }
    }
  }

  lemma InsertComplete(T: seq<seq<Entry>>, A: map<string, nat>, C: map<string, nat>, O: seq<string>, h: nat,
                       p: string, i: nat, e: Entry)
    requires Indexed(T, A, O, h) && Complete(T, A, C) && p in A && i <= |T[A[p]]| && p + [e.c] !in A
    ensures Complete(T[A[p] := T[A[p]][..i] + [e] + T[A[p]][i..]] + [[]], A[p + [e.c] := |T|], C[p + [e.c] := 0])
  {
    var x := A[p];
    var w := p + [e.c];
    var s := T[x];
    var t := s[..i] + [e] + s[i..];
    var T', A', C' := T[x := t] + [[]], A[w := |T|], C[w := 0];
    forall q, d | q + [d] in C'
      ensures q in A' && A'[q] < |T'| && HasLetter(T'[A'[q]], d)
    {
      HasLetterInsert(s, i, e, d);
      if q + [d] == w {
        SnocInjective(q, d, p, e.c);
      } else {
        assert q + [d] in C;
        assert q != w;
        if A[q] == x {
          assert q == p;
        }
      }
    }
  }

  /** After a new entry for a letter that was absent, with a new empty level, the trie keeps its shape. */
  lemma ShapeAfterInsert(T: seq<seq<Entry>>, A: map<string, nat>, C: map<string, nat>, O: seq<string>, h: nat,
                         p: string, i: nat, e: Entry)
    requires Shape(T, A, C, O, h) && p in A && !HasLetter(T[A[p]], e.c) && e.count == 0 && e.next == |T|
    requires i <= |T[A[p]]|
    requires forall k :: 0 <= k < i ==> T[A[p]][k].c < e.c
    requires i < |T[A[p]]| ==> e.c <= T[A[p]][i].c
    ensures p + [e.c] !in C && p + [e.c] !in A
    ensures Shape(T[A[p] := T[A[p]][..i] + [e] + T[A[p]][i..]] + [[]], A[p + [e.c] := |T|], C[p + [e.c] := 0],
                  O + [p + [e.c]], if |p| + 1 > h then |p| + 1 else h)
  {
    var w := p + [e.c];
    AbsentNotRecorded(T, A, C, p, e.c);
    InsertKeepsAscending(T[A[p]], i, e);
    InsertKeys(A, C, w, |T|);
    InsertIndexed(T, A, O, h, p, T[A[p]][..i] + [e] + T[A[p]][i..], w);
    InsertSorted(T, A[p], T[A[p]][..i] + [e] + T[A[p]][i..]);
    InsertLinked(T, A, C, O, h, p, i, e);
    InsertComplete(T, A, C, O, h, p, i, e);
  }

  lemma AddLinked(T: seq<seq<Entry>>, A: map<string, nat>, C: map<string, nat>, O: seq<string>, h: nat,
                  p: string, i: nat, k: nat, s: seq<Entry>)
    requires Indexed(T, A, O, h) && Sorted(T) && AllLinked(T, A, C) && p in A && i < |T[A[p]]|
    requires s == T[A[p]][i := Entry(T[A[p]][i].c, T[A[p]][i].count + k, T[A[p]][i].next)]
    ensures p + [T[A[p]][i].c] in C
    ensures AllLinked(T[A[p] := s], A, C[p + [T[A[p]][i].c] := C[p + [T[A[p]][i].c]] + k])
  {
    var x := A[p];
    var e := T[x][i];
    var w := p + [e.c];
    assert Linked(A, C, p, e);
    assert Ascending(T[x]);
    var T', C' := T[x := s], C[w := C[w] + k];
    forall q, j | q in A && A[q] < |T'| && 0 <= j < |T'[A[q]]|
      ensures Linked(A, C', q, T'[A[q]][j])
    {
      if A[q] == x {
        assert q == p;
        assert Linked(A, C, p, T[x][j]);
        if j == i {
          assert T'[x][j] == Entry(e.c, e.count + k, e.next);
          assert C'[w] == e.count + k;
        } else {
          assert T'[x][j] == T[x][j];
          if p + [T[x][j].c] == w {
            SnocInjective(p, T[x][j].c, p, e.c);
          }
        }
      } else {
        assert T'[A[q]] == T[A[q]];
        assert Linked(A, C, q, T[A[q]][j]);
        if q + [T[A[q]][j].c] == w {
          SnocInjective(q, T[A[q]][j].c, p, e.c);
        }
      }
    }
  }

  lemma AddComplete(T: seq<seq<Entry>>, A: map<string, nat>, C: map<string, nat>, x: nat, s: seq<Entry>, w: string, k: nat)
    requires Complete(T, A, C) && x < |T| && w in C
    requires |s| == |T[x]| && forall j :: 0 <= j < |s| ==> s[j].c == T[x][j].c
    ensures Complete(T[x := s], A, C[w := C[w] + k])
  {
    var T', C' := T[x := s], C[w := C[w] + k];
    forall q, d | q + [d] in C'
      ensures q in A && A[q] < |T'| && HasLetter(T'[A[q]], d)
    {
      assert q + [d] in C;
      if A[q] == x {
        var j := FindLetter(T[x], d);
        LetterAt(s, j);
      }
    }
  }

  lemma AddSorted(T: seq<seq<Entry>>, x: nat, s: seq<Entry>)
    requires Sorted(T) && x < |T| && |s| == |T[x]| && forall j :: 0 <= j < |s| ==> s[j].c == T[x][j].c
    ensures Sorted(T[x := s])
  {
    var T' := T[x := s];
    forall y | 0 <= y < |T'|
      ensures Ascending(T'[y])
    {
      if y != x {
        assert T'[y] == T[y];
      } else {
        assert Ascending(T[x]);
      }
    }
  }

  /** Adding `k` to the count of one entry keeps the trie's shape. */
  lemma ShapeAfterAdd(T: seq<seq<Entry>>, A: map<string, nat>, C: map<string, nat>, O: seq<string>, h: nat,
                      p: string, i: nat, k: nat, s: seq<Entry>)
    requires Shape(T, A, C, O, h) && p in A && i < |T[A[p]]|
    requires s == T[A[p]][i := Entry(T[A[p]][i].c, T[A[p]][i].count + k, T[A[p]][i].next)]
    ensures p + [T[A[p]][i].c] in C
    ensures Shape(T[A[p] := s], A, C[p + [T[A[p]][i].c] := C[p + [T[A[p]][i].c]] + k], O, h)
  {
    var x := A[p];
    var w := p + [T[x][i].c];
    AddLinked(T, A, C, O, h, p, i, k, s);
    assert forall j :: 0 <= j < |s| ==> s[j].c == T[x][j].c;
    AddSorted(T, x, s);
    AddComplete(T, A, C, x, s, w, k);
  }

  /** The entry at index `i` of the level of `p` leads to the level of `p` extended by its letter. */
  lemma Descend(T: seq<seq<Entry>>, A: map<string, nat>, C: map<string, nat>, O: seq<string>, h: nat, p: string, i: nat)
    requires Shape(T, A, C, O, h) && p in A && A[p] < |T| && i < |T[A[p]]|
    ensures p + [T[A[p]][i].c] in A && A[p + [T[A[p]][i].c]] == T[A[p]][i].next < |T|
    ensures p + [T[A[p]][i].c] in C && C[p + [T[A[p]][i].c]] == T[A[p]][i].count
  {
    assert Linked(A, C, p, T[A[p]][i]);
  }

  /** A path recorded below `q` goes through an entry of the level of `q`. */
  lemma BranchLetter(T: seq<seq<Entry>>, A: map<string, nat>, C: map<string, nat>, O: seq<string>, h: nat,
                     q: string, u: string)
    requires Shape(T, A, C, O, h) && q in A && q < u && u in C
    ensures HasLetter(T[A[q]], u[|q|])
  {
    PrefixRecorded(T, A, C, u, |q| + 1);
    assert u[..|q| + 1] == q + [u[|q|]];
  }

  /** Every non-empty prefix of a recorded path is recorded too. */
  lemma {:induction false} PrefixRecorded(T: seq<seq<Entry>>, A: map<string, nat>, C: map<string, nat>,
                                          w: string, k: nat)
    requires Keys(A, C) && Complete(T, A, C) && w in C && 0 < k <= |w|
    ensures w[..k] in C
    decreases |w|
  {
    if k < |w| {
      var v := w[..|w| - 1];
      assert w == v + [w[|w| - 1]];
      assert v in A;
      assert v != [] by { assert |v| >= k > 0; }
      assert v in C;
      PrefixRecorded(T, A, C, v, k);
      assert v[..k] == w[..k];
    } else {
      assert w[..k] == w;
    }
  }

  // ---------------------------------------------------------------------------------------
  // The two loops over one level.
  // ---------------------------------------------------------------------------------------

  /** is_in: the index of the first entry carrying `c`, or -1 (NULL) when there is none. */
  method IsIn(c: char, letters: seq<Entry>) returns (r: int)
    ensures -1 <= r < |letters|
    ensures r == -1 ==> forall k :: 0 <= k < |letters| ==> letters[k].c != c
    ensures r >= 0 ==> letters[r].c == c && forall k :: 0 <= k < r ==> letters[k].c != c
  {
    var i := 0;
    while i < |letters|
      invariant 0 <= i <= |letters|
      invariant forall k :: 0 <= k < i ==> letters[k].c != c
    {
      if c == letters[i].c {
        return i;
      }
      i := i + 1;
    }
    return -1;
  }

  /**
   * The shift of insert_letter: the entries from `i` on move up one slot, over the spare
   * last slot of `a`, which holds `letters` and one more slot.
   */
  method MakeRoom(a: array<Entry>, i: nat, ghost letters: seq<Entry>)
    requires i < a.Length == |letters| + 1 && a[..|letters|] == letters
    modifies a
    ensures a[..i] == letters[..i] && a[i + 1..] == letters[i..]
  {
    var j := a.Length - 1;
    while j > i
      invariant i <= j <= |letters|
      invariant a[..j] == letters[..j] && a[j + 1..] == letters[j..]
    {
      a[j] := a[j - 1];
      assert a[j..] == [letters[j - 1]] + letters[j..];
      j := j - 1;
    }
  }

  /**
   * insert_letter on one level: the letters grow by one slot, the new entry (count 0, level
   * `next`) goes before the first letter that is not smaller than `c`, and the rest move up.
   */
  method InsertLetter(c: char, letters: seq<Entry>, next: nat) returns (t: seq<Entry>, i: nat)
    ensures i <= |letters|
    ensures t == letters[..i] + [Entry(c, 0, next)] + letters[i..]
    ensures forall k :: 0 <= k < i ==> letters[k].c < c
    ensures i < |letters| ==> c <= letters[i].c
  {
    var len := |letters|;
    var a := new Entry[len + 1](k => if 0 <= k < len then letters[k] else Entry(c, 0, next));
    if len > 0 {
      i := 0;
      while i < len && c > a[i].c
        invariant 0 <= i <= len
        invariant a[..len] == letters
        invariant forall k :: 0 <= k < i ==> letters[k].c < c
      {
        i := i + 1;
      }
      if i < len {
        MakeRoom(a, i, letters);
      }
    } else {
      i := 0;
    }
    a[i] := Entry(c, 0, next);
    t := a[..];
    assert t[..i] == letters[..i] && t[i + 1..] == letters[i..];
  }

  /**
   * The counts after merging, below the path `p`, the words that `F` records below `q` whose
   * next letter is one of the letters of `D`.
   */
  ghost predicate MergedBelow(C: map<string, nat>, C0: map<string, nat>, F: map<string, nat>, p: string, q: string, D: seq<Entry>) {
    forall u :: Get(C, u) == Get(C0, u) + (if p < u && HasLetter(D, u[|p|]) then Get(F, q + u[|p|..]) else 0)
  }

  /**
   * One round of merge_trees' loop, for the entry `e` of `F`'s level of `q`: the count of
   * `p + [e.c]` grows by `e.count` (`C2` from `C1`, which has the counts of `C0`) and the
   * recursive merge adds what `F` records below `q + [e.c]` (`C3` from `C2`).
   */
  lemma {:induction false} EntryStep(C0: map<string, nat>, C1: map<string, nat>, C2: map<string, nat>, C3: map<string, nat>,
                                     F: map<string, nat>, p: string, q: string, e: Entry)
    requires forall u :: Get(C1, u) == Get(C0, u)
    requires p + [e.c] in C1 && C2 == C1[p + [e.c] := C1[p + [e.c]] + e.count] && e.count == Get(F, q + [e.c])
    requires forall u :: Get(C3, u) == Get(C2, u) + (if p + [e.c] < u then Get(F, q + [e.c] + u[|p| + 1..]) else 0)
    ensures forall u :: Get(C3, u) == Get(C0, u) + (if p + [e.c] <= u then Get(F, q + u[|p|..]) else 0)
  {
    forall u
      ensures Get(C3, u) == Get(C0, u) + (if p + [e.c] <= u then Get(F, q + u[|p|..]) else 0)
    {
      if u == p + [e.c] {
        assert q + u[|p|..] == q + [e.c];
      } else if p + [e.c] < u {
        assert q + u[|p|..] == q + [e.c] + u[|p| + 1..];
      }
    }
  }

  /** After the round for entry `i` of the ascending level `s`, the letters of `s[..i + 1]` are merged. */
  lemma {:induction false} MergeStep(C: map<string, nat>, C': map<string, nat>, C0: map<string, nat>,
                                     F: map<string, nat>, p: string, q: string, s: seq<Entry>, i: nat)
    requires i < |s| && Ascending(s) && MergedBelow(C, C0, F, p, q, s[..i])
    requires forall u :: Get(C', u) == Get(C, u) + (if p + [s[i].c] <= u then Get(F, q + u[|p|..]) else 0)
    ensures MergedBelow(C', C0, F, p, q, s[..i + 1])
  {
    var D, e := s[..i], s[i];
    assert s[..i + 1] == D + [e];
    NoLetter(D, e.c);
    forall u
      ensures Get(C', u) == Get(C0, u) + (if p < u && HasLetter(D + [e], u[|p|]) then Get(F, q + u[|p|..]) else 0)
    {
      if p < u {
        HasLetterInsert(D, |D|, e, u[|p|]);
        assert D[..|D|] + [e] + D[|D|..] == D + [e];
        if u[|p|] == e.c {
          assert u[..|p| + 1] == p + [e.c];
        }
      }
    }
  }

  /** When every letter of the level of `q` in `F`'s trie has been merged, all of `F` below `q` has. */
  lemma MergeDone(C: map<string, nat>, C0: map<string, nat>,
                  T: seq<seq<Entry>>, A: map<string, nat>, F: map<string, nat>, O: seq<string>, h: nat, p: string, q: string)
    requires Shape(T, A, F, O, h) && q in A && MergedBelow(C, C0, F, p, q, T[A[q]])
    ensures forall u :: Get(C, u) == Get(C0, u) + (if p < u then Get(F, q + u[|p|..]) else 0)
  {
    forall u | p < u && !HasLetter(T[A[q]], u[|p|])
      ensures Get(F, q + u[|p|..]) == 0
    {
      assert (q + u[|p|..])[|q|] == u[|p|];
      if q + u[|p|..] in F {
        BranchLetter(T, A, F, O, h, q, q + u[|p|..]);
      }
    }
  }

  /**
   * The paths recorded after merging, below the path `p`, the paths that `F` records below
   * `q` whose next letter is one of the letters of `D`.
   */
  ghost predicate KeysBelow(C: map<string, nat>, C0: map<string, nat>, F: map<string, nat>, p: string, q: string, D: seq<Entry>) {
    forall u :: u in C <==> u in C0 || (p < u && HasLetter(D, u[|p|]) && q + u[|p|..] in F)
  }

  /** The paths recorded by one round of merge_trees' loop, as `EntryStep` has its counts. */
  lemma {:induction false} EntryKeys(C0: map<string, nat>, C1: map<string, nat>, C2: map<string, nat>, C3: map<string, nat>,
                                     F: map<string, nat>, p: string, q: string, e: Entry)
    requires C1.Keys == C0.Keys + {p + [e.c]} && C2.Keys == C1.Keys && q + [e.c] in F
    requires forall u :: u in C3 <==> u in C2 || (p + [e.c] < u && q + [e.c] + u[|p| + 1..] in F)
    ensures forall u :: u in C3 <==> u in C0 || (p + [e.c] <= u && q + u[|p|..] in F)
  {
    forall u
      ensures u in C3 <==> u in C0 || (p + [e.c] <= u && q + u[|p|..] in F)
    {
      if u == p + [e.c] {
        assert q + u[|p|..] == q + [e.c];
      } else if p + [e.c] < u {
        assert q + u[|p|..] == q + [e.c] + u[|p| + 1..];
      }
    }
  }

  /** After the round for entry `i` of the ascending level `s`, the paths through `s[..i + 1]` are merged. */
  lemma {:induction false} MergeStepKeys(C: map<string, nat>, C': map<string, nat>, C0: map<string, nat>,
                                         F: map<string, nat>, p: string, q: string, s: seq<Entry>, i: nat)
    requires i < |s| && KeysBelow(C, C0, F, p, q, s[..i])
    requires forall u :: u in C' <==> u in C || (p + [s[i].c] <= u && q + u[|p|..] in F)
    ensures KeysBelow(C', C0, F, p, q, s[..i + 1])
  {
    var D, e := s[..i], s[i];
    assert s[..i + 1] == D + [e];
    forall u
      ensures u in C' <==> u in C0 || (p < u && HasLetter(D + [e], u[|p|]) && q + u[|p|..] in F)
    {
      if p < u {
        HasLetterInsert(D, |D|, e, u[|p|]);
        assert D[..|D|] + [e] + D[|D|..] == D + [e];
        if u[|p|] == e.c {
          assert u[..|p| + 1] == p + [e.c];
        }
      }
    }
  }

  /** When every letter of the level of `q` in `F`'s trie has been merged, every path of `F` below `q` has. */
  lemma MergeDoneKeys(C: map<string, nat>, C0: map<string, nat>,
                      T: seq<seq<Entry>>, A: map<string, nat>, F: map<string, nat>, O: seq<string>, h: nat, p: string, q: string)
    requires Shape(T, A, F, O, h) && q in A && KeysBelow(C, C0, F, p, q, T[A[q]])
    ensures forall u :: u in C <==> u in C0 || (p < u && q + u[|p|..] in F)
  {
    forall u | p < u && q + u[|p|..] in F
      ensures HasLetter(T[A[q]], u[|p|])
    {
      assert (q + u[|p|..])[|q|] == u[|p|];
      BranchLetter(T, A, F, O, h, q, q + u[|p|..]);
    }
  }

  /** The printed lines are in strictly increasing word order. */
  ghost predicate Ordered(out: seq<(string, nat)>) {
    forall a, b :: 0 <= a < b < |out| ==> Lex.Less(out[a].0, out[b].0)
  }

  /** Two ordered listings with the same lines have the same first line. */
  lemma FirstLine(a: seq<(string, nat)>, b: seq<(string, nat)>)
    requires Ordered(a) && Ordered(b) && a != [] && b != []
    requires forall x :: x in a <==> x in b
    ensures a[0] == b[0]
  {
    assert a[0] in b && b[0] in a;
    var j :| 0 <= j < |b| && b[j] == a[0];
    var i :| 0 <= i < |a| && a[i] == b[0];
    Lex.Asymmetric(a[0].0, b[0].0);
  }

  /** With equal first lines, the lines after the first of one ordered listing are those after the first of the other. */
  lemma LaterLine(a: seq<(string, nat)>, b: seq<(string, nat)>, x: (string, nat))
    requires Ordered(a) && a != [] && b != [] && a[0] == b[0]
    requires x in a <==> x in b
    ensures x in a[1..] ==> x in b[1..]
  {
    if x in a[1..] {
      var k :| 0 <= k < |a| - 1 && a[1..][k] == x;
      assert a[k + 1] == x;
      Lex.Irreflexive(x.0);
      var m :| 0 <= m < |b| && b[m] == x;
      assert m != 0;
      assert b[1..][m - 1] == x;
    }
  }

  /** An ordered listing is determined by its set of lines. */
  lemma {:induction false} OrderedUnique(a: seq<(string, nat)>, b: seq<(string, nat)>)
    requires Ordered(a) && Ordered(b)
    requires forall x :: x in a <==> x in b
    ensures a == b
    decreases |a|
  {
    if b != [] {
      assert b[0] in a;
    }
    if a != [] {
      assert a[0] in b;
      FirstLine(a, b);
      forall x
        ensures x in a[1..] <==> x in b[1..]
      {
        LaterLine(a, b, x);
        LaterLine(b, a, x);
      }
      OrderedUnique(a[1..], b[1..]);
      assert a == [a[0]] + a[1..] && b == [b[0]] + b[1..];
    }
  }

  /** Every word of `out` lies below `p` and leaves it through a letter smaller than `c`. */
  ghost predicate Before(out: seq<(string, nat)>, p: string, c: char) {
    forall k :: 0 <= k < |out| ==> p < out[k].0 && out[k].0[|p|] < c
  }

  /** The word `p + [c]` printed after words that leave `p` through smaller letters. */
  lemma AppendWord(out: seq<(string, nat)>, p: string, c: char, n: nat)
    requires Ordered(out) && Before(out, p, c)
    ensures Ordered(out + [(p + [c], n)])
  {
    var t := out + [(p + [c], n)];
    forall a, b | 0 <= a < b < |t|
      ensures Lex.Less(t[a].0, t[b].0)
    {
      if b == |out| {
        Lex.BranchOrder(p, out[a].0, p + [c]);
      } else {
        assert t[a] == out[a] && t[b] == out[b];
      }
    }
  }

  /**
   * The words below `p + [c]`, printed after words that leave `p` through smaller letters and
   * possibly `p + [c]` itself.
   */
  lemma AppendBelow(out: seq<(string, nat)>, p: string, c: char, sub: seq<(string, nat)>)
    requires Ordered(out) && Ordered(sub)
    requires forall k :: 0 <= k < |out| ==> p < out[k].0 && (out[k].0 == p + [c] || out[k].0[|p|] < c)
    requires forall k :: 0 <= k < |sub| ==> p + [c] < sub[k].0
    ensures Ordered(out + sub)
  {
    var t := out + sub;
    forall a, b | 0 <= a < b < |t|
      ensures Lex.Less(t[a].0, t[b].0)
    {
      if b < |out| {
        assert t[a] == out[a] && t[b] == out[b];
      } else if a >= |out| {
        assert t[a] == sub[a - |out|] && t[b] == sub[b - |out|];
      } else {
        var u, v := out[a].0, sub[b - |out|].0;
        assert t[a].0 == u && t[b].0 == v;
        if u == p + [c] {
          Lex.PrefixFirst(u, v);
        } else {
          assert v[..|p| + 1] == p + [c];
          Lex.BranchOrder(p, u, v);
        }
      }
    }
  }

  /** Every line of `out` is a word below `p` with its non-zero count in `C`. */
  ghost predicate Listing(C: map<string, nat>, p: string, out: seq<(string, nat)>) {
    forall k :: 0 <= k < |out| ==> p < out[k].0 && out[k].1 == Get(C, out[k].0) > 0
  }

  lemma {:induction false} HasLetterSnoc(s: seq<Entry>, i: nat, d: char)
    requires i < |s|
    ensures HasLetter(s[..i + 1], d) <==> HasLetter(s[..i], d) || d == s[i].c
  {
    HasLetterInsert(s[..i], i, s[i], d);
    assert s[..i][..i] + [s[i]] + s[..i][i..] == s[..i + 1];
  }

  /**
   * One round of _print_tree's loop, for entry `i` of the ascending level `s` of `prefix`: the
   * word of the entry when its count is not 0, then the lines printed below it.
   */
  lemma PrintStep(C: map<string, nat>, s: seq<Entry>, i: nat, prefix: string,
                  out0: seq<(string, nat)>, sub: seq<(string, nat)>, out: seq<(string, nat)>)
    requires i < |s| && Ascending(s) && Get(C, prefix + [s[i].c]) == s[i].count
    requires Listing(C, prefix, out0) && Ordered(out0) && Before(out0, prefix, s[i].c)
    requires forall u :: prefix < u && Get(C, u) > 0 && HasLetter(s[..i], u[|prefix|]) ==> (u, Get(C, u)) in out0
    requires Listing(C, prefix + [s[i].c], sub) && Ordered(sub)
    requires forall u :: prefix + [s[i].c] < u && Get(C, u) > 0 ==> (u, Get(C, u)) in sub
    requires out == out0 + (if s[i].count != 0 then [(prefix + [s[i].c], s[i].count)] else []) + sub
    ensures Listing(C, prefix, out) && Ordered(out) && (i + 1 < |s| ==> Before(out, prefix, s[i + 1].c))
    ensures forall u :: prefix < u && Get(C, u) > 0 && HasLetter(s[..i + 1], u[|prefix|]) ==> (u, Get(C, u)) in out
  {
    var w := prefix + [s[i].c];
    var mid := out0 + (if s[i].count != 0 then [(w, s[i].count)] else []);
    if s[i].count != 0 {
      AppendWord(out0, prefix, s[i].c, s[i].count);
    }
    forall k | 0 <= k < |mid|
      ensures prefix < mid[k].0 && (mid[k].0 == w || mid[k].0[|prefix|] < s[i].c)
    {
      if k < |out0| {
        assert mid[k] == out0[k];
      }
    }
    forall k | 0 <= k < |sub|
      ensures prefix < sub[k].0 && sub[k].0[|prefix|] == s[i].c
    {
      assert sub[k].0[..|prefix| + 1] == w;
    }
    AppendBelow(mid, prefix, s[i].c, sub);
    assert out == mid + sub;
    forall u | prefix < u && Get(C, u) > 0 && HasLetter(s[..i + 1], u[|prefix|])
      ensures (u, Get(C, u)) in out
    {
      HasLetterSnoc(s, i, u[|prefix|]);
      if u[|prefix|] == s[i].c && u != w {
        assert u[..|prefix| + 1] == w;
        assert w < u;
      }
    }
  }

  /** A listing that holds every word below `prefix` leaving it through a letter of its level holds every word below `prefix`. */
  lemma PrintDone(T: seq<seq<Entry>>, A: map<string, nat>, C: map<string, nat>, O: seq<string>, h: nat,
                  prefix: string, out: seq<(string, nat)>)
    requires Shape(T, A, C, O, h) && prefix in A
    requires forall u :: prefix < u && Get(C, u) > 0 && HasLetter(T[A[prefix]], u[|prefix|]) ==> (u, Get(C, u)) in out
    ensures forall u :: prefix < u && Get(C, u) > 0 ==> (u, Get(C, u)) in out
  {
    forall u | prefix < u && Get(C, u) > 0
      ensures (u, Get(C, u)) in out
    {
      BranchLetter(T, A, C, O, h, prefix, u);
    }
  }

  /** The count recorded for `u`, 0 when it is not recorded. */
  function Get(C: map<string, nat>, u: string): nat {
    if u in C then C[u] else 0
  }

  /** The non-empty prefixes of `w` of length at most `k`. */
  ghost function Prefixes(w: string, k: nat): set<string>
    requires k <= |w|
  {
    set j | 0 < j <= k :: w[..j]
  }

  lemma PrefixesSnoc(w: string, k: nat)
    requires k < |w|
    ensures Prefixes(w, k + 1) == Prefixes(w, k) + {w[..k + 1]}
  {
  }

  /** Every path recorded in `A0` is recorded in `A` too, with the same level. */
  ghost predicate Grows(A0: map<string, nat>, A: map<string, nat>) {
    forall q {:trigger q in A0} :: q in A0 ==> q in A && A[q] == A0[q]
  }

  // ---------------------------------------------------------------------------------------
  // A whole trie.
  // ---------------------------------------------------------------------------------------

  class Trie {
    /** The levels; `nodes[0]` is the root. */
    var nodes: seq<seq<Entry>>
    /** The count of the entry that ends each recorded path. */
    ghost var Contents: map<string, nat>
    /** The level reached by each recorded path. */
    ghost var At: map<string, nat>
    /** The path of each level. */
    ghost var Owner: seq<string>
    /** No recorded path is longer than this. */
    ghost var Height: nat

    ghost predicate Valid()
      reads this
    {
      Shape(nodes, At, Contents, Owner, Height)
    }

    /** An empty root (`struct node` with len 0 and no letters), holding no word. */
    constructor ()
      ensures Valid() && nodes == [[]] && Contents == map[]
    {
      nodes := [[]];
      At := map[[] := 0];
      Contents := map[];
      Owner := [[]];
      Height := 0;
    }

    /**
     * insert_letter applied to the level of path `p`: an absent letter gets an entry with count 0
     * and a new empty level appended to the table.
     */
    method InsertLetterAt(ghost p: string, x: nat, c: char) returns (i: nat)
      requires Valid() && p in At && x == At[p] && x < |nodes| && !HasLetter(nodes[x], c)
      modifies this
      ensures Valid()
      ensures i <= |old(nodes)[x]|
      ensures nodes == old(nodes)[x := old(nodes)[x][..i] + [Entry(c, 0, |old(nodes)|)] + old(nodes)[x][i..]] + [[]]
      ensures p + [c] !in old(Contents) && p + [c] !in old(At)
      ensures Contents == old(Contents)[p + [c] := 0] && At == old(At)[p + [c] := |old(nodes)|]
    {
      var t, j := InsertLetter(c, nodes[x], |nodes|);
      ShapeAfterInsert(nodes, At, Contents, Owner, Height, p, j, Entry(c, 0, |nodes|));
      ghost var w := p + [c];
      At := At[w := |nodes|];
      Contents := Contents[w := 0];
      Owner := Owner + [w];
      Height := if |p| + 1 > Height then |p| + 1 else Height;
      nodes := nodes[x := t] + [[]];
      i := j;
    }

    /**
     * The idiom `if ((n = is_in(c, node)) == NULL) n = insert_letter(c, node);` on the level of
     * path `p`: the index of the entry of `c`, created with count 0 when it was absent.  No count
     * changes and every recorded path keeps its level.
     */
    method Lookup(ghost p: string, x: nat, c: char) returns (i: nat)
      requires Valid() && p in At && x == At[p] && x < |nodes|
      modifies this
      ensures Valid() && x < |nodes| && i < |nodes[x]| && nodes[x][i].c == c
      ensures |old(nodes)| <= |nodes| && Grows(old(At), At)
      ensures forall u :: Get(Contents, u) == Get(old(Contents), u)
      ensures Contents.Keys == old(Contents).Keys + {p + [c]}
    {
      var r := IsIn(c, nodes[x]);
      if r < 0 {
        NoLetter(nodes[x], c);
        i := InsertLetterAt(p, x, c);
      } else {
        i := r;
        Descend(nodes, At, Contents, Owner, Height, p, i);
      }
    }

    /** `n->count += k` on entry `i` of the level of path `p`. */
    method AddCount(ghost p: string, x: nat, i: nat, k: nat)
      requires Valid() && p in At && x == At[p] && x < |nodes| && i < |nodes[x]|
      modifies this
      ensures Valid()
      ensures nodes == old(nodes)[x := old(nodes)[x][i := Entry(old(nodes)[x][i].c, old(nodes)[x][i].count + k, old(nodes)[x][i].next)]]
      ensures p + [old(nodes)[x][i].c] in old(Contents)
      ensures Contents == old(Contents)[p + [old(nodes)[x][i].c] := old(Contents)[p + [old(nodes)[x][i].c]] + k]
      ensures At == old(At)
    {
      var e := nodes[x][i];
      var s := nodes[x][i := Entry(e.c, e.count + k, e.next)];
      ShapeAfterAdd(nodes, At, Contents, Owner, Height, p, i, k, s);
      ghost var w := p + [e.c];
      Contents := Contents[w := Contents[w] + k];
      nodes := nodes[x := s];
    }
  
    /**
     * insert_word: walk down the levels letter by letter, adding the missing letters, and count
     * one more occurrence at the entry of the last letter.  The empty word changes nothing.
     */
    method InsertWord(w: string)
      requires Valid()
      modifies this
      ensures Valid()
      ensures forall u :: Get(Contents, u) == Get(old(Contents), u) + (if u == w && w != [] then 1 else 0)
      ensures Contents.Keys == old(Contents).Keys + Prefixes(w, |w|)
      ensures w == [] ==> unchanged(this)
    {
      ghost var C0 := Contents;
      var x := 0;
      var k := 0;
      while k < |w|
        invariant Valid() && 0 <= k <= |w| && (w == [] || k < |w|)
        invariant w[..k] in At && At[w[..k]] == x && x < |nodes|
        invariant forall u :: Get(Contents, u) == Get(C0, u)
        invariant Contents.Keys == C0.Keys + Prefixes(w, k)
        invariant w == [] ==> unchanged(this)
      {
        x := WordLetter(w, k, x);
        PrefixesSnoc(w, k);
        if k + 1 == |w| {
          return;
        }
        k := k + 1;
      }
    }

    /**
     * One turn of insert_word's loop, for letter `k` of `w` at the level `x` of `w[..k]`: find
     * or create its entry; after the last letter count one more `w`, otherwise return the level
     * of `w[..k + 1]`.
     */
    method WordLetter(w: string, k: nat, x: nat) returns (next: nat)
      requires Valid() && k < |w| && w[..k] in At && At[w[..k]] == x && x < |nodes|
      modifies this
      ensures Valid() && Contents.Keys == old(Contents).Keys + {w[..k + 1]}
      ensures k + 1 < |w| ==> w[..k + 1] in At && At[w[..k + 1]] == next && next < |nodes|
      ensures forall u :: Get(Contents, u) == Get(old(Contents), u) + (if u == w && k + 1 == |w| then 1 else 0)
    {
      var c := w[k];
      var i := Lookup(w[..k], x, c);
      assert w[..k + 1] == w[..k] + [c];
      if k + 1 == |w| {
        assert w[..k + 1] == w;
        AddCount(w[..k], x, i, 1);
        next := x;
      } else {
        Descend(nodes, At, Contents, Owner, Height, w[..k], i);
        next := nodes[x][i].next;
      }
    }

    /**
     * merge_trees: add, by a parallel descent, every word that `from` records below its level
     * `f` (reached by `q`) to the words of this trie below level `x` (reached by `p`).
     */
    method MergeTrees(x: nat, from: Trie, f: nat, ghost p: string, ghost q: string)
      requires from != this && Valid() && from.Valid()
      requires p in At && At[p] == x && x < |nodes| && q in from.At && from.At[q] == f && f < |from.nodes|
      modifies this
      ensures Valid() && x < |nodes| && |old(nodes)| <= |nodes| && Grows(old(At), At)
      ensures forall u :: Get(Contents, u) == Get(old(Contents), u) + (if p < u then Get(from.Contents, q + u[|p|..]) else 0)
      ensures forall u :: u in Contents <==> u in old(Contents) || (p < u && q + u[|p|..] in from.Contents)
      decreases from.Height - |q|, 3
    {
      ghost var C0 := Contents;
      if |from.nodes[f]| > 0 {
        MergeLevel(x, from, f, p, q);
      }
      MergeDone(Contents, C0, from.nodes, from.At, from.Contents, from.Owner, from.Height, p, q);
      MergeDoneKeys(Contents, C0, from.nodes, from.At, from.Contents, from.Owner, from.Height, p, q);
    }

    /**
     * merge_trees' loop over the entries of `from`'s level `f`: afterwards the counts and the
     * paths below `p` are those before with the paths of `from` below `q` merged in.
     */
    method MergeLevel(x: nat, from: Trie, f: nat, ghost p: string, ghost q: string)
      requires from != this && Valid() && from.Valid()
      requires p in At && At[p] == x && x < |nodes| && q in from.At && from.At[q] == f && f < |from.nodes|
      modifies this
      ensures Valid() && x < |nodes| && |old(nodes)| <= |nodes| && Grows(old(At), At)
      ensures MergedBelow(Contents, old(Contents), from.Contents, p, q, from.nodes[f])
      ensures KeysBelow(Contents, old(Contents), from.Contents, p, q, from.nodes[f])
      decreases from.Height - |q|, 2
    {
      ghost var C0 := Contents;
      var i := 0;
      while i < |from.nodes[f]|
        invariant 0 <= i <= |from.nodes[f]| && Valid() && x < |nodes| && |old(nodes)| <= |nodes| && Grows(old(At), At)
        invariant MergedBelow(Contents, C0, from.Contents, p, q, from.nodes[f][..i])
        invariant KeysBelow(Contents, C0, from.Contents, p, q, from.nodes[f][..i])
      {
        MergeRound(x, from, f, i, p, q, C0);
        i := i + 1;
      }
      assert from.nodes[f][..i] == from.nodes[f];
    }

    /**
     * One turn of merge_trees' loop: after entry `i` of `from`'s level `f` is merged in, the
     * counts and the paths are those of `C0` with every path of `from` below `q` whose next
     * letter is one of the first `i + 1` entries merged in below `p`.
     */
    method MergeRound(x: nat, from: Trie, f: nat, i: nat, ghost p: string, ghost q: string, ghost C0: map<string, nat>)
      requires from != this && Valid() && from.Valid()
      requires p in At && At[p] == x && x < |nodes| && q in from.At && from.At[q] == f && f < |from.nodes| && i < |from.nodes[f]|
      requires MergedBelow(Contents, C0, from.Contents, p, q, from.nodes[f][..i])
      requires KeysBelow(Contents, C0, from.Contents, p, q, from.nodes[f][..i])
      modifies this
      ensures Valid() && x < |nodes| && |old(nodes)| <= |nodes| && Grows(old(At), At)
      ensures MergedBelow(Contents, C0, from.Contents, p, q, from.nodes[f][..i + 1])
      ensures KeysBelow(Contents, C0, from.Contents, p, q, from.nodes[f][..i + 1])
      decreases from.Height - |q|, 1
    {
      ghost var C := Contents;
      MergeEntry(x, from, f, i, p, q);
      MergeStep(C, Contents, C0, from.Contents, p, q, from.nodes[f], i);
      MergeStepKeys(C, Contents, C0, from.Contents, p, q, from.nodes[f], i);
    }

    /**
     * The body of merge_trees' loop for entry `i` of `from`'s level `f`: find or create the
     * entry of its letter, add its count, and merge the levels below both.
     */
    method MergeEntry(x: nat, from: Trie, f: nat, i: nat, ghost p: string, ghost q: string)
      requires from != this && Valid() && from.Valid()
      requires p in At && At[p] == x && x < |nodes| && q in from.At && from.At[q] == f && f < |from.nodes| && i < |from.nodes[f]|
      modifies this
      ensures Valid() && x < |nodes| && |old(nodes)| <= |nodes| && Grows(old(At), At)
      ensures forall u :: Get(Contents, u) == Get(old(Contents), u) +
                          (if p + [from.nodes[f][i].c] <= u then Get(from.Contents, q + u[|p|..]) else 0)
      ensures forall u :: u in Contents <==> u in old(Contents) || (p + [from.nodes[f][i].c] <= u && q + u[|p|..] in from.Contents)
      decreases from.Height - |q|, 0
    {
      var e := from.nodes[f][i];
      ghost var C0 := Contents;
      var j := Lookup(p, x, e.c);
      ghost var C1 := Contents;
      AddCount(p, x, j, e.count);
      ghost var C2 := Contents;
      Descend(nodes, At, Contents, Owner, Height, p, j);
      Descend(from.nodes, from.At, from.Contents, from.Owner, from.Height, q, i);
      MergeTrees(nodes[x][j].next, from, e.next, p + [e.c], q + [e.c]);
      EntryStep(C0, C1, C2, Contents, from.Contents, p, q, e);
      EntryKeys(C0, C1, C2, Contents, from.Contents, p, q, e);
    }

    /** Adds every word of `from`, with its count, to this trie; `from` is left as it was. */
    method Merge(from: Trie)
      requires from != this && Valid() && from.Valid()
      modifies this
      ensures Valid()
      ensures forall u :: Get(Contents, u) == Get(old(Contents), u) + Get(from.Contents, u)
      ensures Contents.Keys == old(Contents).Keys + from.Contents.Keys
    {
      MergeTrees(0, from, 0, [], []);
      forall u
        ensures Get(Contents, u) == Get(old(Contents), u) + Get(from.Contents, u)
        ensures u in Contents <==> u in old(Contents) || u in from.Contents
      {
        if u != [] {
          assert [] < u && [] + u[0..] == u;
        }
      }
    }
  
    /**
     * _print_tree: the lines `word=count` printed for the words below level `x`, whose path is
     * `prefix`, as (word, count) pairs in printing order: the words recorded below `prefix`
     * with a non-zero count, each once, with its count, in increasing order.
     */
    method PrintAt(x: nat, prefix: string) returns (out: seq<(string, nat)>)
      requires Valid() && prefix in At && At[prefix] == x && x < |nodes|
      ensures Listing(Contents, prefix, out) && Ordered(out)
      ensures forall u :: prefix < u && Get(Contents, u) > 0 ==> (u, Get(Contents, u)) in out
      decreases Height - |prefix|, 1
    {
      out := [];
      if |nodes[x]| > 0 {
        var i := 0;
        while i < |nodes[x]|
          invariant 0 <= i <= |nodes[x]|
          invariant Listing(Contents, prefix, out) && Ordered(out)
          invariant i < |nodes[x]| ==> Before(out, prefix, nodes[x][i].c)
          invariant forall u :: prefix < u && Get(Contents, u) > 0 && HasLetter(nodes[x][..i], u[|prefix|]) ==> (u, Get(Contents, u)) in out
        {
          out := PrintEntry(x, prefix, i, out);
          i := i + 1;
        }
        assert nodes[x][..i] == nodes[x];
      }
      PrintDone(nodes, At, Contents, Owner, Height, prefix, out);
    }

    /**
     * One turn of _print_tree's loop over node `x`, for its entry `i`: the word ending there if
     * its count is not zero, then the words below it, after the listing `out0` so far.
     */
    method PrintEntry(x: nat, prefix: string, i: nat, out0: seq<(string, nat)>) returns (out: seq<(string, nat)>)
      requires Valid() && prefix in At && At[prefix] == x && x < |nodes| && i < |nodes[x]|
      requires Listing(Contents, prefix, out0) && Ordered(out0) && Before(out0, prefix, nodes[x][i].c)
      requires forall u :: prefix < u && Get(Contents, u) > 0 && HasLetter(nodes[x][..i], u[|prefix|]) ==> (u, Get(Contents, u)) in out0
      ensures Listing(Contents, prefix, out) && Ordered(out) && (i + 1 < |nodes[x]| ==> Before(out, prefix, nodes[x][i + 1].c))
      ensures forall u :: prefix < u && Get(Contents, u) > 0 && HasLetter(nodes[x][..i + 1], u[|prefix|]) ==> (u, Get(Contents, u)) in out
      decreases Height - |prefix|, 0
    {
      assert Ascending(nodes[x]);
      var e := nodes[x][i];
      var w := prefix + [e.c];
      Descend(nodes, At, Contents, Owner, Height, prefix, i);
      out := out0;
      if e.count != 0 {
        out := out + [(w, e.count)];
      }
      var sub := PrintAt(e.next, w);
      out := out + sub;
      PrintStep(Contents, nodes[x], i, prefix, out0, sub, out);
    }

    /**
     * Every non-empty prefix of a recorded word has its own entry: insert_word creates the
     * entries of the missing letters with count 0, so a proper prefix keeps the count of
     * the words that end there.
     */
    lemma PrefixEntry(w: string, k: nat)
      requires Valid() && w in Contents && 0 < k <= |w|
      ensures w[..k] in Contents && Contents[w[..k]] == Get(Contents, w[..k])
    {
      PrefixRecorded(nodes, At, Contents, w, k);
    }

    /** print_tree: every word with a non-zero count and its count, in increasing order. */
    method PrintTree() returns (out: seq<(string, nat)>)
      requires Valid()
      ensures Listing(Contents, [], out) && Ordered(out)
      ensures forall u :: Get(Contents, u) > 0 ==> (u, Get(Contents, u)) in out
    {
      out := PrintAt(0, []);
      forall u | Get(Contents, u) > 0
        ensures (u, Get(Contents, u)) in out
      {
        assert u != [];
        assert [] < u;
      }
    }
  }
}
