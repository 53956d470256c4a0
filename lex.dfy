/** Lexicographic order on strings by character code (the order `strcmp` gives for ASCII words). */
module Lex {
  /** `u` sorts strictly before `v`: a proper prefix, or smaller at the first difference. */
  predicate Less(u: string, v: string)
    decreases |u|
  {
    |v| > 0 && (|u| == 0 || u[0] < v[0] || (u[0] == v[0] && Less(u[1..], v[1..])))
  }

  /** No word sorts before itself, so a strictly increasing listing has no repeats. */
  lemma {:induction false} Irreflexive(u: string)
    ensures !Less(u, u)
    decreases |u|
  {
    if |u| > 0 {
      Irreflexive(u[1..]);
    }
  }

  /** No two strings each sort before the other. */
  lemma {:induction false} Asymmetric(u: string, v: string)
    ensures !(Less(u, v) && Less(v, u))
    decreases |u|
  {
    if |u| > 0 && |v| > 0 && u[0] == v[0] {
      Asymmetric(u[1..], v[1..]);
    }
  }

  /** A proper prefix sorts before every extension of it. */
  lemma {:induction false} PrefixFirst(u: string, v: string)
    requires u < v
    ensures Less(u, v)
    decreases |u|
  {
    if |u| > 0 {
      assert u[1..] < v[1..];
      PrefixFirst(u[1..], v[1..]);
    }
  }

  /** Two strings that share `p` and then differ sort by the letter right after `p`. */
  lemma {:induction false} BranchOrder(p: string, u: string, v: string)
    requires p < u && p < v && u[|p|] < v[|p|]
    ensures Less(u, v)
    decreases |p|
  {
    if |p| > 0 {
      assert p[0] == u[0] == v[0];
      assert p[1..] < u[1..] && p[1..] < v[1..];
      BranchOrder(p[1..], u[1..], v[1..]);
    }
  }
}
