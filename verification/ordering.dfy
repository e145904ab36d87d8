/**
 Three-way comparison, as returned by Rust's `Ord::cmp`, together with the
 order laws a comparison must obey and the lexicographic extension of a
 comparison from elements to sequences (the order Rust uses for `Vec` and
 for `String`).
 */
module Orderings {

  datatype Ordering = Less | Equal | Greater

  /** The answer of the same comparison with its arguments swapped. */
  function Flip(o: Ordering): Ordering {
    match o
    case Less => Greater
    case Equal => Equal
    case Greater => Less
  }

  /** `cmp` ranks every pair consistently: swapping the arguments flips the
      answer and "not greater" is transitive. Distinct values may compare
      `Equal`. */
  ghost predicate TotalPreorder<T(!new)>(cmp: (T, T) -> Ordering) {
    && (forall x, y :: cmp(x, y) == Flip(cmp(y, x)))
    && (forall x, y, z :: cmp(x, y) != Greater && cmp(y, z) != Greater ==> cmp(x, z) != Greater)
  }

  /** A total preorder in which only equal values compare `Equal`. */
  ghost predicate TotalOrder<T(!new)>(cmp: (T, T) -> Ordering) {
    && TotalPreorder(cmp)
    && (forall x, y :: cmp(x, y) == Equal <==> x == y)
  }

  /** Strictness follows from the two laws: "less" followed by "not greater"
      is "less". */
  lemma LessThenNotGreater<T(!new)>(cmp: (T, T) -> Ordering, x: T, y: T, z: T)
    requires TotalPreorder(cmp)
    requires cmp(x, y) == Less && cmp(y, z) != Greater
    ensures cmp(x, z) == Less
  {
    assert cmp(z, x) == Flip(cmp(x, z));
  }

  lemma NotGreaterThenLess<T(!new)>(cmp: (T, T) -> Ordering, x: T, y: T, z: T)
    requires TotalPreorder(cmp)
    requires cmp(x, y) != Greater && cmp(y, z) == Less
    ensures cmp(x, z) == Less
  {
    assert cmp(z, x) == Flip(cmp(x, z));
  }

  /** Comparison of natural numbers (Rust's `u64::cmp`). */
  function NatCmp(a: nat, b: nat): Ordering {
    if a < b then Less else if a == b then Equal else Greater
  }

  /** Comparison of characters by code point. Comparing the code points of two
      strings one by one gives the same answer as comparing their UTF-8 bytes,
      which is what Rust's `str::cmp` does. */
  function CharCmp(a: char, b: char): Ordering {
    if a < b then Less else if a == b then Equal else Greater
  }

  lemma NatCmpTotalOrder()
    ensures TotalOrder(NatCmp)
  {}

  lemma CharCmpTotalOrder()
    ensures TotalOrder(CharCmp)
  {}

  /** Lexicographic comparison: the first position where the elements differ
      decides, and a proper prefix comes first. */
  function LexCmp<T(!new)>(a: seq<T>, b: seq<T>, cmp: (T, T) -> Ordering): Ordering
    decreases |a|
  {
    if |a| == 0 then (if |b| == 0 then Equal else Less)
    else if |b| == 0 then Greater
    else if cmp(a[0], b[0]) != Equal then cmp(a[0], b[0])
    else LexCmp(a[1..], b[1..], cmp)
  }

  /** Lexicographic order on strings. */
  function StrCmp(a: string, b: string): Ordering {
    LexCmp(a, b, CharCmp)
  }

  lemma {:induction false} LexFlip<T(!new)>(a: seq<T>, b: seq<T>, cmp: (T, T) -> Ordering)
    requires TotalPreorder(cmp)
    ensures LexCmp(a, b, cmp) == Flip(LexCmp(b, a, cmp))
    decreases |a|
  {
    if |a| > 0 && |b| > 0 && cmp(a[0], b[0]) == Equal {
      LexFlip(a[1..], b[1..], cmp);
    }
  }

  lemma {:induction false} LexTransitive<T(!new)>(a: seq<T>, b: seq<T>, c: seq<T>, cmp: (T, T) -> Ordering)
    requires TotalPreorder(cmp)
    requires LexCmp(a, b, cmp) != Greater && LexCmp(b, c, cmp) != Greater
    ensures LexCmp(a, c, cmp) != Greater
    decreases |a|
  {
    if |a| > 0 && |b| > 0 && |c| > 0 {
      var ab, bc := cmp(a[0], b[0]), cmp(b[0], c[0]);
      if ab == Equal && bc == Equal {
        assert cmp(a[0], c[0]) == Equal by {
          assert cmp(b[0], a[0]) == Equal && cmp(c[0], b[0]) == Equal;
          assert cmp(c[0], a[0]) != Greater;
        }
        LexTransitive(a[1..], b[1..], c[1..], cmp);
      } else if ab == Less {
        LessThenNotGreater(cmp, a[0], b[0], c[0]);
      } else {
        NotGreaterThenLess(cmp, a[0], b[0], c[0]);
      }
    }
  }

  lemma {:induction false} LexEqual<T(!new)>(a: seq<T>, b: seq<T>, cmp: (T, T) -> Ordering)
    requires TotalOrder(cmp)
    ensures LexCmp(a, b, cmp) == Equal <==> a == b
    decreases |a|
  {
    if |a| > 0 && |b| > 0 {
      LexEqual(a[1..], b[1..], cmp);
      if a[0] == b[0] && a[1..] == b[1..] {
        assert a == [a[0]] + a[1..] && b == [b[0]] + b[1..];
      }
    }
  }

  /** String comparison is a total order. */
  lemma StrCmpTotalOrder()
    ensures TotalOrder(StrCmp)
  {
    CharCmpTotalOrder();
    forall a: string, b: string ensures StrCmp(a, b) == Flip(StrCmp(b, a)) {
      LexFlip(a, b, CharCmp);
    }
    forall a: string, b: string, c: string | StrCmp(a, b) != Greater && StrCmp(b, c) != Greater
      ensures StrCmp(a, c) != Greater
    {
      LexTransitive(a, b, c, CharCmp);
    }
    forall a: string, b: string ensures StrCmp(a, b) == Equal <==> a == b {
      LexEqual(a, b, CharCmp);
    }
  }

  /** A proper prefix sorts first; in particular "" sorts below every
      non-empty string. */
  lemma {:induction false} PrefixSortsFirst<T(!new)>(a: seq<T>, b: seq<T>, cmp: (T, T) -> Ordering)
    requires TotalOrder(cmp)
    requires |a| < |b| && a == b[..|a|]
    ensures LexCmp(a, b, cmp) == Less
    decreases |a|
  {
    if |a| > 0 {
      assert cmp(a[0], b[0]) == Equal;
      assert a[1..] == b[1..][..|a| - 1];
      PrefixSortsFirst(a[1..], b[1..], cmp);
    }
  }
}
