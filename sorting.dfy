/**
 * The behaviour the command relies on from Go's sort.Slice: the slice is
 * reordered in place into a permutation of itself that is ordered by the
 * caller's `less`, which must be a strict weak order. Go's `<` on strings
 * is modelled as the lexicographic order on characters.
 */
module Sorting {

  /** `less` is asymmetric and its complement is transitive, as sort.Slice demands. */
  ghost predicate StrictWeakOrder<T(!new)>(less: (T, T) -> bool)
  {
    && (forall x, y :: less(x, y) ==> !less(y, x))
    && (forall x, y, z :: !less(y, x) && !less(z, y) ==> !less(z, x))
  }

  /** No later element is `less` than an earlier one. */
  ghost predicate SortedBy<T>(s: seq<T>, less: (T, T) -> bool)
  {
    forall i, j :: 0 <= i < j < |s| ==> !less(s[j], s[i])
  }

  /** sort.Slice, as an in-place insertion sort. */
  method SortSlice<T(!new)>(a: array<T>, less: (T, T) -> bool)
    requires StrictWeakOrder(less)
    modifies a
    ensures SortedBy(a[..], less)
    ensures multiset(a[..]) == old(multiset(a[..]))
  {
    for i := 0 to a.Length
      invariant SortedBy(a[..i], less)
      invariant multiset(a[..]) == old(multiset(a[..]))
    {
      InsertAt(a, i, less);
    }
    assert a[..a.Length] == a[..];
  }

  /** Moves a[i] down by adjacent swaps until a[..i + 1] is sorted; a[i + 1..] is untouched. */
  method InsertAt<T(!new)>(a: array<T>, i: nat, less: (T, T) -> bool)
    requires StrictWeakOrder(less)
    requires i < a.Length && SortedBy(a[..i], less)
    modifies a
    ensures SortedBy(a[..i + 1], less)
    ensures multiset(a[..]) == old(multiset(a[..]))
    ensures a[i + 1..] == old(a[i + 1..])
  {
    var j := i;
    while j > 0 && less(a[j], a[j - 1])
      invariant 0 <= j <= i
      invariant forall p, q :: 0 <= p < q <= i && p != j && q != j ==> !less(a[q], a[p])
      invariant forall q :: j < q <= i ==> !less(a[q], a[j])
      invariant multiset(a[..]) == old(multiset(a[..]))
      invariant a[i + 1..] == old(a[i + 1..])
    {
      SwapDown(a, j);
      j := j - 1;
    }
  }

  /** Exchanges a[j - 1] and a[j]. */
  method SwapDown<T>(a: array<T>, j: nat)
    requires 0 < j < a.Length
    modifies a
    ensures a[j - 1] == old(a[j]) && a[j] == old(a[j - 1])
    ensures forall k :: 0 <= k < a.Length && k != j - 1 && k != j ==> a[k] == old(a[k])
    ensures multiset(a[..]) == old(multiset(a[..]))
  {
    a[j - 1], a[j] := a[j], a[j - 1];
  }

  /**
   * Go's `<` on strings: lexicographic, a proper prefix comes first. Go
   * compares the UTF-8 bytes and this compares characters (code points);
   * the two orders agree on well-formed UTF-8, which keeps code-point order.
   */
  predicate StrLess(a: string, b: string)
  {
    if |a| == 0 then |b| > 0
    else if |b| == 0 then false
    else if a[0] != b[0] then a[0] < b[0]
    else StrLess(a[1..], b[1..])
  }

  /**
   * An independent reading of the order: `a` is below `b` at position `k`
   * when they agree before `k` and there either `a` has ended while `b` has
   * not, or both go on and `a`'s character is the smaller.
   */
  ghost predicate LessAt(a: string, b: string, k: nat)
  {
    k <= |a| && k <= |b| && a[..k] == b[..k] &&
    ((k == |a| && k < |b|) || (k < |a| && k < |b| && a[k] < b[k]))
  }

  /** StrLess is the lexicographic order: there is a first position where `a` is below `b`. */
  lemma {:induction false} StrLessIsLexicographic(a: string, b: string)
    ensures StrLess(a, b) <==> exists k: nat :: LessAt(a, b, k)
  {
    if |a| == 0 {
      if |b| > 0 {
        assert LessAt(a, b, 0);
      }
    } else if |b| == 0 {
    } else if a[0] != b[0] {
      if a[0] < b[0] {
        assert LessAt(a, b, 0);
      }
      forall k: nat | LessAt(a, b, k) ensures k == 0 {
      }
    } else {
      var a', b' := a[1..], b[1..];
      StrLessIsLexicographic(a', b');
      forall k: nat | LessAt(a', b', k) ensures LessAt(a, b, k + 1) {
        assert a[..k + 1] == [a[0]] + a'[..k];
        assert b[..k + 1] == [b[0]] + b'[..k];
      }
      forall k: nat | LessAt(a, b, k) ensures k > 0 && LessAt(a', b', k - 1) {
        assert a'[..k - 1] == a[..k][1..];
        assert b'[..k - 1] == b[..k][1..];
      }
    }
  }

  lemma {:induction false} StrLessAsymmetric(a: string, b: string)
    ensures StrLess(a, b) ==> !StrLess(b, a)
  {
    if |a| > 0 && |b| > 0 && a[0] == b[0] {
      StrLessAsymmetric(a[1..], b[1..]);
    }
  }

  /** Not-less is transitive: b <= a and c <= b give c <= a. */
  lemma {:induction false} StrLessNegTransitive(a: string, b: string, c: string)
    ensures !StrLess(b, a) && !StrLess(c, b) ==> !StrLess(c, a)
  {
    if |a| > 0 && |b| > 0 && |c| > 0 && a[0] == b[0] == c[0] {
      StrLessNegTransitive(a[1..], b[1..], c[1..]);
    }
  }

  /** Records compared by the Go string order of a key. */
  function ByKey<T>(key: T -> string): (T, T) -> bool
  {
    (x: T, y: T) => StrLess(key(x), key(y))
  }

  /** Ordering records by a string key with StrLess is a valid sort.Slice order. */
  lemma StrLessByKeyIsStrictWeakOrder<T(!new)>(key: T -> string)
    ensures StrictWeakOrder(ByKey(key))
  {
    forall x: T, y: T
      ensures StrLess(key(x), key(y)) ==> !StrLess(key(y), key(x))
    {
      StrLessAsymmetric(key(x), key(y));
    }
    forall x: T, y: T, z: T
      ensures !StrLess(key(y), key(x)) && !StrLess(key(z), key(y)) ==> !StrLess(key(z), key(x))
    {
      StrLessNegTransitive(key(x), key(y), key(z));
    }
  }

  lemma IntLessIsStrictWeakOrder()
    ensures StrictWeakOrder((x: int, y: int) => x < y)
  {
  }
}
