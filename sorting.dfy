/** Descending order of a vector of entries, as `-np.sort(-vector)` produces it
    (src/descriptor_generation/generate_test_data.py, lines 37 and 48). */
module Sorting {

  /** Every entry is at least as large as every entry after it. */
  predicate NonIncreasing(s: seq<real>) {
    forall i, j :: 0 <= i < j < |s| ==> s[i] >= s[j]
  }

  /** Inserts `x` in front of the first entry it is at least as large as. */
  function Insert(x: real, s: seq<real>): (r: seq<real>)
    ensures |r| == |s| + 1
    ensures multiset(r) == multiset(s) + multiset{x}
    ensures s != [] ==> r[0] == if x >= s[0] then x else s[0]
  {
    if s == [] || x >= s[0] then
      [x] + s
    else
      assert s == [s[0]] + s[1..];
      [s[0]] + Insert(x, s[1..])
  }

  /** Inserting into a non-increasing sequence keeps it non-increasing. */
  lemma {:induction false} InsertKeepsOrder(x: real, s: seq<real>)
    requires NonIncreasing(s)
    ensures NonIncreasing(Insert(x, s))
  {
    if s != [] && x < s[0] {
      var t := s[1..];
      assert NonIncreasing(t);
      InsertKeepsOrder(x, t);
      var r := Insert(x, t);
      var u := [s[0]] + r;
      assert Insert(x, s) == u;
      assert t != [] ==> r[0] <= s[0];
      forall i, j | 0 <= i < j < |u| ensures u[i] >= u[j] {
        assert u[j] == r[j - 1];
        if i > 0 {
          assert u[i] == r[i - 1];
        } else if t != [] {
          assert r[0] >= r[j - 1];
        }
      }
    }
  }

  /** The entries of `s` rearranged into non-increasing order. */
  function SortDesc(s: seq<real>): (r: seq<real>)
    ensures |r| == |s|
    ensures multiset(r) == multiset(s)
    ensures NonIncreasing(r)
  {
    if s == [] then []
    else
      assert s == [s[0]] + s[1..];
      var t := SortDesc(s[1..]);
      InsertKeepsOrder(s[0], t);
      Insert(s[0], t)
  }

  /** The head of a non-empty non-increasing sequence is its largest entry. */
  lemma HeadIsLargest(a: seq<real>, x: real)
    requires NonIncreasing(a) && x in a
    ensures x <= a[0]
  {
    var i :| 0 <= i < |a| && a[i] == x;
    if i > 0 {
      assert a[0] >= a[i];
    }
  }

  /** Dropping the head keeps the order and removes one copy of the head. */
  lemma TailOf(a: seq<real>)
    requires a != []
    ensures a == [a[0]] + a[1..]
    ensures multiset(a[1..]) == multiset(a) - multiset{a[0]}
    ensures NonIncreasing(a) ==> NonIncreasing(a[1..])
  {
    assert a == [a[0]] + a[1..];
  }

  /** A non-increasing sequence is determined by its multiset of entries: any
      non-increasing rearrangement of `s` is `SortDesc(s)`. */
  lemma {:induction false} NonIncreasingUnique(a: seq<real>, b: seq<real>)
    requires NonIncreasing(a) && NonIncreasing(b)
    requires multiset(a) == multiset(b)
    ensures a == b
  {
    if a == [] {
      assert |multiset(b)| == 0;
    } else {
      assert |b| == |a| by {
        assert |multiset(b)| == |multiset(a)|;
      }
      assert a[0] <= b[0] by {
        assert a[0] in multiset(b);
        HeadIsLargest(b, a[0]);
      }
      assert b[0] <= a[0] by {
        assert b[0] in multiset(a);
        HeadIsLargest(a, b[0]);
      }
      TailOf(a);
      TailOf(b);
      NonIncreasingUnique(a[1..], b[1..]);
    }
  }

  /** `SortDesc` is characterised by its two properties. */
  lemma SortDescCharacterised(s: seq<real>, t: seq<real>)
    ensures (NonIncreasing(t) && multiset(t) == multiset(s)) <==> t == SortDesc(s)
  {
    if NonIncreasing(t) && multiset(t) == multiset(s) {
      NonIncreasingUnique(t, SortDesc(s));
    }
  }

  /** In a non-increasing sequence, nothing after position `k` exceeds
      anything before it. */
  lemma SplitIsOrdered(t: seq<real>, k: nat)
    requires NonIncreasing(t) && k <= |t|
    ensures forall y, i :: y in t[k..] && 0 <= i < k ==> y <= t[i]
  {
    forall y, i | y in t[k..] && 0 <= i < k
      ensures y <= t[i]
    {
      var j :| 0 <= j < |t[k..]| && t[k..][j] == y;
      assert t[k + j] == y;
    }
  }

  /** A prefix of a non-increasing sequence is non-increasing. */
  lemma PrefixIsOrdered(t: seq<real>, k: nat)
    requires NonIncreasing(t) && k <= |t|
    ensures NonIncreasing(t[..k])
  {
    forall i, j | 0 <= i < j < k ensures t[..k][i] >= t[..k][j] {
      assert t[..k][i] == t[i] && t[..k][j] == t[j];
    }
  }

  /** Splitting a sequence splits its multiset of entries. */
  lemma SplitMultiset(t: seq<real>, k: nat)
    requires k <= |t|
    ensures multiset(t[..k]) + multiset(t[k..]) == multiset(t)
  {
    assert t == t[..k] + t[k..];
  }

  /** The first `k` entries of the descending sort are the `k` largest entries
      of `s`: together with the entries left out they make up the entries of
      `s`, and no entry left out exceeds any entry kept. */
  lemma SortedPrefixIsTop(s: seq<real>, k: nat)
    requires k <= |s|
    ensures NonIncreasing(SortDesc(s)[..k])
    ensures multiset(SortDesc(s)[..k]) + multiset(SortDesc(s)[k..]) == multiset(s)
    ensures forall y, i :: y in SortDesc(s)[k..] && 0 <= i < k ==> y <= SortDesc(s)[i]
  {
    var t := SortDesc(s);
    SplitMultiset(t, k);
    PrefixIsOrdered(t, k);
    SplitIsOrdered(t, k);
  }
}
