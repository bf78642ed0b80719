/** The deduplication step of `run`: `arr.filter((e, i, arr) =>
    arr.lastIndexOf(e) === i)` keeps an entry only when it is the last
    occurrence of its value. */
module LastOccurrence {
  import opened Tags

  /** Array.prototype.lastIndexOf with strict equality: the highest index
      holding e, or -1 when e does not occur. */
  function LastIndexOf(s: seq<Tag>, e: Tag): (r: int)
    ensures -1 <= r < |s|
    ensures r == -1 <==> e !in s
    ensures 0 <= r ==> s[r] == e && forall j :: r < j < |s| ==> s[j] != e
  {
    if s == [] then -1
    else if s[|s| - 1] == e then |s| - 1
    else LastIndexOf(s[..|s| - 1], e)
  }

  /** Array.prototype.filter over the indices 0 .. n-1 of s, with the callback
      that asks whether the index is the last occurrence of its value in the
      whole of s. */
  function FilterLast(s: seq<Tag>, n: nat): seq<Tag>
    requires n <= |s|
  {
    if n == 0 then []
    else FilterLast(s, n - 1) + (if LastIndexOf(s, s[n - 1]) == n - 1 then [s[n - 1]] else [])
  }

  function KeepLast(s: seq<Tag>): seq<Tag> {
    FilterLast(s, |s|)
  }

  /** After visiting n indices the filter holds exactly the values whose last
      occurrence lies below n, in the order of those last occurrences. */
  lemma {:induction false} FilterLastInvariant(s: seq<Tag>, n: nat)
    requires n <= |s|
    ensures forall x :: x in FilterLast(s, n) <==> x in s && LastIndexOf(s, x) < n
    ensures forall i, j :: 0 <= i < j < |FilterLast(s, n)| ==>
              LastIndexOf(s, FilterLast(s, n)[i]) < LastIndexOf(s, FilterLast(s, n)[j])
  {
    if n > 0 {
      FilterLastInvariant(s, n - 1);
      var prev := FilterLast(s, n - 1);
      var y := s[n - 1];
      assert y in s && LastIndexOf(s, y) >= n - 1;
      if LastIndexOf(s, y) == n - 1 {
        assert FilterLast(s, n) == prev + [y];
      } else {
        assert FilterLast(s, n) == prev;
      }
    }
  }

  /** The filter keeps every value of s and invents none. */
  lemma KeepLastElements(s: seq<Tag>)
    ensures Elements(KeepLast(s)) == Elements(s)
  {
    FilterLastInvariant(s, |s|);
  }

  /** The survivors stand in the order of their last occurrences in s; in
      particular no value survives twice. */
  lemma KeepLastOrder(s: seq<Tag>)
    ensures forall i, j :: 0 <= i < j < |KeepLast(s)| ==>
              LastIndexOf(s, KeepLast(s)[i]) < LastIndexOf(s, KeepLast(s)[j])
    ensures NoDuplicates(KeepLast(s))
  {
    FilterLastInvariant(s, |s|);
  }

  /** The result has one entry per distinct value of s, so it is never longer than s. */
  lemma KeepLastLength(s: seq<Tag>)
    ensures |KeepLast(s)| == |Elements(s)| <= |s|
  {
    KeepLastElements(s);
    KeepLastOrder(s);
    DistinctCount(KeepLast(s));
    ElementsBound(s);
  }

  /** Filtering an ascending list leaves a strictly ascending one. */
  lemma KeepLastSorted(s: seq<Tag>)
    requires Sorted(s)
    ensures StrictlySorted(KeepLast(s))
  {
    FilterLastInvariant(s, |s|);
    var r := KeepLast(s);
    forall i, j | 0 <= i < j < |r| ensures Less(r[i], r[j]) {
      var p, q := LastIndexOf(s, r[i]), LastIndexOf(s, r[j]);
      assert s[p] == r[i] && s[q] == r[j];
    }
  }

  /** On a list without repeats the filter keeps everything, in place. */
  lemma {:induction false} FilterLastNoDuplicates(s: seq<Tag>, n: nat)
    requires NoDuplicates(s) && n <= |s|
    ensures FilterLast(s, n) == s[..n]
  {
    if n > 0 {
      FilterLastNoDuplicates(s, n - 1);
      assert LastIndexOf(s, s[n - 1]) == n - 1;
      assert s[..n] == s[..n - 1] + [s[n - 1]];
    }
  }

  /** Applying the filter to a duplicate-free list (such as a strictly sorted
      one) returns that list unchanged. */
  lemma KeepLastIdentity(s: seq<Tag>)
    requires NoDuplicates(s)
    ensures KeepLast(s) == s
  {
    FilterLastNoDuplicates(s, |s|);
    assert s[..|s|] == s;
  }
}
