/** The `sort()` step of `run`: the concatenated tag list is rearranged into
    ascending order. The engine's sorting algorithm is not part of the program;
    the model uses insertion sort and proves that every sorted rearrangement of
    a list is the same list, so the choice of algorithm does not show. */
module TagSort {
  import opened Tags

  /** Places x before the first element it does not exceed. */
  function Insert(x: Tag, s: seq<Tag>): seq<Tag> {
    if s == [] || LessEq(x, s[0]) then [x] + s
    else [s[0]] + Insert(x, s[1..])
  }

  function SortTags(s: seq<Tag>): seq<Tag> {
    if s == [] then [] else Insert(s[0], SortTags(s[1..]))
  }

  lemma {:induction false} InsertCorrect(x: Tag, s: seq<Tag>)
    requires Sorted(s)
    ensures Sorted(Insert(x, s))
    ensures multiset(Insert(x, s)) == multiset(s) + multiset{x}
  {
    if s == [] {
    } else if LessEq(x, s[0]) {
      forall y | y in s ensures LessEq(x, y) {
        var j :| 0 <= j < |s| && s[j] == y;
        if j > 0 {
          LessEqTransitive(x, s[0], s[j]);
        }
      }
      SortedCons(x, s);
    } else {
      LessEqTotal(x, s[0]);
      var rest := s[1..];
      InsertCorrect(x, rest);
      var t := Insert(x, rest);
      forall y | y in t ensures LessEq(s[0], y) {
        assert y in multiset(t);
        if y != x {
          assert y in multiset(rest);
          var j :| 0 <= j < |rest| && rest[j] == y;
          assert s[j + 1] == y;
        }
      }
      SortedCons(s[0], t);
      assert s == [s[0]] + rest;
    }
  }

  /** SortTags yields an ascending rearrangement of its input. */
  lemma {:induction false} SortTagsCorrect(s: seq<Tag>)
    ensures Sorted(SortTags(s))
    ensures multiset(SortTags(s)) == multiset(s)
  {
    if s != [] {
      SortTagsCorrect(s[1..]);
      InsertCorrect(s[0], SortTags(s[1..]));
      assert s == [s[0]] + s[1..];
    }
  }

  /** Two ascending rearrangements of the same tags are equal. */
  lemma {:induction false} SortedUnique(a: seq<Tag>, b: seq<Tag>)
    requires Sorted(a) && Sorted(b)
    requires multiset(a) == multiset(b)
    ensures a == b
    decreases |a|
  {
    assert |a| == |multiset(a)| == |multiset(b)| == |b|;
    if a != [] {
      assert a == [a[0]] + a[1..];
      assert b == [b[0]] + b[1..];
      assert a[0] in multiset(b);
      var k :| 0 <= k < |b| && b[k] == a[0];
      assert b[0] in multiset(a);
      var m :| 0 <= m < |a| && a[m] == b[0];
      assert LessEq(b[0], a[0]) by {
        if k == 0 { LessEqReflexive(a[0]); }
      }
      assert LessEq(a[0], b[0]) by {
        if m == 0 { LessEqReflexive(a[0]); }
      }
      LessEqAntisymmetric(a[0], b[0]);
      assert multiset(a[1..]) == multiset(a) - multiset{a[0]};
      assert multiset(b[1..]) == multiset(b) - multiset{b[0]};
      SortedUnique(a[1..], b[1..]);
    }
  }

  /** Whatever algorithm rearranges s into ascending order produces SortTags(s). */
  lemma AnySortAgrees(s: seq<Tag>, sorted: seq<Tag>)
    requires Sorted(sorted) && multiset(sorted) == multiset(s)
    ensures sorted == SortTags(s)
  {
    SortTagsCorrect(s);
    SortedUnique(sorted, SortTags(s));
  }

  /** Sorting a list that is already ascending changes nothing. */
  lemma SortTagsSortedIdentity(s: seq<Tag>)
    requires Sorted(s)
    ensures SortTags(s) == s
  {
    AnySortAgrees(s, s);
  }

  /** Sorting keeps exactly the tags it was given. */
  lemma SortTagsElements(s: seq<Tag>)
    ensures Elements(SortTags(s)) == Elements(s)
  {
    SortTagsCorrect(s);
    var t := SortTags(s);
    forall x ensures x in t <==> x in s {
      assert x in t <==> x in multiset(t);
      assert x in s <==> x in multiset(s);
    }
  }
}
