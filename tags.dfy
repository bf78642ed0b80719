/** Tag names, the order in which the default Array.prototype.sort arranges
    them, and the properties of tag lists (sorted, duplicate-free, their set of
    elements) that the rest of the model states its results in. */
module Tags {

  /** A tag name: a rule-set key, i.e. a JavaScript string. */
  type Tag = string

  /** The comparison used by `sort()` without a comparator: character by
      character, the first differing character decides, and a proper prefix
      comes first. */
  predicate LessEq(a: Tag, b: Tag)
    decreases |a|
  {
    if a == [] then true
    else if b == [] then false
    else if a[0] != b[0] then a[0] < b[0]
    else LessEq(a[1..], b[1..])
  }

  predicate Less(a: Tag, b: Tag) {
    LessEq(a, b) && a != b
  }

  lemma {:induction false} LessEqReflexive(a: Tag)
    ensures LessEq(a, a)
    decreases |a|
  {
    if a != [] {
      LessEqReflexive(a[1..]);
    }
  }

  lemma {:induction false} LessEqAntisymmetric(a: Tag, b: Tag)
    requires LessEq(a, b) && LessEq(b, a)
    ensures a == b
    decreases |a|
  {
    if a != [] && b != [] && a[0] == b[0] {
      LessEqAntisymmetric(a[1..], b[1..]);
      assert a == [a[0]] + a[1..];
      assert b == [b[0]] + b[1..];
    }
  }

  lemma {:induction false} LessEqTransitive(a: Tag, b: Tag, c: Tag)
    requires LessEq(a, b) && LessEq(b, c)
    ensures LessEq(a, c)
    decreases |a|
  {
    if a != [] && b != [] && c != [] && a[0] == b[0] && b[0] == c[0] {
      LessEqTransitive(a[1..], b[1..], c[1..]);
    }
  }

  lemma {:induction false} LessEqTotal(a: Tag, b: Tag)
    ensures LessEq(a, b) || LessEq(b, a)
    decreases |a|
  {
    if a != [] && b != [] && a[0] == b[0] {
      LessEqTotal(a[1..], b[1..]);
    }
  }

  /** Ascending order, equal neighbours allowed: what `sort()` leaves. */
  predicate Sorted(s: seq<Tag>) {
    forall i, j :: 0 <= i < j < |s| ==> LessEq(s[i], s[j])
  }

  /** Ascending order without repeats: what `run` returns. */
  predicate StrictlySorted(s: seq<Tag>) {
    forall i, j :: 0 <= i < j < |s| ==> Less(s[i], s[j])
  }

  predicate NoDuplicates(s: seq<Tag>) {
    forall i, j :: 0 <= i < j < |s| ==> s[i] != s[j]
  }

  /** The tag list read as a set. */
  function Elements(s: seq<Tag>): set<Tag> {
    set x | x in s
  }

  lemma SortedCons(x: Tag, t: seq<Tag>)
    requires Sorted(t)
    requires forall y :: y in t ==> LessEq(x, y)
    ensures Sorted([x] + t)
  {
    var s := [x] + t;
    forall i, j | 0 <= i < j < |s| ensures LessEq(s[i], s[j]) {
      if i > 0 {
        assert s[i] == t[i - 1] && s[j] == t[j - 1];
      } else {
        assert s[j] == t[j - 1];
        assert s[j] in t;
      }
    }
  }

  /** The number of distinct tags never exceeds the length of the list. */
  lemma {:induction false} ElementsBound(s: seq<Tag>)
    ensures |Elements(s)| <= |s|
  {
    if s != [] {
      var init := s[..|s| - 1];
      ElementsBound(init);
      assert s == init + [s[|s| - 1]];
      assert Elements(s) == Elements(init) + {s[|s| - 1]};
    }
  }

  /** A duplicate-free list has exactly as many distinct tags as entries. */
  lemma {:induction false} DistinctCount(s: seq<Tag>)
    requires NoDuplicates(s)
    ensures |Elements(s)| == |s|
  {
    if s != [] {
      var init := s[..|s| - 1];
      var last := s[|s| - 1];
      DistinctCount(init);
      assert s == init + [last];
      assert Elements(s) == Elements(init) + {last};
      forall k | 0 <= k < |init| ensures init[k] != last {
        assert init[k] == s[k];
      }
      assert last !in Elements(init);
    }
  }

  /** A strictly sorted list is determined by its set of elements: two of
      them with the same elements are the same list. */
  lemma {:induction false} StrictlySortedUnique(a: seq<Tag>, b: seq<Tag>)
    requires StrictlySorted(a) && StrictlySorted(b)
    requires Elements(a) == Elements(b)
    ensures a == b
    decreases |a|
  {
    DistinctCount(a);
    DistinctCount(b);
    if a != [] {
      assert a[0] in Elements(b);
      var k :| 0 <= k < |b| && b[k] == a[0];
      assert b[0] in Elements(a);
      var m :| 0 <= m < |a| && a[m] == b[0];
      assert LessEq(b[0], a[0]) by {
        if k == 0 { LessEqReflexive(a[0]); }
      }
      assert LessEq(a[0], b[0]) by {
        if m == 0 { LessEqReflexive(a[0]); }
      }
      LessEqAntisymmetric(a[0], b[0]);
      var a', b' := a[1..], b[1..];
      forall x | x in Elements(a') ensures x in Elements(b') {
        var i :| 0 <= i < |a'| && a'[i] == x;
        assert x == a[i + 1] && Less(a[0], a[i + 1]);
        assert x in Elements(b);
        var j :| 0 <= j < |b| && b[j] == x;
        assert j != 0;
        assert b'[j - 1] == x;
      }
      forall x | x in Elements(b') ensures x in Elements(a') {
        var j :| 0 <= j < |b'| && b'[j] == x;
        assert x == b[j + 1] && Less(b[0], b[j + 1]);
        assert x in Elements(a);
        var i :| 0 <= i < |a| && a[i] == x;
        assert i != 0;
        assert a'[i - 1] == x;
      }
      StrictlySortedUnique(a', b');
      assert a == [a[0]] + a' && b == [b[0]] + b';
    }
  }
}
