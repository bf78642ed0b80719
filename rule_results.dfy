/** What a compiled rule set returns for one target string, and the tag names
    the tagger collects from it. The rule engine itself (patterns, negation,
    conjunction groups) is not part of this model: an evaluator is any function
    from the target string to an Evaluation. */
module RuleResults {
  import opened Tags
  import opened LastOccurrence

  /** The evaluator's result object as its keys are enumerated: each tag name
      defined for the surface, in definition order, with its match outcome. */
  type Outcomes = seq<(Tag, bool)>

  /** Object keys are distinct. */
  predicate DistinctKeys(rs: Outcomes) {
    forall i, j :: 0 <= i < j < |rs| ==> rs[i].0 != rs[j].0
  }

  type Evaluation = rs: Outcomes | DistinctKeys(rs) witness []

  /** The tag names of rs, in enumeration order. */
  function Keys(rs: Outcomes): seq<Tag> {
    seq(|rs|, i requires 0 <= i < |rs| => rs[i].0)
  }

  /** The names whose outcome is true, in enumeration order: what one of the
      tagger's key-enumerating loops appends to its result list. */
  function SatisfiedTags(rs: Outcomes): seq<Tag> {
    if rs == [] then []
    else
      var last := rs[|rs| - 1];
      SatisfiedTags(rs[..|rs| - 1]) + (if last.1 then [last.0] else [])
  }

  /** A name is collected exactly when the evaluator reported it as matched. */
  lemma {:induction false} SatisfiedTagsMembers(rs: Outcomes)
    ensures forall t :: t in SatisfiedTags(rs) <==> (t, true) in rs
  {
    if rs != [] {
      var init, last := rs[..|rs| - 1], rs[|rs| - 1];
      SatisfiedTagsMembers(init);
      assert rs == init + [last];
    }
  }

  /** Never more names than rules. */
  lemma {:induction false} SatisfiedTagsLength(rs: Outcomes)
    ensures |SatisfiedTags(rs)| <= |rs|
  {
    if rs != [] {
      SatisfiedTagsLength(rs[..|rs| - 1]);
    }
  }

  /** With distinct keys the collected names keep the evaluator's key order
      (hence contain no name twice). */
  lemma {:induction false} SatisfiedTagsOrder(rs: Outcomes)
    requires DistinctKeys(rs)
    ensures forall i, j :: 0 <= i < j < |SatisfiedTags(rs)| ==>
              LastIndexOf(Keys(rs), SatisfiedTags(rs)[i]) < LastIndexOf(Keys(rs), SatisfiedTags(rs)[j])
    ensures NoDuplicates(SatisfiedTags(rs))
  {
    if rs != [] {
      var init, last := rs[..|rs| - 1], rs[|rs| - 1];
      SatisfiedTagsOrder(init);
      SatisfiedTagsMembers(init);
      var prev := SatisfiedTags(init);
      var keys := Keys(rs);
      assert keys[..|rs| - 1] == Keys(init);
      forall t | t in prev
        ensures LastIndexOf(keys, t) == LastIndexOf(Keys(init), t) < |rs| - 1
      {
        assert (t, true) in init;
        var k :| 0 <= k < |init| && init[k] == (t, true);
        assert rs[k].0 != last.0;
      }
      if last.1 {
        assert SatisfiedTags(rs) == prev + [last.0];
        assert LastIndexOf(keys, last.0) == |rs| - 1;
      } else {
        assert SatisfiedTags(rs) == prev;
      }
    }
  }
}
