/** The UrlTagger object: three compiled rule sets (url, content, html) and the
    three operations that evaluate them and aggregate the matched tag names.

    The document body that `request.get(url)` resolves to is a parameter
    (`html`), and so is the HTML-to-text extractor behind `getContent`
    (`extract`). */
module Tagger {
  import opened Tags
  import opened TagSort
  import opened LastOccurrence
  import opened RuleResults

  /** The tail of `run`: concatenate the URL tags with the content tags, sort,
      and keep each value's last occurrence. */
  function Merge(urlTags: seq<Tag>, contentTags: seq<Tag>): seq<Tag> {
    KeepLast(SortTags(urlTags + contentTags))
  }

  /** The merged list is ascending without repeats. */
  lemma MergeStrictlySorted(urlTags: seq<Tag>, contentTags: seq<Tag>)
    ensures StrictlySorted(Merge(urlTags, contentTags))
  {
    SortTagsCorrect(urlTags + contentTags);
    KeepLastSorted(SortTags(urlTags + contentTags));
  }

  /** As a set, the merged list is the union of its two inputs: no tag is
      lost and none is invented. */
  lemma MergeElements(urlTags: seq<Tag>, contentTags: seq<Tag>)
    ensures Elements(Merge(urlTags, contentTags)) == Elements(urlTags) + Elements(contentTags)
  {
    var all := urlTags + contentTags;
    SortTagsElements(all);
    KeepLastElements(SortTags(all));
    assert Elements(all) == Elements(urlTags) + Elements(contentTags);
  }

  /** One entry per distinct tag of the concatenation, so never more than both
      inputs together. */
  lemma MergeLength(urlTags: seq<Tag>, contentTags: seq<Tag>)
    ensures |Merge(urlTags, contentTags)| == |Elements(urlTags + contentTags)|
    ensures |Merge(urlTags, contentTags)| <= |urlTags| + |contentTags|
  {
    var all := urlTags + contentTags;
    SortTagsElements(all);
    KeepLastLength(SortTags(all));
    ElementsBound(all);
  }

  /** The merged list depends only on which tags occur, not on how often, in
      which input or in which order: two pairs of inputs with the same union
      merge to the same list. */
  lemma MergeCanonical(a: seq<Tag>, b: seq<Tag>, c: seq<Tag>, d: seq<Tag>)
    requires Elements(a) + Elements(b) == Elements(c) + Elements(d)
    ensures Merge(a, b) == Merge(c, d)
  {
    MergeStrictlySorted(a, b);
    MergeStrictlySorted(c, d);
    MergeElements(a, b);
    MergeElements(c, d);
    StrictlySortedUnique(Merge(a, b), Merge(c, d));
  }

  /** The order in which the URL and content lists arrive does not matter. */
  lemma MergeCommutes(urlTags: seq<Tag>, contentTags: seq<Tag>)
    ensures Merge(urlTags, contentTags) == Merge(contentTags, urlTags)
  {
    MergeCanonical(urlTags, contentTags, contentTags, urlTags);
  }

  /** A list that is already ascending without repeats comes through unchanged. */
  lemma MergeCanonicalInput(tags: seq<Tag>)
    requires StrictlySorted(tags)
    ensures Merge(tags, []) == tags
  {
    assert tags + [] == tags;
    SortTagsSortedIdentity(tags);
    KeepLastIdentity(tags);
  }

  class UrlTagger {
    const urlRules: string -> Evaluation
    const contentRules: string -> Evaluation
    const htmlRules: string -> Evaluation

    /** Holds the three compiled rule sets; they never change afterwards. */
    constructor (urlRules: string -> Evaluation, contentRules: string -> Evaluation,
                 htmlRules: string -> Evaluation)
      ensures this.urlRules == urlRules
      ensures this.contentRules == contentRules
      ensures this.htmlRules == htmlRules
    {
      this.urlRules := urlRules;
      this.contentRules := contentRules;
      this.htmlRules := htmlRules;
    }

    /** The tags `runUrl` reports for url. */
    function UrlTags(url: string): seq<Tag> {
      SatisfiedTags(urlRules(url))
    }

    /** The tags `runContent` reports for a fetched body: the HTML-rule tags
        followed by the content-rule tags of its extracted text. */
    function ContentTags(html: string, extract: string -> string): seq<Tag> {
      SatisfiedTags(htmlRules(html)) + SatisfiedTags(contentRules(extract(html)))
    }

    method RunUrl(url: string) returns (results: seq<Tag>)
      ensures results == UrlTags(url)
      ensures forall t :: t in results <==> (t, true) in urlRules(url)
      ensures NoDuplicates(results)
      ensures |results| <= |urlRules(url)|
    {
      results := [];
      var urlTags := urlRules(url);
      var i := 0;
      while i < |urlTags|
        invariant 0 <= i <= |urlTags|
        invariant results == SatisfiedTags(urlTags[..i])
      {
        assert urlTags[..i + 1][..i] == urlTags[..i];
        if urlTags[i].1 {
          results := results + [urlTags[i].0];
        }
        i := i + 1;
      }
      assert urlTags[..i] == urlTags;
      SatisfiedTagsMembers(urlTags);
      SatisfiedTagsOrder(urlTags);
      SatisfiedTagsLength(urlTags);
    }

    method RunContent(html: string, extract: string -> string) returns (results: seq<Tag>)
      ensures results == ContentTags(html, extract)
      ensures forall t :: t in results <==>
                (t, true) in htmlRules(html) || (t, true) in contentRules(extract(html))
      ensures |results| <= |htmlRules(html)| + |contentRules(extract(html))|
    {
      results := [];

      var htmlTags := htmlRules(html);
      var i := 0;
      while i < |htmlTags|
        invariant 0 <= i <= |htmlTags|
        invariant results == SatisfiedTags(htmlTags[..i])
      {
        assert htmlTags[..i + 1][..i] == htmlTags[..i];
        if htmlTags[i].1 {
          results := results + [htmlTags[i].0];
        }
        i := i + 1;
      }
      assert htmlTags[..i] == htmlTags;

      var content := extract(html);
      var contentTags := contentRules(content);
      var j := 0;
      while j < |contentTags|
        invariant 0 <= j <= |contentTags|
        invariant results == SatisfiedTags(htmlTags) + SatisfiedTags(contentTags[..j])
      {
        assert contentTags[..j + 1][..j] == contentTags[..j];
        if contentTags[j].1 {
          results := results + [contentTags[j].0];
        }
        j := j + 1;
      }
      assert contentTags[..j] == contentTags;

      SatisfiedTagsMembers(htmlTags);
      SatisfiedTagsMembers(contentTags);
      SatisfiedTagsLength(htmlTags);
      SatisfiedTagsLength(contentTags);
    }

    method Run(url: string, html: string, extract: string -> string) returns (tags: seq<Tag>)
      ensures tags == Merge(UrlTags(url), ContentTags(html, extract))
      ensures StrictlySorted(tags)
      ensures Elements(tags) == Elements(UrlTags(url)) + Elements(ContentTags(html, extract))
      ensures |tags| == |Elements(UrlTags(url) + ContentTags(html, extract))|
      ensures |tags| <= |UrlTags(url)| + |ContentTags(html, extract)|
    {
      var urlTags := RunUrl(url);
      var contentTags := RunContent(html, extract);
      var arr := SortTags(urlTags + contentTags);
      tags := KeepLast(arr);
      MergeStrictlySorted(urlTags, contentTags);
      MergeElements(urlTags, contentTags);
      MergeLength(urlTags, contentTags);
    }
  }

  /** The URL rules of the `runUrl` scenario matching "http://github.com/mheap":
      all three tags come back in definition order, not sorted. */
  lemma RunUrlKeepsDefinitionOrder()
    ensures SatisfiedTags([("github", true), ("not-https", true), ("github-not-https", true)])
            == ["github", "not-https", "github-not-https"]
    ensures !Sorted(["github", "not-https", "github-not-https"])
  {
    var expected := ["github", "not-https", "github-not-https"];
    assert !LessEq(expected[1], expected[2]);
    var rs := [("github", true), ("not-https", true), ("github-not-https", true)];
    var two, one := rs[..2], rs[..1];
    assert two[..1] == one && one[..0] == [];
    assert SatisfiedTags(one) == ["github"];
    assert SatisfiedTags(two) == ["github", "not-https"];
  }

  /** The `run` scenario where both the URL rule and the content rule match:
      the result is sorted. */
  lemma RunSortsAcrossSources()
    ensures Merge(["michael-url"], ["michael-content"]) == ["michael-content", "michael-url"]
  {
    var expected := ["michael-content", "michael-url"];
    assert Less("michael-content", "michael-url");
    assert StrictlySorted(expected);
    assert Elements(expected) == Elements(["michael-url"]) + Elements(["michael-content"]);
    MergeStrictlySorted(["michael-url"], ["michael-content"]);
    MergeElements(["michael-url"], ["michael-content"]);
    StrictlySortedUnique(Merge(["michael-url"], ["michael-content"]), expected);
  }
}
