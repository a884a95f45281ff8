/** `map_links`: which links of a page are kept, and the URL-to-text dictionary built from them. */
module Links {
  import opened Text
  import opened OrderedMaps
  import opened Web

  /**
   * An href is kept when it starts with "http" and mentions neither "youtube.com" nor "youtu.be":
   * relative links are dropped, and "httpfoo" passes.
   */
  function IsEligible(href: string): (r: bool)
    ensures r <==> && StartsWith(href, "http")
                   && !(exists i :: OccursAt(href, "youtube.com", i))
                   && !(exists i :: OccursAt(href, "youtu.be", i))
  {
    StartsWith(href, "http") && !Contains(href, "youtube.com") && !Contains(href, "youtu.be")
  }

  /** `a.text.strip() or href`: the trimmed anchor text, or the href when the text is only whitespace. */
  function LinkText(a: Anchor): (r: string)
    ensures AllSpace(a.text) ==> r == a.href
    ensures !AllSpace(a.text) ==> r != [] && r == Strip(a.text)
  {
    var t := Strip(a.text);
    if t == "" then a.href else t
  }

  datatype LinkResult = LinksFound(links: OrderedMap<string>) | LinksFailed(error: string)

  /** The dictionary after the loop has seen `anchors`: each kept href assigned its text in turn. */
  function Collect(anchors: seq<Anchor>): (m: OrderedMap<string>)
    ensures Valid(m)
  {
    if anchors == [] then Empty()
    else
      var m := Collect(anchors[..|anchors| - 1]);
      var a := anchors[|anchors| - 1];
      if IsEligible(a.href) then Put(m, a.href, LinkText(a)) else m
  }

  /** The kept hrefs, repeats included, in document order. */
  function EligibleHrefs(anchors: seq<Anchor>): seq<string> {
    if anchors == [] then []
    else
      var rest := EligibleHrefs(anchors[..|anchors| - 1]);
      var a := anchors[|anchors| - 1];
      if IsEligible(a.href) then rest + [a.href] else rest
  }

  /** Some anchor of `anchors` has `href` k. */
  ghost predicate Carries(anchors: seq<Anchor>, k: string) {
    exists i :: 0 <= i < |anchors| && anchors[i].href == k
  }

  /** Anchor `i` carries `k` and no later anchor does. */
  ghost predicate LastCarrier(anchors: seq<Anchor>, k: string, i: int) {
    0 <= i < |anchors| && anchors[i].href == k && forall j :: i < j < |anchors| ==> anchors[j].href != k
  }

  lemma {:induction false} EligibleHrefsMembers(anchors: seq<Anchor>)
    ensures forall k :: k in EligibleHrefs(anchors) <==> IsEligible(k) && Carries(anchors, k)
  {
    if anchors != [] {
      var init := anchors[..|anchors| - 1];
      EligibleHrefsMembers(init);
      forall k ensures Carries(anchors, k) <==> Carries(init, k) || anchors[|anchors| - 1].href == k {
        if Carries(anchors, k) {
          var i :| 0 <= i < |anchors| && anchors[i].href == k;
          if i < |init| { assert init[i].href == k; }
        }
        if Carries(init, k) {
          var i :| 0 <= i < |init| && init[i].href == k;
          assert anchors[i].href == k;
        }
      }
    }
  }

  /** The dictionary's keys are the kept hrefs, each once, in the order they first appear. */
  lemma {:induction false} CollectKeys(anchors: seq<Anchor>)
    ensures Collect(anchors).keys == FirstSeen(EligibleHrefs(anchors))
  {
    if anchors != [] {
      var init := anchors[..|anchors| - 1];
      CollectKeys(init);
      var hs := EligibleHrefs(anchors);
      var a := anchors[|anchors| - 1];
      if IsEligible(a.href) {
        assert hs[..|hs| - 1] == EligibleHrefs(init);
      }
    }
  }

  /** A key is present exactly when some anchor carries it as a kept href. */
  lemma CollectMembers(anchors: seq<Anchor>, k: string)
    ensures k in Collect(anchors).values <==> IsEligible(k) && Carries(anchors, k)
  {
    CollectKeys(anchors);
    EligibleHrefsMembers(anchors);
  }

  /** Each key maps to the text of the last anchor that carries it. */
  lemma {:induction false} CollectLastWins(anchors: seq<Anchor>, k: string)
    requires k in Collect(anchors).values
    ensures exists i :: LastCarrier(anchors, k, i) && Collect(anchors).values[k] == LinkText(anchors[i])
  {
    var n := |anchors| - 1;
    var init := anchors[..n];
    var a := anchors[n];
    CollectMembers(anchors, k);
    if a.href == k {
      assert LastCarrier(anchors, k, n);
    } else {
      CollectLastWins(init, k);
      var i :| LastCarrier(init, k, i) && Collect(init).values[k] == LinkText(init[i]);
      LastCarrierExtends(anchors, k, i);
    }
  }

  lemma LastCarrierExtends(anchors: seq<Anchor>, k: string, i: int)
    requires |anchors| > 0 && anchors[|anchors| - 1].href != k
    requires LastCarrier(anchors[..|anchors| - 1], k, i)
    ensures LastCarrier(anchors, k, i)
  {
    var init := anchors[..|anchors| - 1];
    assert forall j :: 0 <= j < |init| ==> anchors[j] == init[j];
  }

  /** `map_links(url)`: a failed fetch becomes an error result; otherwise the loop over the anchors. */
  method MapLinks(url: string, fetch: string -> Fetch) returns (r: LinkResult)
    ensures fetch(url).FetchFailed? ==> r == LinksFailed(fetch(url).message)
    ensures fetch(url).Fetched? ==> r == LinksFound(Collect(fetch(url).page.anchors))
  {
    match fetch(url)
    case FetchFailed(message) =>
      r := LinksFailed(message);
    case Fetched(page) =>
      var links := Empty();
      for i := 0 to |page.anchors|
        invariant links == Collect(page.anchors[..i])
      {
        var a := page.anchors[i];
        assert page.anchors[..i + 1][..i] == page.anchors[..i];
        if IsEligible(a.href) {
          links := Put(links, a.href, LinkText(a));
        }
      }
      assert page.anchors[..|page.anchors|] == page.anchors;
      r := LinksFound(links);
  }
}
