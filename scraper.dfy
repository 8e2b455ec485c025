/**
 * Headline extraction from scraped pages. The HTML parser is not modelled:
 * each page arrives as the three lists of element texts the extractor
 * walks, in document order (h2/h3 headings, anchors, `span.text.text`
 * teasers), each text already stripped.
 */
module Scraper {
  import opened Tokens

  /** A candidate needs strictly more tokens than this to count as a headline. */
  const MIN_TOKENS: nat := 6

  /** The filter every pass applies before accepting a text. */
  predicate Qualifies(txt: string)
  {
    txt != [] && |Split(txt)| > MIN_TOKENS
  }

  /**
   * One filtering, deduplicating pass over `cands`: a text is kept the
   * first time it qualifies and is dropped whenever it is already kept.
   */
  function Headlines(cands: seq<string>): seq<string>
  {
    if cands == [] then []
    else
      var prev := Headlines(cands[..|cands| - 1]);
      var txt := cands[|cands| - 1];
      if Qualifies(txt) && txt !in prev then prev + [txt] else prev
  }

  predicate NoDuplicates(r: seq<string>)
  {
    forall i, j :: 0 <= i < j < |r| ==> r[i] != r[j]
  }

  /** Index of the first occurrence of `x` in `xs`. */
  function FirstIndex(xs: seq<string>, x: string): (k: nat)
    requires x in xs
    ensures k < |xs| && xs[k] == x && x !in xs[..k]
  {
    if xs[0] == x then 0
    else
      var k := 1 + FirstIndex(xs[1..], x);
      assert xs[..k] == [xs[0]] + xs[1..][..k - 1];
      k
  }

  /** The pages as the scraper sees them. */
  datatype Page = Page(h2h3: seq<string>, anchors: seq<string>, spans: seq<string>)

  /** The three passes run in order over one accumulator. */
  function PageHeadlines(p: Page): seq<string>
  {
    Headlines(p.h2h3 + p.anchors + p.spans)
  }

  /** The output holds exactly the qualifying candidates, each once. */
  lemma {:induction false} HeadlinesMembers(cands: seq<string>)
    ensures forall x :: x in Headlines(cands) <==> x in cands && Qualifies(x)
    ensures NoDuplicates(Headlines(cands))
  {
    if cands != [] {
      var init := cands[..|cands| - 1];
      HeadlinesMembers(init);
      assert cands == init + [cands[|cands| - 1]];
    }
  }

  /** Every kept text passes the filter: non-empty, more than six tokens. */
  lemma HeadlinesQualify(cands: seq<string>)
    ensures forall h :: h in Headlines(cands) ==> h != [] && |Split(h)| > MIN_TOKENS
  {
    HeadlinesMembers(cands);
  }

  /** No qualifying candidate means an empty result, not an error. */
  lemma HeadlinesEmpty(cands: seq<string>)
    requires forall x :: x in cands ==> !Qualifies(x)
    ensures Headlines(cands) == []
  {
    HeadlinesMembers(cands);
    if Headlines(cands) != [] {
      assert Headlines(cands)[0] in Headlines(cands);
    }
  }

  /**
   * The output is ordered by first occurrence in the candidates; with
   * HeadlinesMembers this determines it uniquely, and the first
   * occurrences are the indices of a subsequence of `cands`.
   */
  lemma {:induction false} HeadlinesOrder(cands: seq<string>)
    ensures forall h :: h in Headlines(cands) ==> h in cands
    ensures forall i, j :: 0 <= i < j < |Headlines(cands)| ==>
      FirstIndex(cands, Headlines(cands)[i]) < FirstIndex(cands, Headlines(cands)[j])
  {
    HeadlinesMembers(cands);
    if cands != [] {
      var n := |cands| - 1;
      var init := cands[..n];
      HeadlinesOrder(init);
      HeadlinesMembers(init);
      assert cands == init + [cands[n]];
      HeadlinesStep(init, cands[n]);
      OrderStep(init, cands[n], Headlines(init));
    }
  }

  /** Appending a candidate keeps the earlier output in first-occurrence order, and a new text goes last. */
  lemma OrderStep(init: seq<string>, x: string, prev: seq<string>)
    requires forall h :: h in prev ==> h in init
    requires forall i, j :: 0 <= i < j < |prev| ==> FirstIndex(init, prev[i]) < FirstIndex(init, prev[j])
    ensures forall i, j :: 0 <= i < j < |prev| ==>
      FirstIndex(init + [x], prev[i]) < FirstIndex(init + [x], prev[j])
    ensures x !in init ==> forall i, j :: 0 <= i < j < |prev + [x]| ==>
      FirstIndex(init + [x], (prev + [x])[i]) < FirstIndex(init + [x], (prev + [x])[j])
  {
    OrderKeep(init, x, prev);
    if x !in init {
      FirstIndexLast(init, x);
      OrderExtend(init + [x], x, prev);
    }
  }

  /** Earlier texts keep their first index, which lies before the appended one. */
  lemma OrderKeep(init: seq<string>, x: string, prev: seq<string>)
    requires forall h :: h in prev ==> h in init
    requires forall i, j :: 0 <= i < j < |prev| ==> FirstIndex(init, prev[i]) < FirstIndex(init, prev[j])
    ensures forall h :: h in prev ==> h in init + [x] && FirstIndex(init + [x], h) < |init|
    ensures forall i, j :: 0 <= i < j < |prev| ==>
      FirstIndex(init + [x], prev[i]) < FirstIndex(init + [x], prev[j])
  {
    forall h | h in prev ensures FirstIndex(init + [x], h) == FirstIndex(init, h) {
      FirstIndexAppend(init, [x], h);
    }
  }

  /** A text whose first index comes after all of `prev` can be appended in order. */
  lemma OrderExtend(cands: seq<string>, x: string, prev: seq<string>)
    requires x in cands
    requires forall h :: h in prev ==> h in cands && FirstIndex(cands, h) < FirstIndex(cands, x)
    requires forall i, j :: 0 <= i < j < |prev| ==> FirstIndex(cands, prev[i]) < FirstIndex(cands, prev[j])
    ensures forall i, j :: 0 <= i < j < |prev + [x]| ==>
      FirstIndex(cands, (prev + [x])[i]) < FirstIndex(cands, (prev + [x])[j])
  {
    var r := prev + [x];
    forall i, j | 0 <= i < j < |r|
      ensures FirstIndex(cands, r[i]) < FirstIndex(cands, r[j])
    {
      assert r[i] == prev[i] && r[i] in prev;
      if j < |prev| {
        assert r[j] == prev[j];
      }
    }
  }

  /** A text first seen at the end of the candidates has the last index. */
  lemma FirstIndexLast(init: seq<string>, x: string)
    requires x !in init
    ensures FirstIndex(init + [x], x) == |init|
  {
    var cands := init + [x];
    assert cands[..|init|] == init;
  }

  lemma {:induction false} FirstIndexAppend(xs: seq<string>, ys: seq<string>, x: string)
    requires x in xs
    ensures FirstIndex(xs + ys, x) == FirstIndex(xs, x)
  {
    if xs[0] != x {
      assert (xs + ys)[1..] == xs[1..] + ys;
      FirstIndexAppend(xs[1..], ys, x);
    }
  }

  /** The output is never longer than the candidate list. */
  lemma {:induction false} HeadlinesLength(cands: seq<string>)
    ensures |Headlines(cands)| <= |cands|
  {
    if cands != [] {
      HeadlinesLength(cands[..|cands| - 1]);
    }
  }

  /**
   * Earlier passes win: what the first passes kept stays a prefix of the
   * final list, so a text found both as a heading and as a link sits at
   * its heading position.
   */
  lemma {:induction false} HeadlinesPrefix(a: seq<string>, b: seq<string>)
    ensures |Headlines(a)| <= |Headlines(a + b)|
    ensures Headlines(a + b)[..|Headlines(a)|] == Headlines(a)
    decreases |b|
  {
    if b == [] {
      assert a + b == a;
    } else {
      var init := b[..|b| - 1];
      HeadlinesPrefix(a, init);
      assert (a + b)[..|a + b| - 1] == a + init;
    }
  }

  /** A qualifying heading is listed within the headings' own part of the output. */
  lemma HeadingBeforeLink(h2h3: seq<string>, rest: seq<string>, txt: string)
    requires txt in h2h3 && Qualifies(txt)
    ensures |Headlines(h2h3)| <= |Headlines(h2h3 + rest)|
    ensures txt in Headlines(h2h3 + rest)[..|Headlines(h2h3)|]
  {
    HeadlinesMembers(h2h3);
    HeadlinesPrefix(h2h3, rest);
  }

  /**
   * extract_headlines: three loops append to one accumulator; the result is
   * one filtering, deduplicating pass over the concatenated candidates.
   */
  method ExtractHeadlines(h2h3: seq<string>, anchors: seq<string>, spans: seq<string>)
    returns (headlines: seq<string>)
    ensures headlines == Headlines(h2h3 + anchors + spans)
    ensures NoDuplicates(headlines)
    ensures forall x :: x in headlines <==> x in h2h3 + anchors + spans && Qualifies(x)
  {
    headlines := [];
    ghost var seen: seq<string> := [];
    for i := 0 to |h2h3|
      invariant seen == h2h3[..i] && headlines == Headlines(seen)
    {
      var txt := h2h3[i];
      HeadlinesStep(seen, txt);
      if Qualifies(txt) && txt !in headlines {
        headlines := headlines + [txt];
      }
      seen := seen + [txt];
      TakeNext(h2h3, i);
    }
    assert h2h3[..|h2h3|] == h2h3;
    PassStart(h2h3, anchors);
    for i := 0 to |anchors|
      invariant seen == h2h3 + anchors[..i] && headlines == Headlines(seen)
    {
      var txt := anchors[i];
      HeadlinesStep(seen, txt);
      if Qualifies(txt) && txt !in headlines {
        headlines := headlines + [txt];
      }
      seen := seen + [txt];
      TakeNextAfter(h2h3, anchors, i);
    }
    assert anchors[..|anchors|] == anchors;
    PassStart(h2h3 + anchors, spans);
    for i := 0 to |spans|
      invariant seen == h2h3 + anchors + spans[..i] && headlines == Headlines(seen)
    {
      var txt := spans[i];
      HeadlinesStep(seen, txt);
      if Qualifies(txt) && txt !in headlines {
        headlines := headlines + [txt];
      }
      seen := seen + [txt];
      TakeNextAfter(h2h3 + anchors, spans, i);
    }
    assert spans[..|spans|] == spans;
    HeadlinesMembers(h2h3 + anchors + spans);
  }

  /** The first `i + 1` candidates of a pass are the first `i` and the next one. */
  lemma TakeNext(xs: seq<string>, i: nat)
    requires i < |xs|
    ensures xs[..i + 1] == xs[..i] + [xs[i]]
  {
  }

  /** The same, behind the candidates of the earlier passes. */
  lemma TakeNextAfter(done: seq<string>, xs: seq<string>, i: nat)
    requires i < |xs|
    ensures done + xs[..i + 1] == done + xs[..i] + [xs[i]]
  {
    TakeNext(xs, i);
  }

  /** Before a pass starts, the candidates seen are those of the earlier passes. */
  lemma PassStart(done: seq<string>, xs: seq<string>)
    ensures done + xs[..0] == done
  {
    assert xs[..0] == [];
  }

  /** One more candidate: appended when it qualifies and is new. */
  lemma HeadlinesStep(cands: seq<string>, txt: string)
    ensures Headlines(cands + [txt]) ==
      if Qualifies(txt) && txt !in Headlines(cands) then Headlines(cands) + [txt] else Headlines(cands)
  {
    assert (cands + [txt])[..|cands|] == cands;
  }

  /**
   * parse: zips the URLs with the fetched pages (stopping at the shorter
   * list) and maps each URL to the headlines of its page; a URL listed
   * twice keeps the page at its last position.
   */
  method Parse(urls: seq<string>, pages: seq<Page>) returns (result: map<string, seq<string>>)
    ensures var n := if |urls| < |pages| then |urls| else |pages|;
      && (forall u :: u in result <==> u in urls[..n])
      && (forall i :: 0 <= i < n && urls[i] !in urls[i + 1..n] ==>
            urls[i] in result && result[urls[i]] == PageHeadlines(pages[i]))
  {
    var n := if |urls| < |pages| then |urls| else |pages|;
    result := map[];
    for i := 0 to n
      invariant forall u :: u in result <==> u in urls[..i]
      invariant forall j :: 0 <= j < i && urls[j] !in urls[j + 1..i] ==>
        urls[j] in result && result[urls[j]] == PageHeadlines(pages[j])
    {
      var page := pages[i];
      var headlines := ExtractHeadlines(page.h2h3, page.anchors, page.spans);
      result := result[urls[i] := headlines];
      assert urls[..i + 1] == urls[..i] + [urls[i]];
      forall j | 0 <= j < i + 1 && urls[j] !in urls[j + 1..i + 1]
        ensures urls[j] in result && result[urls[j]] == PageHeadlines(pages[j])
      {
        if j < i {
          assert urls[j + 1..i + 1] == urls[j + 1..i] + [urls[i]];
        }
      }
    }
  }
}
