/** Post-processing of the recogniser's output in `extract_text_from_pdf`
    (the same code in the web app and in the command-line tool). The
    rasteriser and the recogniser are not modelled: their output is given as
    a sequence of pages, each the strings recognised on it, in recognition
    order. */
module Ocr {
  import opened Text

  /** The strings `readtext` recognised on one page, in order. */
  type Page = seq<string>

  /** Both front ends refuse a document whose stripped text is shorter. */
  const MinContent: nat := 10

  /** A fragment survives when its stripped form has more than one character. */
  predicate Survives(fragment: string) {
    |Strip(fragment)| > 1
  }

  /** The stripped forms of the surviving fragments of one page, in
      recognition order: the inner loop's `page_text`. */
  function KeptOnPage(page: Page): (r: seq<string>)
    ensures |r| <= |page|
    ensures forall k :: 0 <= k < |r| ==> |r[k]| > 1 && IsTrimmed(r[k])
  {
    if page == [] then []
    else
      var f := page[|page| - 1];
      KeptOnPage(page[..|page| - 1]) + (if Survives(f) then [Strip(f)] else [])
  }

  /** The kept fragments of all pages, in page order: the outer loop's
      `all_text`. */
  function KeptFragments(pages: seq<Page>): (r: seq<string>)
    ensures forall k :: 0 <= k < |r| ==> |r[k]| > 1 && IsTrimmed(r[k])
  {
    if pages == [] then []
    else KeptFragments(pages[..|pages| - 1]) + KeptOnPage(pages[|pages| - 1])
  }

  /** The text `extract_text_from_pdf` returns: the kept fragments joined by
      newlines. */
  function ExtractedText(pages: seq<Page>): string {
    Join(KeptFragments(pages), "\n")
  }

  /** The content gate of both front ends: `len(text.strip()) < 10` refuses. */
  predicate EnoughContent(text: string) {
    |Strip(text)| >= MinContent
  }

  /** All the pages' fragments, one after another. */
  function Concat(pages: seq<Page>): Page {
    if pages == [] then [] else Concat(pages[..|pages| - 1]) + pages[|pages| - 1]
  }

  /** `extract_text_from_pdf` after recognition: for each page, strip every
      fragment and keep those longer than one character; append a page's
      kept fragments when there are any; join everything with newlines. */
  method ExtractText(pages: seq<Page>) returns (text: string)
    ensures text == ExtractedText(pages)
  {
    var allText: seq<string> := [];
    for i := 0 to |pages|
      invariant allText == KeptFragments(pages[..i])
    {
      var result := pages[i];
      var pageText: seq<string> := [];
      for j := 0 to |result|
        invariant pageText == KeptOnPage(result[..j])
      {
        var t := Strip(result[j]);
        if |t| > 1 {
          pageText := pageText + [t];
        }
        assert result[..j + 1][..j] == result[..j];
      }
      assert result[..|result|] == result;
      if pageText != [] {
        allText := allText + pageText;
      }
      assert pages[..i + 1][..i] == pages[..i];
    }
    assert pages[..|pages|] == pages;
    text := Join(allText, "\n");
  }

  /** Recognition order is kept: the fragments of a page split in two are the
      fragments of the first part followed by those of the second. */
  lemma {:induction false} KeptOnPageAppend(a: Page, b: Page)
    ensures KeptOnPage(a + b) == KeptOnPage(a) + KeptOnPage(b)
    decreases |b|
  {
    if b != [] {
      var b' := b[..|b| - 1];
      assert (a + b)[..|a + b| - 1] == a + b';
      KeptOnPageAppend(a, b');
    } else {
      assert a + b == a;
    }
  }

  /** Page order is kept: the fragments of a document split in two are those
      of its first pages followed by those of the rest. */
  lemma {:induction false} KeptFragmentsAppend(a: seq<Page>, b: seq<Page>)
    ensures KeptFragments(a + b) == KeptFragments(a) + KeptFragments(b)
    decreases |b|
  {
    if b != [] {
      var b' := b[..|b| - 1];
      assert (a + b)[..|a + b| - 1] == a + b';
      KeptFragmentsAppend(a, b');
    } else {
      assert a + b == a;
    }
  }

  /** Page boundaries do not matter: the result is what one long page holding
      every fragment in order would give. */
  lemma {:induction false} KeptFragmentsFlatten(pages: seq<Page>)
    ensures KeptFragments(pages) == KeptOnPage(Concat(pages))
  {
    if pages != [] {
      KeptFragmentsFlatten(pages[..|pages| - 1]);
      KeptOnPageAppend(Concat(pages[..|pages| - 1]), pages[|pages| - 1]);
    }
  }

  /** A page none of whose fragments survives adds nothing, wherever it is. */
  lemma {:induction false} BarrenPageAddsNothing(before: seq<Page>, page: Page, after: seq<Page>)
    requires forall f :: f in page ==> !Survives(f)
    ensures KeptFragments(before + [page] + after) == KeptFragments(before + after)
  {
    NothingSurvives(page);
    EmptyPageAddsNothing(before, page, after);
  }

  lemma {:induction false} EmptyPageAddsNothing(before: seq<Page>, page: Page, after: seq<Page>)
    requires KeptOnPage(page) == []
    ensures KeptFragments(before + [page] + after) == KeptFragments(before + after)
  {
    var withPage := before + [page];
    assert withPage[..|withPage| - 1] == before;
    assert KeptFragments(withPage) == KeptFragments(before);
    KeptFragmentsAppend(withPage, after);
    KeptFragmentsAppend(before, after);
  }

  lemma {:induction false} NothingSurvives(page: Page)
    requires forall f :: f in page ==> !Survives(f)
    ensures KeptOnPage(page) == []
  {
    if page != [] {
      NothingSurvives(page[..|page| - 1]);
    }
  }

  /** Every kept string is the stripped form, longer than one character, of
      one of the page's fragments. */
  lemma {:induction false} KeptComesFromPage(page: Page, x: string)
    requires x in KeptOnPage(page)
    ensures exists k :: 0 <= k < |page| && Strip(page[k]) == x && |x| > 1
  {
    var init := page[..|page| - 1];
    var f := page[|page| - 1];
    assert KeptOnPage(page) == KeptOnPage(init) + (if Survives(f) then [Strip(f)] else []);
    if x in KeptOnPage(init) {
      KeptComesFromPage(init, x);
      var k :| 0 <= k < |init| && Strip(init[k]) == x && |x| > 1;
      assert page[k] == init[k];
    } else {
      assert Strip(page[|page| - 1]) == x && |x| > 1;
    }
  }

  /** Every fragment whose stripped form is longer than one character has
      that stripped form kept. */
  lemma {:induction false} SurvivorIsKept(page: Page, k: nat)
    requires k < |page| && Survives(page[k])
    ensures Strip(page[k]) in KeptOnPage(page)
  {
    var init := page[..|page| - 1];
    var f := page[|page| - 1];
    if k < |init| {
      assert init[k] == page[k];
      SurvivorIsKept(init, k);
    } else {
      assert f == page[k];
    }
  }

  /** The filter in both directions: a string is kept from a page exactly when
      it is the stripped form of one of the page's fragments and is longer
      than one character. */
  lemma {:induction false} KeptOnPageMembership(page: Page, x: string)
    ensures x in KeptOnPage(page) <==>
      exists k :: 0 <= k < |page| && Strip(page[k]) == x && |x| > 1
  {
    if x in KeptOnPage(page) {
      KeptComesFromPage(page, x);
    }
    forall k | 0 <= k < |page| && Strip(page[k]) == x && |x| > 1
      ensures x in KeptOnPage(page)
    {
      SurvivorIsKept(page, k);
    }
  }

  /** The extracted text has no separator (indeed no whitespace) at either
      end, and it is empty exactly when no fragment survived. */
  lemma {:induction false} ExtractedTextShape(pages: seq<Page>)
    ensures IsTrimmed(ExtractedText(pages))
    ensures ExtractedText(pages) == [] <==> KeptFragments(pages) == []
  {
    JoinTrimmed(KeptFragments(pages), "\n");
  }

  /** Since the extracted text is already trimmed, the content gate measures
      the text itself: `len(text.strip())` is `len(text)`. */
  lemma {:induction false} ExtractedTextIsStripped(pages: seq<Page>)
    ensures Strip(ExtractedText(pages)) == ExtractedText(pages)
    ensures EnoughContent(ExtractedText(pages)) <==> |ExtractedText(pages)| >= MinContent
  {
    ExtractedTextShape(pages);
    StripTrimmed(ExtractedText(pages));
  }

  /** No recognised fragment contains a newline. */
  predicate NoNewlines(pages: seq<Page>) {
    forall i, k :: 0 <= i < |pages| && 0 <= k < |pages[i]| ==> '\n' !in pages[i][k]
  }

  /** Whatever is removed by stripping, stripping adds no character. */
  lemma {:induction false} StripSubstring(s: string, c: char)
    requires c !in s
    ensures c !in Strip(s)
  {
    var before, after := StripShape(s);
  }

  lemma {:induction false} KeptHasNoNewlines(pages: seq<Page>)
    requires NoNewlines(pages)
    ensures forall k :: 0 <= k < |KeptFragments(pages)| ==> '\n' !in KeptFragments(pages)[k]
  {
    if pages != [] {
      var init := pages[..|pages| - 1];
      var last := pages[|pages| - 1];
      KeptHasNoNewlines(init);
      forall x | x in KeptOnPage(last) ensures '\n' !in x {
        KeptOnPageMembership(last, x);
        var k :| 0 <= k < |last| && Strip(last[k]) == x && |x| > 1;
        assert '\n' !in last[k] by { assert last[k] == pages[|pages| - 1][k]; }
        StripSubstring(last[k], '\n');
      }
    }
  }

  /** When the recogniser returned no string containing a newline and at
      least one fragment survived, splitting the extracted text at newlines
      gives back exactly the kept fragments, in order. */
  lemma {:induction false} ExtractedTextSplits(pages: seq<Page>)
    requires NoNewlines(pages)
    requires KeptFragments(pages) != []
    ensures Split(ExtractedText(pages), '\n') == KeptFragments(pages)
  {
    KeptHasNoNewlines(pages);
    SplitJoin(KeptFragments(pages), '\n');
  }
}
