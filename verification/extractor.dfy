/**
 The image-candidate filter of `LinkedInScraper.extract_images`
 (bot.py:190-253): each `<img>` of the rendered page is judged by its `src`,
 `width` and `height` attributes, the accepted sources are collected in page
 order, and repeats are dropped.
 */
module Extractor {
  import opened Wrappers
  import opened Text
  import Dedup

  /**
   A `width` or `height` attribute as the size check sees it: absent or
   empty (`Missing`), present but rejected by `int()` (`Unparseable`), or an
   integer.
   */
  datatype Dimension = Missing | Unparseable | Num(value: int)

  /** One `<img>` element; `src` is `None` when the attribute is absent. */
  datatype ImgElement = ImgElement(src: Option<string>, width: Dimension, height: Dimension)

  /** Why an element was skipped, or that it was accepted. */
  datatype Verdict = NoSource | InlineData | Denied | NotHttp | TooSmall | Accepted

  /** Substrings of the lower-cased source that mark page chrome rather than content. */
  const DenyPatterns: seq<string> :=
    ["linkedin.com/in/", "/company-logo/", "/vector/", "sprite", "logo", "icon", "emoji", "reaction"]

  /** Images with both sides known and either side below this many pixels are icons. */
  const MinSide: int := 50

  /** Some deny pattern occurs in the lower-cased source. */
  predicate IsDenied(src: string) {
    ContainsAny(Lower(src), DenyPatterns)
  }

  /**
   The deny test already ignores case: a source and its lower-cased form
   are denied alike.
   */
  lemma DenyIgnoresCase(src: string)
    ensures IsDenied(Lower(src)) <==> IsDenied(src)
  {
    LowerIdempotent(src);
  }

  /** The size rule: both sides are integers and one of them is below `MinSide`. */
  predicate SizeRejects(width: Dimension, height: Dimension) {
    width.Num? && height.Num? && (width.value < MinSide || height.value < MinSide)
  }

  /**
   The rules applied in source order; the first that matches decides. An
   element is accepted exactly when its source is acceptable and the size
   rule does not fire.
   */
  function Classify(e: ImgElement): (v: Verdict)
    ensures v == Accepted <==> e.src.Some? && AcceptableSrc(e.src.value) && !SizeRejects(e.width, e.height)
  {
    match e.src
    case None => NoSource
    case Some(s) =>
      if s == [] then NoSource
      else if "data:" <= s then InlineData
      else if IsDenied(s) then Denied
      else if !("http" <= s) then NotHttp
      else if SizeRejects(e.width, e.height) then TooSmall
      else Accepted
  }

  /**
   What an accepted source looks like, independent of rule order: present,
   not inline data, free of every deny pattern, and an `http` address.
   */
  predicate AcceptableSrc(s: string) {
    s != [] && !("data:" <= s) && !IsDenied(s) && "http" <= s
  }

  /** A denied source is never accepted, whatever its size. */
  lemma DeniedWhateverSize(s: string, width: Dimension, height: Dimension)
    requires IsDenied(s)
    ensures Classify(ImgElement(Some(s), width, height)) in {InlineData, Denied}
  {
  }

  /**
   Size rejects only when both sides are integers: with either side
   missing or unparseable the verdict is the one a large image would get.
   */
  lemma SizeNeedsBothSides(src: Option<string>, width: Dimension, height: Dimension)
    requires !width.Num? || !height.Num?
    ensures Classify(ImgElement(src, width, height)) == Classify(ImgElement(src, Num(MinSide), Num(MinSide)))
    ensures Classify(ImgElement(src, width, height)) != TooSmall
  {
  }

  /** A `TooSmall` verdict names two integer sides, one below the minimum. */
  lemma TooSmallMeansKnownSmall(e: ImgElement)
    requires Classify(e) == TooSmall
    ensures e.width.Num? && e.height.Num?
    ensures e.width.value < MinSide || e.height.value < MinSide
    ensures e.src.Some? && AcceptableSrc(e.src.value)
  {
  }

  /** The rule chain lets the element through. */
  predicate IsAccepted(e: ImgElement) {
    Classify(e) == Accepted
  }

  /** The `src` attribute as collected; only present sources are ever accepted. */
  function SourceOf(e: ImgElement): string {
    if e.src.Some? then e.src.value else []
  }

  /** Some element of `es` that `accept` admits has source `u`. */
  ghost predicate CollectedFrom(es: seq<ImgElement>, accept: ImgElement -> bool, u: string) {
    exists i :: 0 <= i < |es| && accept(es[i]) && SourceOf(es[i]) == u
  }

  /**
   The sources of the elements `accept` admits, in page order: the
   `images.append(src)` loop with the rule chain as a parameter. Every
   collected source belongs to an admitted element, and the source of
   every admitted element is collected.
   */
  function Collect(es: seq<ImgElement>, accept: ImgElement -> bool): (r: seq<string>)
    ensures |r| <= |es|
    ensures forall k :: 0 <= k < |r| ==> CollectedFrom(es, accept, r[k])
    ensures forall i :: 0 <= i < |es| && accept(es[i]) ==> SourceOf(es[i]) in r
  {
    if |es| == 0 then []
    else
      var pre := es[..|es| - 1];
      var init := Collect(pre, accept);
      var e := es[|es| - 1];
      var r := if accept(e) then init + [SourceOf(e)] else init;
      CollectStepSound(es, accept, pre, init);
      CollectStepComplete(es, accept, pre, init);
      r
  }

  /** One step of the loop keeps every collected source backed by an admitted element. */
  lemma CollectStepSound(es: seq<ImgElement>, accept: ImgElement -> bool, pre: seq<ImgElement>, init: seq<string>)
    requires |es| > 0 && pre == es[..|es| - 1]
    requires forall k :: 0 <= k < |init| ==> CollectedFrom(pre, accept, init[k])
    ensures var e := es[|es| - 1];
      var r := if accept(e) then init + [SourceOf(e)] else init;
      forall k :: 0 <= k < |r| ==> CollectedFrom(es, accept, r[k])
  {
    var n := |es| - 1;
    var r := if accept(es[n]) then init + [SourceOf(es[n])] else init;
    forall k | 0 <= k < |r|
      ensures CollectedFrom(es, accept, r[k])
    {
      if k < |init| {
        assert r[k] == init[k];
        var i :| 0 <= i < n && accept(pre[i]) && SourceOf(pre[i]) == r[k];
        assert es[i] == pre[i];
      } else {
        assert accept(es[n]) && SourceOf(es[n]) == r[k];
      }
    }
  }

  /** One step of the loop keeps the source of every admitted element collected. */
  lemma CollectStepComplete(es: seq<ImgElement>, accept: ImgElement -> bool, pre: seq<ImgElement>, init: seq<string>)
    requires |es| > 0 && pre == es[..|es| - 1]
    requires forall i :: 0 <= i < |pre| && accept(pre[i]) ==> SourceOf(pre[i]) in init
    ensures var e := es[|es| - 1];
      var r := if accept(e) then init + [SourceOf(e)] else init;
      forall i :: 0 <= i < |es| && accept(es[i]) ==> SourceOf(es[i]) in r
  {
    var n := |es| - 1;
    var r := if accept(es[n]) then init + [SourceOf(es[n])] else init;
    forall i | 0 <= i < |es| && accept(es[i])
      ensures SourceOf(es[i]) in r
    {
      if i < n {
        assert es[i] == pre[i];
      }
    }
  }

  /** Collecting over two stretches of the page is collecting over each in turn. */
  lemma {:induction false} CollectAppend(a: seq<ImgElement>, b: seq<ImgElement>, accept: ImgElement -> bool)
    ensures Collect(a + b, accept) == Collect(a, accept) + Collect(b, accept)
    decreases |b|
  {
    if |b| == 0 {
      assert a + b == a;
    } else {
      var n := |b| - 1;
      assert (a + b)[..|a + b| - 1] == a + b[..n];
      assert (a + b)[|a + b| - 1] == b[n];
      CollectAppend(a, b[..n], accept);
    }
  }

  /** Some element of `es` is accepted and has source `u`. */
  ghost predicate AcceptedOn(es: seq<ImgElement>, u: string) {
    exists i :: 0 <= i < |es| && Classify(es[i]) == Accepted && es[i].src == Some(u)
  }

  /** An accepted element has a source, and that source passes every source rule. */
  lemma AcceptedSource(e: ImgElement)
    requires IsAccepted(e)
    ensures e.src == Some(SourceOf(e)) && AcceptableSrc(SourceOf(e))
  {
  }

  /**
   Collecting with the rule chain gathers exactly the sources of accepted
   elements, each of which passes every source rule.
   */
  lemma CollectAccepted(es: seq<ImgElement>)
    ensures forall u :: u in Collect(es, IsAccepted) <==> AcceptedOn(es, u)
    ensures forall u :: u in Collect(es, IsAccepted) ==> AcceptableSrc(u)
  {
    var c := Collect(es, IsAccepted);
    forall u
      ensures u in c <==> AcceptedOn(es, u)
      ensures u in c ==> AcceptableSrc(u)
    {
      if u in c {
        var k :| 0 <= k < |c| && c[k] == u;
        assert CollectedFrom(es, IsAccepted, c[k]);
        var i :| 0 <= i < |es| && IsAccepted(es[i]) && SourceOf(es[i]) == u;
        AcceptedSource(es[i]);
      }
      if AcceptedOn(es, u) {
        var i :| 0 <= i < |es| && Classify(es[i]) == Accepted && es[i].src == Some(u);
        assert IsAccepted(es[i]) && SourceOf(es[i]) == u;
      }
    }
  }

  /**
   The accepted sources in page order; a source accepted twice is listed
   twice. The list holds exactly the sources of accepted elements, and
   each passes every source rule.
   */
  function Candidates(es: seq<ImgElement>): (r: seq<string>)
    ensures |r| <= |es|
    ensures forall u :: u in r <==> AcceptedOn(es, u)
    ensures forall u :: u in r ==> AcceptableSrc(u)
  {
    CollectAccepted(es);
    Collect(es, IsAccepted)
  }

  /** Collecting over two stretches of the page is collecting over each in turn. */
  lemma CandidatesAppend(a: seq<ImgElement>, b: seq<ImgElement>)
    ensures Candidates(a + b) == Candidates(a) + Candidates(b)
  {
    CollectAppend(a, b, IsAccepted);
  }

  /**
   `extract_images` after the browser work: the accepted sources, each
   once, in the order they first appear on the page.
   */
  function ExtractImages(es: seq<ImgElement>): (r: seq<string>)
    ensures Dedup.NoDuplicates(r)
    ensures |r| <= |es|
  {
    Dedup.Dedup(Candidates(es))
  }

  /**
   The extracted list holds exactly the sources of accepted elements, and
   each passes every source rule.
   */
  lemma ExtractImagesExact(es: seq<ImgElement>)
    ensures forall u :: u in ExtractImages(es) <==> AcceptedOn(es, u)
    ensures forall u :: u in ExtractImages(es) ==> AcceptableSrc(u)
  {
    var c := Candidates(es);
    var r := ExtractImages(es);
    assert Dedup.SameElements(c, r);
    forall u
      ensures u in r <==> u in c
    {
      if u in r {
        var k :| 0 <= k < |r| && r[k] == u;
      }
      if u in c {
        var k :| 0 <= k < |c| && c[k] == u;
      }
    }
  }

  /** The extracted list keeps each source where it was first accepted. */
  lemma ExtractImagesOrder(es: seq<ImgElement>)
    ensures Dedup.InFirstOccurrenceOrder(Candidates(es), ExtractImages(es))
  {
    Dedup.DedupInFirstOccurrenceOrder(Candidates(es));
  }

  /** An accepted image listed twice is collected twice. */
  lemma CandidatesTwice(e: ImgElement)
    requires Classify(e) == Accepted
    ensures Candidates([e, e]) == [e.src.value, e.src.value]
  {
    var u := SourceOf(e);
    AcceptedSource(e);
    assert [e][..0] == [];
    assert Collect([e], IsAccepted) == [u];
    assert [e, e][..1] == [e];
    assert Collect([e, e], IsAccepted) == [u, u];
  }

  /** Two images of the same picture yield it once. */
  lemma DuplicateSourceOnce(e: ImgElement)
    requires Classify(e) == Accepted
    ensures ExtractImages([e, e]) == [e.src.value]
  {
    CandidatesTwice(e);
    Dedup.DedupRepeated(e.src.value);
  }

  /** A source that does not start with `http` is never accepted. */
  lemma NonHttpNotAccepted(s: string, width: Dimension, height: Dimension)
    requires !("http" <= s)
    ensures Classify(ImgElement(Some(s), width, height)) != Accepted
  {
  }

  /** The `http` test is case-sensitive: an upper-case scheme is not accepted. */
  lemma UpperCaseSchemeNotAccepted(rest: string, width: Dimension, height: Dimension)
    ensures Classify(ImgElement(Some("HTTP" + rest), width, height)) != Accepted
  {
    assert ("HTTP" + rest)[0] == 'H';
  }

  /** A logo is rejected even at full size. */
  lemma LargeLogoDenied()
    ensures Classify(ImgElement(Some("https://x/logo.png"), Num(800), Num(600))) == Denied
  {
    var s := "https://x/logo.png";
    assert Lower(s) == s;
    assert s[10..14] == "logo" == DenyPatterns[4];
    assert OccursAt(Lower(s), DenyPatterns[4], 10);
    assert Contains(Lower(s), DenyPatterns[4]);
    ContainsAnyIff(Lower(s), DenyPatterns);
    assert IsDenied(s);
    assert s[0] == 'h' && "data:"[0] == 'd';
  }
}
