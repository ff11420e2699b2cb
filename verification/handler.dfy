/**
 The decision and counting logic of `handle_url` (bot.py:375-462): the
 account and quota gates, URL validation, the cap on images sent, the
 per-image photo/link fallback, the usage-log rule and the remaining-quota
 figure. The chat API, the database and the browser are parameters: whether
 the account lookup succeeded, today's usage count, the page the browser
 renders for a URL, and whether each photo or link message went through.
 */
module Handler {
  import opened Wrappers
  import opened Text
  import Extractor

  /** Requests a user may make per day. */
  const DailyLimit: nat := 5

  /** At most this many images are sent per request. */
  const MaxImages: nat := 10

  /** The text a post URL must contain. */
  const PlatformDomain: string := "linkedin.com"

  /** How one image was delivered: as a photo, as a link after the photo failed, or not at all. */
  datatype SendResult = PhotoSent | LinkSent | NothingSent

  /** One delivery attempt, captioned "Image `position`/`total`". */
  datatype Attempt = Attempt(position: nat, total: nat, url: string, result: SendResult)

  /** The send loop's attempts and its two counters. */
  datatype Delivery = Delivery(attempts: seq<Attempt>, success: nat, failed: nat)

  /** One row written to the usage log. */
  datatype UsageLog = UsageLog(postUrl: string, imageCount: nat)

  /** The closing message: the counts and quota left, or that nothing could be sent. */
  datatype Summary = Complete(success: nat, failed: nat, remaining: int) | AllFailed

  /** How a request ends. */
  datatype Outcome =
    | UserMissing
    | LimitReached
    | InvalidUrl
    | NoImages(postUrl: string)
    | Delivered(postUrl: string, delivery: Delivery, log: Option<UsageLog>, summary: Summary)

  function Min(a: nat, b: nat): nat {
    if a <= b then a else b
  }

  /** Positions below `n` whose photo send succeeded. */
  function PhotoIndices(photoOk: nat -> bool, n: nat): set<nat> {
    set i: nat | i < n && photoOk(i)
  }

  /** Extending the range by one position adds it exactly when its photo went through. */
  lemma PhotoIndicesStep(photoOk: nat -> bool, n: nat)
    ensures |PhotoIndices(photoOk, n + 1)| == |PhotoIndices(photoOk, n)| + (if photoOk(n) then 1 else 0)
  {
    if photoOk(n) {
      assert PhotoIndices(photoOk, n + 1) == PhotoIndices(photoOk, n) + {n};
    } else {
      assert PhotoIndices(photoOk, n + 1) == PhotoIndices(photoOk, n);
    }
  }

  /**
   The attempt for position `i`: the photo, captioned with its 1-based
   position and the number of images; when the photo fails, the bare URL
   as text, whose own failure is ignored.
   */
  function AttemptAt(images: seq<string>, i: nat, photoOk: nat -> bool, linkOk: nat -> bool): (a: Attempt)
    requires i < |images|
    ensures a.url == images[i] && a.position == i + 1 && a.total == |images|
    ensures a.result == PhotoSent <==> photoOk(i)
    ensures a.result == LinkSent <==> !photoOk(i) && linkOk(i)
  {
    var result := if photoOk(i) then PhotoSent else if linkOk(i) then LinkSent else NothingSent;
    Attempt(i + 1, |images|, images[i], result)
  }

  /**
   The send loop over the first `n` images: one attempt per image in
   order; `success` counts the photos that went through and `failed` the
   rest. `photoOk(i)` and `linkOk(i)` say whether the photo and the link
   message for position `i` go through.
   */
  function SendPrefix(images: seq<string>, n: nat, photoOk: nat -> bool, linkOk: nat -> bool): (d: Delivery)
    requires n <= |images|
    ensures |d.attempts| == n
    ensures d.success + d.failed == n
    ensures d.success == |PhotoIndices(photoOk, n)|
    ensures forall i :: 0 <= i < n ==> d.attempts[i] == AttemptAt(images, i, photoOk, linkOk)
  {
    if n == 0 then Delivery([], 0, 0)
    else
      var d := SendPrefix(images, n - 1, photoOk, linkOk);
      var a := AttemptAt(images, n - 1, photoOk, linkOk);
      PhotoIndicesStep(photoOk, n - 1);
      if photoOk(n - 1) then Delivery(d.attempts + [a], d.success + 1, d.failed)
      else Delivery(d.attempts + [a], d.success, d.failed + 1)
  }

  /** The link fallback never changes the counters. */
  lemma CountersIgnoreLinkFallback(images: seq<string>, photoOk: nat -> bool, linkOk1: nat -> bool, linkOk2: nat -> bool)
    ensures SendPrefix(images, |images|, photoOk, linkOk1).success == SendPrefix(images, |images|, photoOk, linkOk2).success
    ensures SendPrefix(images, |images|, photoOk, linkOk1).failed == SendPrefix(images, |images|, photoOk, linkOk2).failed
  {
  }

  /**
   The part of `handle_url` after a non-empty extraction: cap the list,
   send each image, write the usage row and compose the summary.
   */
  function DeliverImages(url: string, images: seq<string>, todayUsage: nat,
                         photoOk: nat -> bool, linkOk: nat -> bool): (o: Outcome)
    requires |images| > 0 && todayUsage < DailyLimit
    ensures o.Delivered? && o.postUrl == url
    ensures |o.delivery.attempts| == Min(|images|, MaxImages)
    ensures 1 <= o.delivery.success + o.delivery.failed == |o.delivery.attempts| <= MaxImages
    ensures forall i :: 0 <= i < |o.delivery.attempts| ==> o.delivery.attempts[i].url == images[i]
    ensures o.delivery.success == |PhotoIndices(photoOk, Min(|images|, MaxImages))|
    ensures o.log == Some(UsageLog(url, o.delivery.success))
    ensures o.delivery.success > 0 ==>
      o.summary == Complete(o.delivery.success, o.delivery.failed, DailyLimit - (todayUsage + 1))
      && 0 <= o.summary.remaining < DailyLimit
    ensures o.delivery.success == 0 ==> o.summary == AllFailed
  {
    var sent := images[..Min(|images|, MaxImages)];
    var d := SendPrefix(sent, |sent|, photoOk, linkOk);
    // The source tests `success_count > 0 or failed_count > 0`.
    var log := if d.success > 0 || d.failed > 0 then Some(UsageLog(url, d.success)) else None;
    // The source writes the literal 4 here.
    var summary := if d.success > 0 then Complete(d.success, d.failed, 4 - todayUsage) else AllFailed;
    Delivered(url, d, log, summary)
  }

  /**
   `handle_url` with its collaborators as inputs: `userFound` is whether
   the account lookup returned a user, `todayUsage` the number of requests
   logged today, `text` the message, `render` the image elements the
   browser finds on a page, `photoOk`/`linkOk` the outcome of each send.
   */
  function HandleUrl(userFound: bool, todayUsage: nat, text: string,
                     render: string -> seq<Extractor.ImgElement>,
                     photoOk: nat -> bool, linkOk: nat -> bool): (o: Outcome)
    ensures o == UserMissing <==> !userFound
    ensures o == LimitReached <==> userFound && todayUsage >= DailyLimit
    ensures o == InvalidUrl <==>
      userFound && todayUsage < DailyLimit && !Contains(text, PlatformDomain)
    ensures o.NoImages? || o.Delivered? ==>
      userFound && todayUsage < DailyLimit && Contains(text, PlatformDomain) && o.postUrl == Strip(text)
    ensures o.NoImages? <==>
      userFound && todayUsage < DailyLimit && Contains(text, PlatformDomain)
      && Extractor.ExtractImages(render(Strip(text))) == []
    ensures o.Delivered? ==>
      o == DeliverImages(Strip(text), Extractor.ExtractImages(render(Strip(text))), todayUsage, photoOk, linkOk)
  {
    if !userFound then UserMissing
    else if todayUsage >= DailyLimit then LimitReached
    else
      var url := Strip(text);
      assert NoSpace(PlatformDomain);
      ContainsStrip(text, PlatformDomain);
      if !Contains(url, PlatformDomain) then InvalidUrl
      else
        var images := Extractor.ExtractImages(render(url));
        if |images| == 0 then NoImages(url)
        else DeliverImages(url, images, todayUsage, photoOk, linkOk)
  }

  /** The usage-log rows a request writes. */
  function UsageWrites(o: Outcome): seq<UsageLog> {
    if o.Delivered? && o.log.Some? then [o.log.value] else []
  }

  /**
   Exactly one usage row is written when images were found and sent, none
   otherwise; it records the number of photos delivered.
   */
  lemma OneUsageRowPerDelivery(userFound: bool, todayUsage: nat, text: string,
                               render: string -> seq<Extractor.ImgElement>,
                               photoOk: nat -> bool, linkOk: nat -> bool)
    ensures var o := HandleUrl(userFound, todayUsage, text, render, photoOk, linkOk);
      && |UsageWrites(o)| == (if o.Delivered? then 1 else 0)
      && (o.Delivered? ==> UsageWrites(o)[0] == UsageLog(Strip(text), o.delivery.success))
  {
  }

  /**
   Run one at a time, requests never push the day's count past the limit:
   a row is written only when the count was below it.
   */
  lemma UsageStaysWithinLimit(userFound: bool, todayUsage: nat, text: string,
                              render: string -> seq<Extractor.ImgElement>,
                              photoOk: nat -> bool, linkOk: nat -> bool)
    ensures var o := HandleUrl(userFound, todayUsage, text, render, photoOk, linkOk);
      |UsageWrites(o)| > 0 ==> todayUsage + |UsageWrites(o)| <= DailyLimit
  {
  }

  /**
   The account, quota and URL gates answer before the page is rendered or
   anything is sent: their outcomes do not depend on the page or the sends.
   */
  lemma GatesPrecedeExtraction(userFound: bool, todayUsage: nat, text: string,
                               render1: string -> seq<Extractor.ImgElement>,
                               render2: string -> seq<Extractor.ImgElement>,
                               photoOk1: nat -> bool, photoOk2: nat -> bool,
                               linkOk1: nat -> bool, linkOk2: nat -> bool)
    requires !userFound || todayUsage >= DailyLimit || !Contains(text, PlatformDomain)
    ensures HandleUrl(userFound, todayUsage, text, render1, photoOk1, linkOk1)
         == HandleUrl(userFound, todayUsage, text, render2, photoOk2, linkOk2)
  {
  }

  /**
   Fifteen extracted images: the first ten are attempted, in order, and
   the two counters add up to ten.
   */
  lemma FifteenImagesCapped(todayUsage: nat, text: string,
                            render: string -> seq<Extractor.ImgElement>,
                            photoOk: nat -> bool, linkOk: nat -> bool)
    requires todayUsage < DailyLimit && Contains(text, PlatformDomain)
    requires |Extractor.ExtractImages(render(Strip(text)))| == 15
    ensures var o := HandleUrl(true, todayUsage, text, render, photoOk, linkOk);
      && o.Delivered?
      && |o.delivery.attempts| == 10
      && o.delivery.success + o.delivery.failed == 10
      && forall i :: 0 <= i < 10 ==> o.delivery.attempts[i].url == Extractor.ExtractImages(render(Strip(text)))[i]
  {
  }

  /** Photo oracle of the partial-delivery scenario: only the second photo fails. */
  function SecondPhotoFails(i: nat): bool {
    i != 1
  }

  /** Link oracle that lets every fallback message through. */
  function EveryLinkSent(i: nat): bool {
    true
  }

  /** The send loop in the partial-delivery scenario. */
  lemma PartialSend(images: seq<string>)
    requires |images| == 3
    ensures var d := SendPrefix(images, 3, SecondPhotoFails, EveryLinkSent);
      d.success == 2 && d.failed == 1 && d.attempts[1].result == LinkSent
  {
    assert PhotoIndices(SecondPhotoFails, 3) == {0, 2};
  }

  /**
   Three images where only the second photo fails and its link goes out:
   two successes, one failure, and the log row records two images.
   */
  lemma PartialDelivery(todayUsage: nat, text: string,
                        render: string -> seq<Extractor.ImgElement>)
    requires todayUsage < DailyLimit && Contains(text, PlatformDomain)
    requires |Extractor.ExtractImages(render(Strip(text)))| == 3
    ensures var o := HandleUrl(true, todayUsage, text, render, SecondPhotoFails, EveryLinkSent);
      && o.Delivered?
      && o.delivery.success == 2 && o.delivery.failed == 1
      && o.delivery.attempts[1].result == LinkSent
      && o.log == Some(UsageLog(Strip(text), 2))
  {
    var images := Extractor.ExtractImages(render(Strip(text)));
    assert images[..Min(|images|, MaxImages)] == images;
    PartialSend(images);
  }
}
