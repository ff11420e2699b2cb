# LinkedIn image bot: filter, dedup and delivery decisions

A Dafny model of the logic inside the chat bot that takes a LinkedIn post
URL, scrapes the post's images with a headless browser, sends them back to
the user and enforces a daily quota of five requests. The browser, the
Supabase database and the Telegram API are not modelled; what remains is
the pure logic that sits between those calls in `bot.py`:

- the image-candidate filter of `LinkedInScraper.extract_images`: each
  `<img>` is judged by its `src`, `width` and `height` in a fixed rule order
  (no source or inline `data:` source, deny-listed substring of the
  lower-cased source, non-`http` source, both sides integers with one below
  50 pixels, otherwise accepted);
- the order-preserving removal of duplicate URLs (the `seen` set loop);
- the decision and counting logic of `handle_url`: the account gate, the
  quota gate (`today_usage >= 5`), the `linkedin.com` check on the stripped
  message, the empty-result exit, the cap at ten images, the photo send with
  its text-link fallback, the success/failed counters, the usage-log write
  and the "downloads left" figure.

Files:

- `wrappers.dfy` — `Option`, the stand-in for Python's `None`.
- `text.dfy` — ASCII `lower()`, `strip()` with Python's whitespace set,
  prefix and substring tests, and the fact that stripping never changes
  whether a whitespace-free pattern occurs.
- `dedup.dfy` — `Dedup` as a function, the `seen`-set loop as a method, and
  the properties: no repeats, same elements, first-occurrence order,
  uniqueness of a list with those properties, idempotence.
- `extractor.dfy` — the element datatype (`Dimension = Missing |
  Unparseable | Num`), the rule chain `Classify`, candidate collection and
  `ExtractImages`.
- `handler.dfy` — the `Outcome` of a request (`UserMissing | LimitReached |
  InvalidUrl | NoImages | Delivered`), the send loop `SendPrefix`, and
  `HandleUrl`.

Collaborators become inputs: whether the account lookup returned a user,
today's usage count (`get_today_usage` returns 0 when the database call
fails, so the quota fails open; the model takes whatever count it is
given), the image elements the browser finds on the page for a URL, and
per-position oracles saying whether each photo send and each fallback link
send went through.

The `http` test at bot.py:219 is a case-sensitive prefix test, so
`HTTPS://…` is rejected and `httpfoo` passes it. The one-second pause at
bot.py:431 follows only successful photo sends.

## Model

| member | source | states |
|---|---|---|
| Text.Lower | bot.py:212 | lower-casing keeps the length, leaves no ASCII capital, and changes a character only when it is a capital, into its lower-case letter |
| Text.LowerIdempotent | bot.py:212 | lower-casing an already lower-cased source changes nothing |
| Text.Strip | bot.py:394 | the stripped message is a contiguous slice of the message, everything cut away at either end is whitespace, and the slice neither starts nor ends with whitespace |
| Text.ContainsAnyIff | bot.py:212 | the pattern-by-pattern test `any(pattern in s for pattern in patterns)` holds exactly when some pattern of the list occurs in the text |
| Text.ContainsStrip | bot.py:394-397 | testing the stripped message for a whitespace-free pattern such as `linkedin.com` gives the same answer as testing the raw message |
| Extractor.Classify | bot.py:195-236 | an element is accepted exactly when its source is present and non-empty, not `data:`, free of every deny pattern after lower-casing, starts with `http`, and the size rule does not fire |
| Extractor.DeniedWhateverSize | bot.py:200-216 | a source containing a deny pattern is rejected (as inline data or as denied) whatever its width and height |
| Extractor.SizeNeedsBothSides | bot.py:221-231 | with either side missing or unparseable the verdict is the one a full-size image gets, and never "too small" |
| Extractor.TooSmallMeansKnownSmall | bot.py:222-229 | a size rejection happens only with both sides parsed as integers and one of them below 50, and only after every source test passed |
| Extractor.NonHttpNotAccepted | bot.py:219-236 | a source not starting with `http` is never accepted |
| Extractor.UpperCaseSchemeNotAccepted | bot.py:219 | the `http` test is case-sensitive: a source starting `HTTP` is never accepted |
| Extractor.LargeLogoDenied | bot.py:200-216 | an 800x600 image whose URL contains `logo` is denied |
| Extractor.DenyIgnoresCase | bot.py:212-214 | the deny test gives the same answer for a source and for its lower-cased form |
| Extractor.AcceptedSource | bot.py:195-236 | an accepted element has a source, and that source passes every source rule |
| Extractor.Collect | bot.py:190-236 | the collected list is no longer than the element list, every collected source belongs to an element the rules admitted, and the source of every admitted element is collected |
| Extractor.CollectAppend | bot.py:190-236 | collection over two stretches of the page is the collection over the first followed by that over the second |
| Extractor.Candidates | bot.py:190-236 | a URL is collected exactly when some accepted element has it as its source, and every collected URL passes every source rule |
| Extractor.CandidatesAppend | bot.py:190-236 | collection over two stretches of the page is the collection over the first followed by that over the second (page order is kept) |
| Extractor.ExtractImages | bot.py:247-256 | the extracted list has no repeats and is no longer than the list of elements |
| Extractor.ExtractImagesExact | bot.py:190-256 | a URL is extracted exactly when some accepted element has it as its source, and every extracted URL passes every source rule |
| Extractor.ExtractImagesOrder | bot.py:247-256 | each extracted URL stands where it was first accepted |
| Extractor.CandidatesTwice | bot.py:190-236 | an accepted element listed twice is collected twice (collection itself does not drop repeats) |
| Extractor.DuplicateSourceOnce | bot.py:247-253 | an accepted element listed twice yields its source once |
| Dedup.Dedup | bot.py:247-253 | the deduplicated list has no repeats, has the same elements as the input and is no longer |
| Dedup.DedupLoop | bot.py:247-253 | the `seen`-set loop returns the deduplicated list: no repeats, same elements |
| Dedup.DedupInFirstOccurrenceOrder | bot.py:247-253 | the deduplicated list is ordered by the position of each element's first occurrence in the input, so it is a subsequence of the input |
| Dedup.DedupUnique | bot.py:247-253 | any list with exactly the input's elements in first-occurrence order equals the deduplicated list |
| Dedup.DedupOfDistinct | bot.py:247-253 | a list without repeats is left unchanged |
| Dedup.DedupRepeated | bot.py:247-253 | an element given twice in a row is kept once |
| Dedup.DedupIdempotent | bot.py:247-253 | deduplicating twice gives the same list as deduplicating once |
| Handler.AttemptAt | bot.py:423-443 | attempt i is captioned (i+1)/N, names the i-th URL, and is a sent photo exactly when that photo send succeeded, a sent link exactly when the photo failed and the link went through |
| Handler.SendPrefix | bot.py:420-443 | one attempt per image, in order, captioned i/N; success counts exactly the positions whose photo went through, failed the rest; the link is sent only after a failed photo |
| Handler.CountersIgnoreLinkFallback | bot.py:432-443 | whether the fallback link message goes through changes neither counter |
| Handler.DeliverImages | bot.py:413-458 | attempts are the first min(n, 10) extracted URLs, success counts exactly the attempted positions whose photo went through, success + failed equals the attempt count (between 1 and 10), one usage row with the success count is written, and the remaining quota reported after a success is 5 - (today's count + 1), between 0 and 4 |
| Handler.HandleUrl | bot.py:375-462 | a missing user is answered first, then a count of 5 or more, then a message without `linkedin.com`; an empty extraction ends with no images; otherwise the images are delivered from the stripped URL |
| Handler.OneUsageRowPerDelivery | bot.py:409-447 | exactly one usage row is written when images were found, none on every other path, and it records the number of photos sent |
| Handler.UsageStaysWithinLimit | bot.py:389-392 | a usage row is written only when the count given was below five, so that write never takes the given count past five |
| Handler.GatesPrecedeExtraction | bot.py:384-399 | a missing user, a reached limit or an invalid URL gives an outcome that does not depend on the page or on the sends |
| Handler.FifteenImagesCapped | bot.py:413-414 | with fifteen extracted images, the first ten are attempted in order and the counters add up to ten |
| Handler.PartialSend | bot.py:423-443 | three images with only the second photo failing give two successes, one failure, and a link attempt in second place |
| Handler.PartialDelivery | bot.py:423-447 | three images with only the second photo failing and its link sent: two successes, one failure, and the usage row records two |

## Left out

- Browser setup, navigation, the settle and scroll pauses and the final `driver.quit()` (bot.py:121-148, 242-245): browser automation and wall-clock waits; the page is an input.
- The debug pass over image attributes and the background-image scan (bot.py:154-188): they only log.
- Exceptions raised by an element's `get_attribute` or by the browser as a whole (bot.py:238-243, 258-260): foreign-call failures; a page that fails to render is modelled by a render input that yields fewer or no elements.
- Attribute parsing: Python's `int()` accepts signs, surrounding whitespace and `_` separators; the model takes the parse result as given instead of parsing the attribute text.
- Text.Lower: lower-cases ASCII only; Python's Unicode `lower()` also maps some non-ASCII characters to ASCII letters (U+0130 becomes `i` plus a combining dot), which could complete a deny pattern the model does not see.
- All Supabase access: `set_user_context`, `init_db`, `get_or_create_user`, `log_usage`, `get_today_usage` (bot.py:32-108): a remote database and the clock; the account lookup result and today's count are inputs, and a usage row is an output value.
- Handler.UsageStaysWithinLimit: speaks of one request and the count it is given; `get_today_usage` returns 0 when its query fails (bot.py:106-108), so a user with five rows can pass the gate and the daily total is not bounded across requests.
- The concurrency race between counting today's rows and writing a new one: the model handles one request at a time.
- Telegram message texts, keyboards, the `start`, `help`, `stats` and back-to-menu handlers, the error handler, `main` and environment loading (bot.py:263-373, 464-498): user interface and I/O.
- The processing-message edits and the outer `except` that reports "Something went wrong" (bot.py:402, 417, 460-462): chat I/O failures.
