# A verified model of the Messenger homework-solver webhook

`callback.php` is the webhook of a Facebook Messenger bot. The bot forwards a
problem (typed text or a photo) to an OpenAI chat model and sends the answer
back to the same conversation. This project models its core in Dafny:

* **`Php`** (`php.dfy`): the PHP semantics the script relies on. These are the
  truthiness of strings and byte strings (`""` and `"0"` are falsy) and the
  built-in `trim` with its default character set `" \t\n\r\0\x0B"`.
* **`Sanitizer`** (`sanitizer.dfy`): `sanitize_plaintext` and
  `chunk_for_messenger`.
  * Sanitising collapses every run of spaces or tabs to one space. It then
    collapses every run of three or more newlines to two, and trims.
  * Chunking cuts the sanitised text into pieces of 1800 characters.
  * Proved: sanitising keeps every visible character in order, produces a
    normal form, and has exactly that form as its fixed points (so it is
    idempotent).
  * Proved: the chunks concatenate back to the text, each is at most the
    limit long, and all but the last are exactly that long.
* **`Dedup`** (`dedup.dfy`): the message-id cache. It is a class `MidCache`
  over the cache file, with `Load`, `SeenBefore`, `Save` and `MarkSeen`
  (`load_mid_cache`, `mid_seen_before`, `save_mid_cache`, `mark_mid_seen`).
  * The cache is an insertion-ordered sequence of `(mid, time)` stamps with
    distinct mids. That is the shape of the PHP array the script stores as
    JSON.
  * Proved: marking keeps the cache duplicate-free and bounded by
    `MID_CACHE_LIMIT` (200), and remembers the mid.
  * Proved: a marked mid stays remembered until exactly 200 newer distinct
    mids have been marked after it.
* **`Solver`** (`solver.dfy`): `callOpenAI`'s retry policy, and the mapping
  from the outcome of the call to the reply text in `getTextResponse` and
  `getImageResponse`.
  * The policy: one call, and on failure one retry on `gpt-4o-mini` with the
    same payload, unless that was already the model.
  * The model service is an oracle `Api` from the attempted call to an
    optional completion.
* **`Delivery`** (`delivery.dfy`): `sendMessengerResponse` as a method with
  its loop. It sends one message per non-empty chunk, and a failed send does
  not stop the rest. The Send API is an oracle `Transport`.
* **`Download`** (`download.dfy`): saving the image of an attachment to
  `query_image.jpg` (callback.php:242-255). The code as written and the
  evidently intended fallback are both modelled; see "## Findings".
* **`Webhook`** (`webhook.dfy`):
  * The GET subscription handshake.
  * The POST handler as methods over the cache object, with the two nested
    `foreach` loops. Each loop is proved against a functional specification
    `Run`, which threads the cache file through the events and collects the
    effects in order.
  * Effects are: a mid written to the cache, a model call, and a message
    sent.
* **`Dispatch`** (`dispatch.dfy`): what that loop guarantees.
  * Echoes and events without a sender are skipped.
  * A seen mid is skipped silently.
  * A fresh mid is written before the event is answered.
  * The same message twice in one request is answered once.
  * The precedence is text, then an image as the first attachment, then a
    postback.
  * Every answer makes at most two model calls and sends exactly the
    sanitised reply to the sender.
  * A redelivered webhook body gets no answer at all, provided every event
    it answers carries a mid, those mids are distinct and not yet cached,
    and there are at most 200 of them.

The environment is passed in as parameters (`Webhook.Env`):
* the model service `api`;
* the outside world of the image download (`Download.Web`): what
  `file_get_contents($url)` returns, whether the image file can be written,
  and what the curl fallback leaves in it;
* the Send API `transport`;
* the clock reading `now`.

Where the repository's design description and `callback.php` disagree, the
model follows the code:

* **Image path.** The design describes a two-stage extract-then-solve image
  pipeline, with a minimum-length gate. The code makes a single vision call
  on the image (`getImageResponse`), and that is what is modelled.
* **Missing content.** The design treats a completion without content as a
  failure to be retried. The code answers it with "I didn't get a response
  from the solver" without a retry (callback.php:162-163, 192-193).
* **Unreachable URL.** The design says an unreachable image URL gets the
  "no valid link" reply. In the code that reply is only for a missing or
  falsy URL. A download that gets nothing leaves the image file empty, which
  gives "I couldn't read the image" (callback.php:169-170, 259-260).
* **Zero replies.** The design promises at least one reply for every
  processed event. In the code an event with none of text, image or postback
  gets no reply. So does an answer that sanitises to the empty string (for
  example, one that is all whitespace). `Delivery.OutgoingEmptyIff` and
  `Dispatch.NothingToAnswer` state this.

## Model

| member | source | states |
|---|---|---|
| Php.TrimStartFacts | callback.php:59 | `trim` strips exactly the leading run of trim-space characters: all of them, and no more |
| Php.TrimEndFacts | callback.php:59 | the same for the trailing run |
| Php.TrimBounds | callback.php:59 | the kept range lies within the string, and is non-empty unless everything is trim-space |
| Php.TrimFacts | callback.php:59 | the result of `trim` starts and ends with a kept character; `trim` leaves a trimmed string unchanged and never lengthens |
| Php.TrimEmptyIff | callback.php:59 | `trim` returns the empty string iff every character is trim-space |
| Php.TrimMiddle | callback.php:59 | when something is kept, `trim` returns the middle piece between the stripped prefix and the stripped suffix |
| Php.TrimIsSlice | callback.php:59 | `trim` returns the empty string exactly for an all-whitespace string; otherwise it returns the middle piece, between the stripped prefix and the stripped suffix |
| Sanitizer.SkipBlanksFacts | callback.php:57 | skipping a run of blanks leaves a suffix that does not start with a blank |
| Sanitizer.NewlineRunFacts | callback.php:58 | the measured run of newlines is all newlines and is maximal |
| Sanitizer.VisibleOfSpace | callback.php:59 | whitespace that is trimmed away holds no visible character |
| Sanitizer.SkipBlanksVisible | callback.php:57 | a skipped run of blanks holds no visible character |
| Sanitizer.CollapseBlanksVisible | callback.php:57 | collapsing `[ \t]+` to one space keeps the visible characters in order |
| Sanitizer.CollapseNewlinesVisible | callback.php:58 | collapsing `\n{3,}` to two newlines keeps the visible characters in order |
| Sanitizer.TrimVisible | callback.php:59 | trimming keeps the visible characters in order |
| Sanitizer.SanitizeKeepsVisible | callback.php:54-60 | sanitising drops only whitespace: the non-whitespace characters of the reply survive in order |
| Sanitizer.CollapseBlanksShape | callback.php:57 | after the first replacement there is no tab and no double space; the result is empty iff the input is; the first character maps as the regex does; a string with no tab and no double space is unchanged |
| Sanitizer.CollapseNewlinesHead | callback.php:58 | the second replacement yields an empty result iff its input is empty, and keeps the first character |
| Sanitizer.CollapseNewlinesNoTriple | callback.php:58 | after the second replacement no three newlines are adjacent |
| Sanitizer.CollapseNewlinesKeeps | callback.php:58 | the second replacement introduces no tab and no double space |
| Sanitizer.CollapseNewlinesFixed | callback.php:58 | the second replacement leaves a text without three adjacent newlines unchanged |
| Sanitizer.TrimShape | callback.php:59 | trimming keeps the absence of tabs, double spaces and triple newlines |
| Sanitizer.SanitizeNormalForm | callback.php:54-60 | every sanitised text has no tab, double space or triple newline, and nothing to trim |
| Sanitizer.SanitizeFixedIff | callback.php:54-60 | `sanitize_plaintext` leaves a text unchanged iff the text is already in that normal form |
| Sanitizer.SanitizeIdempotent | callback.php:54-60 | sanitising twice is sanitising once (`chunk_for_messenger` re-sanitises an already sanitised reply) |
| Sanitizer.CollapseShrinks | callback.php:57-58 | neither replacement lengthens the text |
| Sanitizer.SanitizeSize | callback.php:54-60 | sanitising never lengthens, and a reply with any visible character stays non-empty |
| Sanitizer.JoinWithSpace | callback.php:260 | two normal one-line texts joined by one space are in normal form; the fixed notice is checked piece by piece with this |
| Sanitizer.ConcatAppend | callback.php:65-66 | concatenating the pieces of two lists is concatenating the lists' concatenations |
| Sanitizer.ChunksFacts | callback.php:61-68 | at least one chunk; each at most `limit` long; all but the last exactly `limit` long; a text within the limit is one chunk, itself; a longer text has no empty chunk |
| Sanitizer.ChunksFrom | callback.php:65-66 | the cut from position `i` takes `mb_substr($text, $i, $limit)` and then goes on from `i + limit` |
| Sanitizer.ChunksConcat | callback.php:61-68 | the chunks concatenate back to the text: nothing is lost, duplicated or reordered |
| Sanitizer.ChunkForMessenger | callback.php:61-68 | the method returns the chunks of the sanitised text |
| Sanitizer.Cut | callback.php:63-67 | the loop cutting a text into `limit`-sized pieces computes exactly those chunks |
| Dedup.SameMidsSameKeys | callback.php:49 | overwriting a time in place keeps the set of keys and their distinctness |
| Dedup.PutFacts | callback.php:49 | `$cache[$mid] = time()` adds exactly `mid` to the keys and keeps them distinct. A new key is appended at the end. An existing key keeps its position with the new time, and every other entry is unchanged |
| Dedup.SuffixKeys | callback.php:38-40 | keeping a suffix adds no key and keeps keys distinct |
| Dedup.MarkFacts | callback.php:47-51 | after `mark_mid_seen` the cache is duplicate-free, holds at most 200 entries, contains the mid, and has gained no other key |
| Dedup.KeepLastAppend | callback.php:38-40 | truncating to the last N, appending, and truncating again is truncating once |
| Dedup.MarkAllFresh | callback.php:36-51 | marking new distinct mids one by one leaves exactly the last 200 stamps of all of them, in insertion order, with their times |
| Dedup.KeyInSuffix | callback.php:38-40 | an entry's mid survives truncation iff the entry lies in the kept suffix |
| Dedup.Retention | callback.php:36-51 | a marked mid is still seen after later distinct marks iff fewer than 200 came after it: the oldest is evicted first |
| Dedup.KeyAt | callback.php:45 | a key of the cache is the mid of one of its entries, and conversely |
| Dedup.AppendKeys | callback.php:49 | appending a stamp adds exactly its mid to the keys |
| Dedup.RecentAfterAppend | callback.php:38-40 | after appending and truncating, the most recent `k + 1` entries are the old most recent `k` entries followed by the new one |
| Dedup.FreshMarkKeepsRecent | callback.php:47-51 | marking a new mid keeps the mids of the most recent `k < 200` entries and adds the new one right after them |
| Dedup.FreshMarkRemembers | callback.php:47-51 | a freshly marked mid is seen afterwards |
| Dedup.MidCache.constructor | callback.php:30-35 | a cache object over a file whose stored array has distinct keys |
| Dedup.MidCache.Load | callback.php:30-35 | a missing or undecodable cache file reads as the empty cache; a valid file reads as a duplicate-free one |
| Dedup.MidCache.SeenBefore | callback.php:43-46 | `mid_seen_before` holds exactly when some stored entry carries the mid |
| Dedup.MidCache.Save | callback.php:36-42 | the file afterwards holds the last 200 entries of the cache, in order, still duplicate-free |
| Dedup.MidCache.MarkSeen | callback.php:47-51 | the file afterwards is the loaded cache with the mid stamped `now`, truncated to 200, duplicate-free |
| Solver.CallOpenAIPolicy | callback.php:99-116 | the first call is always made. A success returns with no second call. A failure is retried exactly once, on `gpt-4o-mini` with the identical payload, and iff the model was not already `gpt-4o-mini`. The result is missing iff every call made failed; otherwise it is the last call's completion |
| Solver.TextReplyCases | callback.php:147-164 | the text reply is chosen by which call succeeded: the sanitised content of the first success, "didn't get a response" for missing or falsy content, "couldn't reach the solver" when both calls fail, together with the calls made |
| Solver.ImageReplyCases | callback.php:167-194 | empty or falsy image bytes give "couldn't read the image" with no model call; otherwise the same mapping on the vision model with the vision texts |
| Solver.ReplyAttempts | callback.php:147-194 | a text reply makes one or two calls, the text model first and only the fallback second. An image reply makes at most two calls, all on the same image payload |
| Delivery.ConcatNonEmpty | callback.php:74 | dropping empty chunks does not change what they concatenate to |
| Delivery.SentTextsAppend | callback.php:73-95 | the texts sent by two runs of sends are those of the first followed by those of the second |
| Delivery.DeliveriesFacts | callback.php:73-95 | the messages sent are exactly the non-empty chunks, in order, to the given psid, whatever the transport answers |
| Delivery.OutgoingFacts | callback.php:71-96 | together the sends spell out exactly the sanitised reply; each goes to the psid, is non-empty and is at most 1800 characters |
| Delivery.OutgoingEmptyIff | callback.php:71-96 | nothing is sent iff the reply sanitises to the empty string |
| Delivery.TransportIrrelevant | callback.php:89-94 | a failed send does not change what else is sent: the sends are the same whatever the transport answers |
| Delivery.NonEmptyLength | callback.php:73-74 | one send per non-empty chunk |
| Delivery.ShortReplyIsOneSend | callback.php:61-63 | a reply of at most 1800 characters with something visible is sent as one message, its sanitised text |
| Delivery.FixedReplyIsOneSend | callback.php:61-63 | an already normal non-empty reply within the limit is sent as itself, in one message |
| Delivery.SendResponse | callback.php:71-96 | the loop makes exactly the sends of `Outgoing`, whose properties are the lemmas above |
| Download.FallbackSkippedOnFailedDownload | callback.php:242-243 | as written, a failed direct download into a writable file leaves the file empty, and differs from the intended result whenever curl would have fetched something |
| Download.FallbackSkippedExample | callback.php:242-243 | a concrete case: the download fails, the file is writable, curl gets one byte; the image is lost as written and kept with the fallback |
| Download.SavedKeepsAnyDownload | callback.php:242-255 | with the fallback as intended, the file holds the direct download when that got something and could be written, and otherwise what curl fetched; it is empty only when both routes got nothing |
| Download.SavedAgrees | callback.php:242-255 | the code as written and the intended fallback agree whenever the direct download succeeds or the write fails |
| Webhook.VerifyIff | callback.php:197-207 | for any query carrying `hub_mode`, `hub_verify_token` and `hub_challenge` (and any other parameters), the handshake echoes the challenge iff the mode is "subscribe" and the token equals VERIFY_TOKEN; otherwise it answers 403 |
| Webhook.DottedNamesAccepted | callback.php:198-200 | the `??` fallback keys `hub.mode`, `hub.verify_token` and `hub.challenge` would act exactly like the underscored ones. PHP already renames dotted parameter names to underscores in `$_GET`, so in a real request the fallback is never reached, and that renaming is what makes the dotted names work |
| Webhook.DefaultToken | callback.php:18 | with VERIFY_TOKEN unset or falsy, the handshake succeeds exactly for mode "subscribe" and token "test" |
| Webhook.RunAppend | callback.php:213-214 | handling the events of two entries one after the other is handling their concatenation: the cache state threads through, and the effects concatenate |
| Webhook.RunPrefix | callback.php:214 | handling one more event is one more step on the cache state left by the earlier ones |
| Webhook.RespondTo | callback.php:229-266 | routing an event and sending its reply makes exactly the reply's model calls, then its sends |
| Webhook.HandleEvent | callback.php:215-266 | one iteration of the inner loop: the cache file and the effects are those of one `Step`, and the cache stays duplicate-free |
| Webhook.HandleEntry | callback.php:214-267 | the inner loop over one entry's events equals `Run` over them |
| Webhook.HandlePost | callback.php:210-268 | the POST branch: no effect for a body without entries, otherwise `Run` over the events of all entries in order |
| Dispatch.CallsAppend | callback.php:213-268 | the model calls of two effect logs are those of the first followed by those of the second |
| Dispatch.MarksAppend | callback.php:213-268 | the cache writes of two effect logs are those of the first followed by those of the second |
| Dispatch.FiltersAppend | callback.php:213-268 | the model calls, cache writes and sends of two effect logs are those of the first followed by those of the second |
| Dispatch.CallsOfCalls | callback.php:99-116 | the call effects of a reply are exactly its attempts, with no write and no send |
| Dispatch.OnlySends | callback.php:73-95 | a log of sends holds no model call and no cache write |
| Dispatch.SkippedEvents | callback.php:215-218 | an echo or an event without a (truthy) sender id has no effect and leaves the cache file unchanged |
| Dispatch.SeenMidSilent | callback.php:220-225 | an event whose mid is in the cache has no effect and leaves the cache file unchanged |
| Dispatch.FreshMidMarkedFirst | callback.php:220-227 | a fresh event with a mid first writes the mid to the cache, stamped `now`, and only then is answered; the mid is seen afterwards |
| Dispatch.NoMidNoDedup | callback.php:220-221 | an event without a (truthy) mid leaves the cache alone and is answered whatever the cache holds |
| Dispatch.RunOne | callback.php:214 | a batch of one event is its single step |
| Dispatch.RunTwo | callback.php:214 | a batch of two events is the second step on the state left by the first |
| Dispatch.DuplicateInBatch | callback.php:220-227 | the same message twice in one request is answered once: the second copy has no effect |
| Dispatch.MembersAppend | callback.php:220-227 | appending a mid adds exactly that mid to the answered set |
| Dispatch.RedeliverablePrefix | callback.php:213-268 | the conditions for recognising a redelivery hold for every prefix of the batch |
| Dispatch.MarkAddsOnly | callback.php:47-51 | a mark adds no key but its own mid |
| Dispatch.RunKeys | callback.php:213-268 | any batch adds no key to the cache except the mids of the events it does not skip as echoes or sender-less |
| Dispatch.RunLast | callback.php:214 | the cache after a batch is the cache after its last step |
| Dispatch.LastIsFresh | callback.php:220-227 | in a redeliverable batch, the last answered event's mid is not yet cached when that event is reached |
| Dispatch.RememberedMark | callback.php:47-51 | a fresh mark appends the mid to the most recent entries the cache remembers |
| Dispatch.RemembersStep | callback.php:220-227 | answering one event with an uncached mid adds that mid to the most recent entries the cache remembers |
| Dispatch.RunSkipsLast | callback.php:215-218 | a skipped last event (an echo or one without a sender) changes neither the cache nor the answered mids |
| Dispatch.RemembersLast | callback.php:213-227 | if the cache remembers the answered mids of a redeliverable batch without its last event, it remembers those of the whole batch |
| Dispatch.RunRemembers | callback.php:213-268 | after a batch of fresh messages (at most 200), the most recent entries of the cache hold exactly their mids, as a set |
| Dispatch.AnsweredMidsCover | callback.php:215-227 | the mid of every answered event of a batch is among its answered mids |
| Dispatch.RunSilent | callback.php:213-268 | a batch whose every non-skipped event has a cached mid has no effect at all |
| Dispatch.Redelivery | callback.php:213-268 | for a batch whose answered events all carry mids, distinct, uncached and at most 200: handling it a second time, at any time and whatever the services answer, has no effect and leaves the cache unchanged |
| Dispatch.RedeliveredWebhookSilent | callback.php:210-268 | Messenger posting the same webhook body twice gets it answered only once, for a body whose answered events carry distinct, uncached mids, at most 200 |
| Dispatch.OutgoingOnlySends | callback.php:71-96 | sending a reply makes no model call and no cache write |
| Dispatch.AnswerEffects | callback.php:229-266 | the calls, then the sends of a reply: exactly the reply's calls, no cache write, and the sanitised reply text, all to the psid |
| Dispatch.ReplyEffects | callback.php:229-266 | answering a routed event makes exactly its reply's model calls, writes nothing to the cache, and sends exactly the sanitised reply to the event's sender |
| Dispatch.TextTakesPrecedence | callback.php:230-236 | once a message has text, its attachments and any postback do not matter |
| Dispatch.TextIsTrimmed | callback.php:230-233 | the text is trimmed before it is solved: surrounding whitespace does not change the answer. The first call is the text model on the trimmed text, and the only other call is the fallback on the same text |
| Dispatch.ImageBeforePostback | callback.php:236-264 | without text, an image as the first attachment takes precedence over a postback |
| Dispatch.ImageWithUrl | callback.php:239-258 | an image with a URL is solved from the downloaded bytes: at most two calls, all on that image, and the sanitised image reply is sent; unreadable bytes make no call and send "couldn't read the image" |
| Dispatch.FailedDownloadNotSolved | callback.php:242-256 | an image whose direct download fails into a writable file makes no model call and is answered with "I couldn't read the image", whatever curl could have fetched |
| Dispatch.NoValidLinkIsNormal | callback.php:260 | sanitising leaves the no-link notice unchanged (proved from three phrases of the notice, each in normal form on one line, joined by single spaces, with the helper lemmas `NoValidLinkStart`, `NoValidLinkMiddle`, `NoValidLinkEnd`, `NoValidLinkFirstJoin` and `NoValidLinkSecondJoin`) |
| Dispatch.NoLinkReply | callback.php:259-260 | an image without a (truthy) URL is answered with the fixed notice, in one message, with no model call |
| Dispatch.PostbackReply | callback.php:264-266 | otherwise a postback is answered with "Tapped: " and its payload, sanitised, with no model call |
| Dispatch.NothingToAnswer | callback.php:229-266 | an event with none of text, image-first attachment or postback gets no model call and no send |

## Findings

| source | as written | input that shows it | evidently intended | confidence | as-written member | corrected member |
|---|---|---|---|---|---|---|
| callback.php:242-243 | `$ok === false` after `file_put_contents(SAVE_IMAGE_PATH, @file_get_contents($url))`. A failed download returns false, which is written as the empty string, so `$ok` is 0, not false, and the curl fallback is skipped | an attachment URL the direct download cannot fetch but curl can (for example, one that needs a redirect followed); the file is left empty and the user gets "I couldn't read the image" | fall back to curl whenever nothing was written (`if (!$ok)`) | medium, not executed | Download.SavedAsWritten, Download.FallbackSkippedOnFailedDownload, Download.FallbackSkippedExample | Download.Saved, Download.SavedKeepsAnyDownload |

The webhook model reads the image through `Download.SavedAsWritten`, as the
code does, so a failed direct download into a writable file is answered with
"I couldn't read the image" and no model call (`Dispatch.FailedDownloadNotSolved`).
`Download.Saved` is the corrected download, with its property proved beside it.

## Left out

- HTTP itself is not modelled. This covers the request method switch, status
  codes and `exit`, reading `php://input`, and `json_decode` of the body. The
  POST handler takes the decoded body as `Option<seq<Entry>>`: `None` is a
  body that is falsy or has no `entry` member.
- cURL and the Graph API request body are not modelled. A send is the
  `transport` oracle, whose answer only decides whether a failure would be
  logged.
- The OpenAI client and the `try`/`catch` are the `api` oracle. An exception
  is `None`, and a response is its optional message content.
- The image download is modelled by `Download.Web`. `get` is what
  `file_get_contents($url)` returns, `writable` says whether
  `query_image.jpg` can be written, and `curl` gives the bytes the file
  holds after the curl fallback. Reading the file back, `unlink`, and the
  case of `fopen` failing inside the fallback are not modelled separately.
- Sanitizer.ChunkForMessenger and Sanitizer.Cut require `limit > 0`. In the
  code, `chunk_for_messenger` with a limit of 0 or less and a sanitised text
  longer than the limit never terminates, because `$i += $limit` never
  reaches the length (callback.php:65). The only caller passes 1800.
- PHP's renaming of dots to underscores in query parameter names is not
  modelled. The query map is taken as `$_GET` after that renaming, so the
  dotted fallback keys at callback.php:198-200 are dead in practice.
- Base64 encoding of the image, the data-URL format and the text of the
  system prompt are left out. The payload is modelled as the problem (text or
  image bytes) and `max_tokens` (900 for text, 1100 for images).
- The floating-point sampling parameters (`temperature`, `top_p`,
  `frequency_penalty`, `presence_penalty`) are constants the model does not
  depend on, so they are left out.
- Logging is left out: the debug log, `showlog`, and the OpenAI error log.
- `usleep(250000)` between sends is left out. Pacing has no observable effect
  in the model.
- `time()` is one reading `now` per request. The script may read a later
  time for a later mark in the same request. The stored times are never read
  back. Eviction depends only on the position of an entry in the cache.
- Simultaneous requests racing on `mids_cache.json` are not modelled. Each
  request is handled alone, in sequence.
- Failed writes of the cache file (`@file_put_contents`) are not modelled.
  The model treats every save as successful.
- A cache file that decodes to a PHP array is assumed to hold string keys
  with time values, as `save_mid_cache` writes it. PHP's conversion of
  numeric-string keys to integers, and `isset` on a null value, are not
  modelled.
- Texts are sequences of Unicode characters, so `mb_strlen` and `mb_substr`
  count characters. The `/u` regex modifier failing on invalid UTF-8 is not
  modelled.
- Dispatch.Redelivery: proved only for a batch that satisfies
  `Redeliverable`. Every answered event must carry a mid, the mids must be
  distinct and new to the cache, and there are at most 200 of them. Outside
  these conditions a redelivery can be answered again, for example when more
  than 200 newer mids evicted the first ones.
- Dispatch.RedeliveredWebhookSilent: proved only for a body whose events
  satisfy `Redeliverable`, like `Dispatch.Redelivery`. A redelivered postback
  or an event without a mid is answered again, as in the code.
- Dedup.Retention: stated only for later mids that are distinct from each
  other and from the whole starting cache. It does not cover a mid that was
  evicted earlier and is marked again, which the dispatcher allows.
