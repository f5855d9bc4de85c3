/**
 * `sendMessengerResponse` (callback.php:71-95): chunk the reply and post each
 * non-empty chunk to the conversation, whatever happened to the previous one.
 * The HTTP call is the `transport` oracle; its answer only decides whether
 * the send is logged as failed.
 */
module Delivery {
  import opened Sanitizer
  import opened Solver

  /** What the webhook does to the outside world, in order: write a mid to the
      cache, call the model, post a message to the conversation. */
  datatype Effect =
    | Marked(mid: string)
    | Called(attempt: Attempt)
    | Sent(psid: string, text: string, delivered: bool)

  /** Whether posting `text` to conversation `psid` succeeds. */
  type Transport = (string, string) -> bool

  /** One send per non-empty chunk, in chunk order. */
  function Deliveries(psid: string, chunks: seq<string>, transport: Transport): seq<Effect>
    decreases |chunks|
  {
    if chunks == [] then []
    else
      var last := chunks[|chunks| - 1];
      Deliveries(psid, chunks[..|chunks| - 1], transport)
        + (if last == "" then [] else [Sent(psid, last, transport(psid, last))])
  }

  /** The sends `sendMessengerResponse($psid, $text)` makes. */
  function Outgoing(psid: string, text: string, transport: Transport): seq<Effect> {
    Deliveries(psid, Chunks(Sanitize(text), MessageLimit), transport)
  }

  /** The texts of the sends among `es`, in order. */
  function SentTexts(es: seq<Effect>): seq<string>
    decreases |es|
  {
    if es == [] then []
    else SentTexts(es[..|es| - 1]) + (if es[|es| - 1].Sent? then [es[|es| - 1].text] else [])
  }

  /** The chunks that are not empty, in order. */
  function NonEmpty(cs: seq<string>): seq<string>
    decreases |cs|
  {
    if cs == [] then []
    else NonEmpty(cs[..|cs| - 1]) + (if cs[|cs| - 1] == "" then [] else [cs[|cs| - 1]])
  }

  lemma SentTextsAppend(a: seq<Effect>, b: seq<Effect>)
    ensures SentTexts(a + b) == SentTexts(a) + SentTexts(b)
    decreases |b|
  {
    if b != [] {
      assert (a + b)[..|a + b| - 1] == a + b[..|b| - 1];
      SentTextsAppend(a, b[..|b| - 1]);
    } else {
      assert a + b == a;
    }
  }

  lemma {:induction false} ConcatNonEmpty(cs: seq<string>)
    ensures Concat(NonEmpty(cs)) == Concat(cs)
    decreases |cs|
  {
    if cs != [] {
      var p, x := cs[..|cs| - 1], cs[|cs| - 1];
      assert cs == p + [x];
      ConcatNonEmpty(p);
      ConcatAppend(p, [x]);
      ConcatAppend(NonEmpty(p), if x == "" then [] else [x]);
      assert Concat([x]) == x + Concat([]);
    }
  }

  /** Every send goes to `psid` with one non-empty chunk, and the sent texts are
      the non-empty chunks in order, whatever the transport answers. */
  lemma {:induction false} DeliveriesFacts(psid: string, chunks: seq<string>, transport: Transport)
    ensures var es := Deliveries(psid, chunks, transport);
      && SentTexts(es) == NonEmpty(chunks)
      && forall i :: 0 <= i < |es| ==>
           (es[i].Sent? && es[i].psid == psid && es[i].text != "" && es[i].text in chunks)
    decreases |chunks|
  {
    if chunks != [] {
      var p, x := chunks[..|chunks| - 1], chunks[|chunks| - 1];
      DeliveriesFacts(psid, p, transport);
      var tail := if x == "" then [] else [Sent(psid, x, transport(psid, x))];
      SentTextsAppend(Deliveries(psid, p, transport), tail);
      assert forall c :: c in p ==> c in chunks;
    }
  }

  /** `sendMessengerResponse`: one send per non-empty chunk to the given psid, in
      chunk order; together the sent texts are exactly the sanitised reply, each
      at most MessageLimit characters long; a failed send does not stop the rest. */
  lemma OutgoingFacts(psid: string, text: string, transport: Transport)
    ensures var es := Outgoing(psid, text, transport);
      && Concat(SentTexts(es)) == Sanitize(text)
      && forall i :: 0 <= i < |es| ==>
           (es[i].Sent? && es[i].psid == psid && es[i].text != "" && |es[i].text| <= MessageLimit)
  {
    var cs := Chunks(Sanitize(text), MessageLimit);
    DeliveriesFacts(psid, cs, transport);
    ChunksFacts(Sanitize(text), MessageLimit);
    ConcatNonEmpty(cs);
    ChunksConcat(Sanitize(text), MessageLimit);
  }

  /** A reply makes no send at all exactly when it sanitises to nothing, as an
      all-whitespace reply does. */
  lemma OutgoingEmptyIff(psid: string, text: string, transport: Transport)
    ensures Outgoing(psid, text, transport) == [] <==> Sanitize(text) == []
  {
    OutgoingFacts(psid, text, transport);
    if Sanitize(text) == [] {
      assert Chunks(Sanitize(text), MessageLimit) == [""];
      assert Outgoing(psid, text, transport) == Deliveries(psid, [], transport) + [];
    }
  }

  /** What is sent does not depend on whether earlier sends succeeded. */
  lemma {:induction false} TransportIrrelevant(psid: string, chunks: seq<string>, t1: Transport, t2: Transport)
    ensures |Deliveries(psid, chunks, t1)| == |Deliveries(psid, chunks, t2)|
    ensures SentTexts(Deliveries(psid, chunks, t1)) == SentTexts(Deliveries(psid, chunks, t2))
  {
    DeliveriesFacts(psid, chunks, t1);
    DeliveriesFacts(psid, chunks, t2);
    NonEmptyLength(psid, chunks, t1);
    NonEmptyLength(psid, chunks, t2);
  }

  lemma {:induction false} NonEmptyLength(psid: string, chunks: seq<string>, t: Transport)
    ensures |Deliveries(psid, chunks, t)| == |NonEmpty(chunks)|
    decreases |chunks|
  {
    if chunks != [] {
      NonEmptyLength(psid, chunks[..|chunks| - 1], t);
    }
  }

  /** A short reply with visible text goes out as exactly one message. */
  lemma ShortReplyIsOneSend(psid: string, text: string, transport: Transport)
    requires Visible(text) != [] && |text| <= MessageLimit
    ensures Outgoing(psid, text, transport) ==
            [Sent(psid, Sanitize(text), transport(psid, Sanitize(text)))]
  {
    var t := Sanitize(text);
    SanitizeSize(text);
    assert Chunks(t, MessageLimit) == [t];
    assert [t][..0] == [];
    assert Deliveries(psid, [t], transport) == [Sent(psid, t, transport(psid, t))];
  }

  /** A non-empty reply that sanitising leaves alone and that fits one message
      goes out as exactly that one message. */
  lemma FixedReplyIsOneSend(psid: string, text: string, transport: Transport)
    requires Sanitize(text) == text && text != [] && |text| <= MessageLimit
    ensures Outgoing(psid, text, transport) == [Sent(psid, text, transport(psid, text))]
  {
    assert Chunks(Sanitize(text), MessageLimit) == [text];
    assert [text][..0] == [];
    assert Deliveries(psid, [text], transport) == [Sent(psid, text, transport(psid, text))];
  }

  /** `sendMessengerResponse($psid, $text)`. */
  method SendResponse(psid: string, text: string, transport: Transport) returns (effects: seq<Effect>)
    ensures effects == Outgoing(psid, text, transport)
  {
    var chunks := ChunkForMessenger(text, MessageLimit);
    effects := [];
    for k := 0 to |chunks|
      invariant effects == Deliveries(psid, chunks[..k], transport)
    {
      var chunk := chunks[k];
      assert chunks[..k + 1][..k] == chunks[..k];
      if chunk == "" {
        continue;
      }
      effects := effects + [Sent(psid, chunk, transport(psid, chunk))];
    }
    assert chunks[..|chunks|] == chunks;
  }
}
