/**
 * What the POST loop of callback.php (callback.php:213-268) guarantees:
 * which events are skipped, how duplicates are suppressed by message id,
 * how an event is routed and answered, and that a redelivered batch is not
 * answered again.
 */
module Dispatch {
  import opened Wrappers
  import opened Php
  import opened Sanitizer
  import opened Dedup
  import opened Solver
  import opened Delivery
  import opened Download
  import opened Webhook

  /** The model calls among `es`, in order. */
  function CallsMade(es: seq<Effect>): seq<Attempt>
    decreases |es|
  {
    if es == [] then []
    else CallsMade(es[..|es| - 1]) + (if es[|es| - 1].Called? then [es[|es| - 1].attempt] else [])
  }

  /** The mids written to the cache among `es`, in order. */
  function MarksMade(es: seq<Effect>): seq<string>
    decreases |es|
  {
    if es == [] then []
    else MarksMade(es[..|es| - 1]) + (if es[|es| - 1].Marked? then [es[|es| - 1].mid] else [])
  }

  lemma {:induction false} CallsAppend(a: seq<Effect>, b: seq<Effect>)
    ensures CallsMade(a + b) == CallsMade(a) + CallsMade(b)
    decreases |b|
  {
    if b == [] {
      assert a + b == a;
    } else {
      var p, x := b[..|b| - 1], b[|b| - 1];
      assert (a + b)[..|a + b| - 1] == a + p && (a + b)[|a + b| - 1] == x;
      CallsAppend(a, p);
    }
  }

  lemma {:induction false} MarksAppend(a: seq<Effect>, b: seq<Effect>)
    ensures MarksMade(a + b) == MarksMade(a) + MarksMade(b)
    decreases |b|
  {
    if b == [] {
      assert a + b == a;
    } else {
      var p, x := b[..|b| - 1], b[|b| - 1];
      assert (a + b)[..|a + b| - 1] == a + p && (a + b)[|a + b| - 1] == x;
      MarksAppend(a, p);
    }
  }

  /** The model calls, cache writes and sends of two logs are those of the
      first followed by those of the second. */
  lemma FiltersAppend(a: seq<Effect>, b: seq<Effect>)
    ensures CallsMade(a + b) == CallsMade(a) + CallsMade(b)
    ensures MarksMade(a + b) == MarksMade(a) + MarksMade(b)
    ensures SentTexts(a + b) == SentTexts(a) + SentTexts(b)
  {
    CallsAppend(a, b);
    MarksAppend(a, b);
    SentTextsAppend(a, b);
  }

  lemma {:induction false} CallsOfCalls(attempts: seq<Attempt>)
    ensures CallsMade(Calls(attempts)) == attempts
    ensures MarksMade(Calls(attempts)) == [] && SentTexts(Calls(attempts)) == []
    decreases |attempts|
  {
    if attempts != [] {
      var p := attempts[..|attempts| - 1];
      CallsOfCalls(p);
      assert Calls(attempts) == Calls(p) + [Called(attempts[|attempts| - 1])];
      FiltersAppend(Calls(p), [Called(attempts[|attempts| - 1])]);
    }
  }

  /** Sends are neither model calls nor cache writes. */
  lemma {:induction false} OnlySends(es: seq<Effect>)
    requires forall i :: 0 <= i < |es| ==> es[i].Sent?
    ensures CallsMade(es) == [] && MarksMade(es) == []
    decreases |es|
  {
    if es != [] {
      OnlySends(es[..|es| - 1]);
    }
  }

  // ---------------------------------------------------------------------
  // Skipping and duplicate suppression, whatever the answer to an event is
  // ---------------------------------------------------------------------

  /** Echoes and events without a sender send nothing and leave the cache alone. */
  lemma SkippedEvents(f: Stored, ev: Event, now: int, respond: Answerer)
    requires IsEcho(ev) || !Present(ev.sender)
    ensures Step(f, ev, now, respond) == (f, [])
  {
  }

  /** An event whose mid is already cached is not answered: no model call, no send. */
  lemma SeenMidSilent(f: Stored, ev: Event, now: int, respond: Answerer)
    requires Present(MidOf(ev)) && MidOf(ev).value in Keys(Entries(f))
    ensures Step(f, ev, now, respond) == (f, [])
  {
  }

  /** A fresh mid is written to the cache before the event is answered, and is
      in the cache for every later event of the request. */
  lemma FreshMidMarkedFirst(f: Stored, ev: Event, now: int, respond: Answerer)
    requires Fresh(f, ev) && Present(MidOf(ev))
    ensures Step(f, ev, now, respond).1 == [Marked(MidOf(ev).value)] + respond(ev)
    ensures Step(f, ev, now, respond).0 == Json(Mark(Entries(f), MidOf(ev).value, now))
    ensures MidOf(ev).value in Keys(Entries(Step(f, ev, now, respond).0))
  {
    FreshMarkRemembers(Entries(f), MidOf(ev).value, now);
  }

  /** Events without a mid are never deduplicated: they are answered whatever
      the cache holds, and the cache is not touched. */
  lemma NoMidNoDedup(f1: Stored, f2: Stored, ev: Event, now: int, respond: Answerer)
    requires !Present(MidOf(ev))
    ensures Step(f1, ev, now, respond).0 == f1
    ensures Step(f1, ev, now, respond).1 == Step(f2, ev, now, respond).1
    ensures !IsEcho(ev) && Present(ev.sender) ==> Step(f1, ev, now, respond).1 == respond(ev)
  {
  }

  /** A batch of one event is that event's step. */
  lemma RunOne(f: Stored, ev: Event, step: Stepper)
    ensures Run(f, [ev], step) == step(f, ev)
  {
    assert [ev][..0] == [];
    assert [] + step(f, ev).1 == step(f, ev).1;
  }

  /** A batch of two events is their steps one after the other. */
  lemma RunTwo(f: Stored, a: Event, b: Event, step: Stepper)
    ensures var first := step(f, a);
      var second := step(first.0, b);
      Run(f, [a, b], step) == (second.0, first.1 + second.1)
  {
    assert [a, b][..1] == [a];
    RunOne(f, a, step);
  }

  /** The same message twice in one request is answered once. */
  lemma DuplicateInBatch(f: Stored, ev: Event, now: int, respond: Answerer)
    requires Present(MidOf(ev))
    ensures Run(f, [ev, ev], Stepping(now, respond)) == Run(f, [ev], Stepping(now, respond))
  {
    var first := Step(f, ev, now, respond);
    RunOne(f, ev, Stepping(now, respond));
    RunTwo(f, ev, ev, Stepping(now, respond));
    if Fresh(f, ev) {
      FreshMidMarkedFirst(f, ev, now, respond);
      SeenMidSilent(first.0, ev, now, respond);
    } else {
      assert first == (f, []);
    }
    assert first.1 + [] == first.1;
  }

  // ---------------------------------------------------------------------
  // A redelivered batch
  // ---------------------------------------------------------------------

  /** Skipped before the cache is consulted. */
  predicate Ignored(ev: Event) {
    IsEcho(ev) || !Present(ev.sender)
  }

  /** The mids of the events that get past the echo and sender checks, in order. */
  function AnsweredMids(evs: seq<Event>): seq<string>
    decreases |evs|
  {
    if evs == [] then []
    else
      var ev := evs[|evs| - 1];
      AnsweredMids(evs[..|evs| - 1]) + (if !Ignored(ev) && Present(MidOf(ev)) then [MidOf(ev).value] else [])
  }

  /** The `i`-th mid of `ms`. */
  function MidNo(ms: seq<string>, i: nat): string
    requires i < |ms|
  {
    ms[i]
  }

  /** No mid occurs twice. (Stated over `MidNo`, so that the quantifier is used
      only for the positions a proof names.) */
  predicate AllDistinct(ms: seq<string>) {
    forall i, j :: 0 <= i < j < |ms| ==> MidNo(ms, i) != MidNo(ms, j)
  }

  function Members(ms: seq<string>): set<string> {
    set m | m in ms
  }

  /** Every event is either skipped outright or carries a mid. */
  predicate Identified(evs: seq<Event>) {
    forall i :: 0 <= i < |evs| ==> Ignored(evs[i]) || Present(MidOf(evs[i]))
  }

  /** What a batch may be for its redelivery to be recognised in full: every
      answered event has a mid, the mids differ from each other and from what
      the cache already holds, and there are at most CacheLimit of them. */
  predicate Redeliverable(f: Stored, evs: seq<Event>) {
    && Distinct(Entries(f))
    && Identified(evs)
    && |AnsweredMids(evs)| <= CacheLimit
    && AllDistinct(AnsweredMids(evs))
    && (forall i :: 0 <= i < |AnsweredMids(evs)| ==> AnsweredMids(evs)[i] !in Keys(Entries(f)))
  }

  lemma MembersAppend(ms: seq<string>, m: string)
    ensures Members(ms + [m]) == Members(ms) + {m}
  {
    assert forall x :: x in ms + [m] <==> x in ms || x == m;
  }

  lemma RedeliverablePrefix(f: Stored, evs: seq<Event>)
    requires evs != [] && Redeliverable(f, evs)
    ensures Redeliverable(f, evs[..|evs| - 1])
  {
    var p := evs[..|evs| - 1];
    var mp, m := AnsweredMids(p), AnsweredMids(evs);
    assert forall i :: 0 <= i < |p| ==> p[i] == evs[i];
    assert forall i :: 0 <= i < |mp| ==> mp[i] == m[i];
    forall i, j | 0 <= i < j < |mp| ensures MidNo(mp, i) != MidNo(mp, j) {
      assert MidNo(m, i) != MidNo(m, j);
    }
  }

  lemma MarkAddsOnly(c: seq<Stamp>, mid: string, now: int)
    ensures Keys(Mark(c, mid, now)) <= Keys(c) + {mid}
  {
    var p := Put(c, mid, now);
    PutFacts(c, mid, now);
    SuffixKeys(p, |p| - |Mark(c, mid, now)|);
  }

  /** Any batch adds no key to the cache but the mids of the events it does not skip. */
  lemma {:induction false} RunKeys(f: Stored, evs: seq<Event>, now: int, respond: Answerer)
    ensures Keys(Entries(Run(f, evs, Stepping(now, respond)).0)) <= Keys(Entries(f)) + Members(AnsweredMids(evs))
    decreases |evs|
  {
    if evs != [] {
      var p, x := evs[..|evs| - 1], evs[|evs| - 1];
      var mp := AnsweredMids(p);
      RunKeys(f, p, now, respond);
      var c := Entries(Run(f, p, Stepping(now, respond)).0);
      if !Ignored(x) && Present(MidOf(x)) {
        var mid := MidOf(x).value;
        assert AnsweredMids(evs) == mp + [mid];
        MembersAppend(mp, mid);
        MarkAddsOnly(c, mid, now);
      } else {
        assert AnsweredMids(evs) == mp + [];
      }
    }
  }

  /** The cache after a batch is the cache after its last step. */
  lemma RunLast(f: Stored, evs: seq<Event>, step: Stepper)
    requires evs != []
    ensures Run(f, evs, step).0 == step(Run(f, evs[..|evs| - 1], step).0, evs[|evs| - 1]).0
  {
  }

  /** The last answered event of a redeliverable batch is not in the cache the
      events before it leave behind. */
  lemma LastIsFresh(f: Stored, evs: seq<Event>, now: int, respond: Answerer)
    requires evs != [] && Redeliverable(f, evs) && !Ignored(evs[|evs| - 1])
    ensures Present(MidOf(evs[|evs| - 1]))
    ensures AnsweredMids(evs) == AnsweredMids(evs[..|evs| - 1]) + [MidOf(evs[|evs| - 1]).value]
    ensures MidOf(evs[|evs| - 1]).value !in Keys(Entries(Run(f, evs[..|evs| - 1], Stepping(now, respond)).0))
  {
    var p, x := evs[..|evs| - 1], evs[|evs| - 1];
    var mp, m := AnsweredMids(p), AnsweredMids(evs);
    var mid := MidOf(x).value;
    assert m == mp + [mid];
    RedeliverablePrefix(f, evs);
    RunKeys(f, p, now, respond);
    assert m[|mp|] == mid;
    assert forall i :: 0 <= i < |mp| ==> mp[i] == m[i];
    forall i | 0 <= i < |mp| ensures mp[i] != mid {
      assert MidNo(m, i) != MidNo(m, |mp|);
    }
  }

  /** The last `|ms|` entries of the cache hold exactly the ids `ms`. */
  predicate Remembered(c: seq<Stamp>, ms: seq<string>) {
    Distinct(c) && |ms| <= |c| && Keys(c[|c| - |ms|..]) == Members(ms)
  }

  lemma RememberedMark(c: seq<Stamp>, ms: seq<string>, mid: string, now: int)
    requires Remembered(c, ms) && |ms| < CacheLimit && mid !in Keys(c)
    ensures Remembered(Mark(c, mid, now), ms + [mid])
  {
    var r, ms' := Mark(c, mid, now), ms + [mid];
    assert Distinct(r) && |ms'| <= |r| && Keys(r[|r| - |ms'|..]) == Keys(c[|c| - |ms|..]) + {mid} by {
      FreshMarkKeepsRecent(c, |ms|, mid, now);
    }
    assert Members(ms') == Members(ms) + {mid} by {
      MembersAppend(ms, mid);
    }
  }

  /** One answered event with a fresh mid extends what the cache remembers by that mid. */
  lemma RemembersStep(g: Stored, ms: seq<string>, x: Event, now: int, respond: Answerer)
    requires Remembered(Entries(g), ms) && |ms| < CacheLimit
    requires !Ignored(x) && Present(MidOf(x)) && MidOf(x).value !in Keys(Entries(g))
    ensures Remembered(Entries(Step(g, x, now, respond).0), ms + [MidOf(x).value])
  {
    var mid := MidOf(x).value;
    assert Step(g, x, now, respond).0 == Json(Mark(Entries(g), mid, now));
    RememberedMark(Entries(g), ms, mid, now);
  }

  /** A skipped last event changes neither the cache nor the answered mids. */
  lemma RunSkipsLast(f: Stored, evs: seq<Event>, now: int, respond: Answerer)
    requires evs != [] && Ignored(evs[|evs| - 1])
    ensures Run(f, evs, Stepping(now, respond)).0 == Run(f, evs[..|evs| - 1], Stepping(now, respond)).0
    ensures AnsweredMids(evs) == AnsweredMids(evs[..|evs| - 1])
  {
    var p, x := evs[..|evs| - 1], evs[|evs| - 1];
    RunLast(f, evs, Stepping(now, respond));
    SkippedEvents(Run(f, p, Stepping(now, respond)).0, x, now, respond);
    assert AnsweredMids(evs) == AnsweredMids(p) + [];
  }

  /** The last event of a redeliverable batch keeps the cache remembering the
      batch's answered mids. */
  lemma RemembersLast(f: Stored, evs: seq<Event>, now: int, respond: Answerer)
    requires evs != [] && Redeliverable(f, evs)
    requires Remembered(Entries(Run(f, evs[..|evs| - 1], Stepping(now, respond)).0), AnsweredMids(evs[..|evs| - 1]))
    ensures Remembered(Entries(Run(f, evs, Stepping(now, respond)).0), AnsweredMids(evs))
  {
    var p, x := evs[..|evs| - 1], evs[|evs| - 1];
    var mp := AnsweredMids(p);
    var g := Run(f, p, Stepping(now, respond)).0;
    if Ignored(x) {
      RunSkipsLast(f, evs, now, respond);
    } else {
      assert Present(MidOf(x)) && MidOf(x).value !in Keys(Entries(g))
        && AnsweredMids(evs) == mp + [MidOf(x).value] && |mp| < CacheLimit by {
        LastIsFresh(f, evs, now, respond);
      }
      assert Remembered(Entries(Run(f, evs, Stepping(now, respond)).0), mp + [MidOf(x).value]) by {
        RunLast(f, evs, Stepping(now, respond));
        RemembersStep(g, mp, x, now, respond);
      }
    }
  }

  /** After a batch of fresh messages, the last entries of the cache hold
      exactly their mids. */
  lemma {:induction false} RunRemembers(f: Stored, evs: seq<Event>, now: int, respond: Answerer)
    requires Redeliverable(f, evs)
    ensures Remembered(Entries(Run(f, evs, Stepping(now, respond)).0), AnsweredMids(evs))
    decreases |evs|
  {
    if evs == [] {
      var c := Entries(f);
      assert c[|c|..] == [];
      assert Members([]) == {};
    } else {
      RedeliverablePrefix(f, evs);
      RunRemembers(f, evs[..|evs| - 1], now, respond);
      RemembersLast(f, evs, now, respond);
    }
  }

  /** The mid of every answered event of a batch is among its answered mids. */
  lemma {:induction false} AnsweredMidsCover(evs: seq<Event>, i: nat)
    requires i < |evs| && !Ignored(evs[i]) && Present(MidOf(evs[i]))
    ensures MidOf(evs[i]).value in Members(AnsweredMids(evs))
    decreases |evs|
  {
    var p, x := evs[..|evs| - 1], evs[|evs| - 1];
    var tail := if !Ignored(x) && Present(MidOf(x)) then [MidOf(x).value] else [];
    assert AnsweredMids(evs) == AnsweredMids(p) + tail;
    if i < |p| {
      assert p[i] == evs[i];
      AnsweredMidsCover(p, i);
      assert MidOf(evs[i]).value in AnsweredMids(p);
    } else {
      assert x == evs[i];
      assert tail == [MidOf(evs[i]).value];
    }
    assert MidOf(evs[i]).value in AnsweredMids(evs);
  }

  /** A batch whose every answered event is already cached is not answered. */
  lemma {:induction false} RunSilent(g: Stored, evs: seq<Event>, now: int, respond: Answerer)
    requires forall i :: 0 <= i < |evs| ==>
      Ignored(evs[i]) || (Present(MidOf(evs[i])) && MidOf(evs[i]).value in Keys(Entries(g)))
    ensures Run(g, evs, Stepping(now, respond)) == (g, [])
    decreases |evs|
  {
    if evs != [] {
      var p, x := evs[..|evs| - 1], evs[|evs| - 1];
      assert forall i :: 0 <= i < |p| ==> p[i] == evs[i];
      RunSilent(g, p, now, respond);
      assert !Fresh(g, x);
      assert Step(g, x, now, respond) == (g, []);
      assert Run(g, p, Stepping(now, respond)).1 + Step(g, x, now, respond).1 == [];
    }
  }

  /** A batch of fresh messages delivered again is not answered again, whatever
      the clock and the answers are the second time. */
  lemma Redelivery(f: Stored, evs: seq<Event>, now: int, respond: Answerer, now2: int, respond2: Answerer)
    requires Redeliverable(f, evs)
    ensures var g := Run(f, evs, Stepping(now, respond)).0;
      Run(g, evs, Stepping(now2, respond2)) == (g, [])
  {
    var g := Run(f, evs, Stepping(now, respond)).0;
    var c := Entries(g);
    RunRemembers(f, evs, now, respond);
    var k := |AnsweredMids(evs)|;
    SuffixKeys(c, |c| - k);
    forall i | 0 <= i < |evs| && !Ignored(evs[i])
      ensures Present(MidOf(evs[i])) && MidOf(evs[i]).value in Keys(c)
    {
      AnsweredMidsCover(evs, i);
    }
    RunSilent(g, evs, now2, respond2);
  }

  /** Messenger posting the same webhook body twice gets it answered once. */
  lemma RedeliveredWebhookSilent(f: Stored, entries: seq<Entry>, env: Env, env2: Env)
    requires Redeliverable(f, Events(entries))
    ensures var g := Deliver(f, Some(entries), env).0;
      Deliver(g, Some(entries), env2) == (g, [])
  {
    Redelivery(f, Events(entries), env.now, Responder(env), env2.now, Responder(env2));
  }

  // ---------------------------------------------------------------------
  // Routing and answering
  // ---------------------------------------------------------------------

  /** The sends of a reply are neither model calls nor cache writes. */
  lemma OutgoingOnlySends(psid: string, text: string, transport: Transport)
    ensures CallsMade(Outgoing(psid, text, transport)) == []
    ensures MarksMade(Outgoing(psid, text, transport)) == []
  {
    OutgoingFacts(psid, text, transport);
    OnlySends(Outgoing(psid, text, transport));
  }

  /** The calls, then the sends of a reply: exactly the calls, no cache write,
      and exactly the sanitised text, all to `psid`. */
  lemma AnswerEffects(attempts: seq<Attempt>, psid: string, text: string, transport: Transport)
    ensures var es := Calls(attempts) + Outgoing(psid, text, transport);
      && CallsMade(es) == attempts
      && MarksMade(es) == []
      && Concat(SentTexts(es)) == Sanitize(text)
      && forall i :: 0 <= i < |es| ==> es[i].Sent? ==> es[i].psid == psid
  {
    var out := Outgoing(psid, text, transport);
    var calls := Calls(attempts);
    var es := calls + out;
    assert CallsMade(es) == attempts && MarksMade(es) == [] && SentTexts(es) == SentTexts(out) by {
      OutgoingOnlySends(psid, text, transport);
      CallsOfCalls(attempts);
      FiltersAppend(calls, out);
      assert SentTexts(calls) + SentTexts(out) == SentTexts(out);
    }
    assert Concat(SentTexts(out)) == Sanitize(text)
      && forall i :: 0 <= i < |out| ==> out[i].Sent? && out[i].psid == psid by {
      OutgoingFacts(psid, text, transport);
    }
    forall i | 0 <= i < |es|
      ensures es[i].Sent? ==> es[i].psid == psid
    {
      if i < |calls| {
        assert es[i] == Called(attempts[i]);
      } else {
        assert es[i] == out[i - |calls|];
      }
    }
  }

  /** Answering a routed event makes exactly the reply's model calls, writes
      nothing to the cache, and sends exactly the sanitised reply, all to the
      event's sender. */
  lemma ReplyEffects(ev: Event, env: Env, reply: Reply)
    requires Route(ev, env) == Some(reply)
    ensures var es := Respond(ev, env);
      && CallsMade(es) == reply.attempts
      && MarksMade(es) == []
      && Concat(SentTexts(es)) == Sanitize(reply.text)
      && forall i :: 0 <= i < |es| ==> es[i].Sent? ==> es[i].psid == ev.sender.GetOr("")
  {
    var psid := ev.sender.GetOr("");
    assert Respond(ev, env) == Calls(reply.attempts) + Outgoing(psid, reply.text, env.transport);
    AnswerEffects(reply.attempts, psid, reply.text, env.transport);
  }

  function WithRest(ev: Event, attachments: seq<Attachment>, postback: Option<string>): Event
    requires ev.message.Some?
  {
    ev.(message := Some(ev.message.value.(attachments := attachments)), postback := postback)
  }

  /** Text takes precedence: attachments and postback do not matter once the
      message has text. */
  lemma TextTakesPrecedence(ev: Event, env: Env, attachments: seq<Attachment>, postback: Option<string>)
    requires HasText(ev)
    ensures Respond(ev, env) == Respond(WithRest(ev, attachments, postback), env)
  {
  }

  /** The text is trimmed before it is solved: surrounding whitespace does not
      change the answer, and the first model call is the text model on the
      trimmed text, the only other one the fallback on the same text. */
  lemma TextIsTrimmed(ev: Event, env: Env)
    requires HasText(ev)
    ensures var t := ev.message.value.text.value;
      Respond(ev, env) == Respond(ev.(message := Some(ev.message.value.(text := Some(Trim(t))))), env)
    ensures var t := ev.message.value.text.value;
      var calls := CallsMade(Respond(ev, env));
      && 1 <= |calls| <= 2
      && calls[0] == Attempt(ModelText, TextPayload(Trim(t)))
      && (|calls| == 2 ==> calls[1] == Attempt(ModelFallback, TextPayload(Trim(t))))
  {
    var t := ev.message.value.text.value;
    assert Trim(Trim(t)) == Trim(t) by { TrimFacts(t); TrimFacts(Trim(t)); }
    ReplyEffects(ev, env, TextReply(Trim(t), env.api));
    ReplyAttempts(Trim(t), [], env.api);
  }

  /** With no text, an image as the first attachment comes before a postback. */
  lemma ImageBeforePostback(ev: Event, env: Env, postback: Option<string>)
    requires !HasText(ev) && ImageFirst(ev)
    ensures Respond(ev, env) == Respond(ev.(postback := postback), env)
  {
  }

  /** An image with a URL is solved once from the downloaded bytes, with at most
      two model calls on the same image, and answered with one reply; an
      unreadable download makes no model call at all. */
  lemma ImageWithUrl(ev: Event, env: Env)
    requires !HasText(ev) && ImageFirst(ev)
    requires Present(ev.message.value.attachments[0].url)
    ensures var raw := SavedAsWritten(env.web, ev.message.value.attachments[0].url.value);
      var reply := ImageReply(raw, env.api);
      var es := Respond(ev, env);
      && CallsMade(es) == reply.attempts
      && |CallsMade(es)| <= 2
      && (forall a :: a in CallsMade(es) ==> a.payload == ImagePayload(raw))
      && Concat(SentTexts(es)) == Sanitize(reply.text)
      && (!TruthyBytes(raw) ==> CallsMade(es) == [] && Concat(SentTexts(es)) == Sanitize(CouldNotReadImage))
  {
    var raw := SavedAsWritten(env.web, ev.message.value.attachments[0].url.value);
    ReplyEffects(ev, env, ImageReply(raw, env.api));
    ReplyAttempts("", raw, env.api);
    ImageReplyCases(raw, env.api);
  }

  /** As the download is written, an image whose direct download fails into a
      writable file is not solved at all, whatever curl could fetch: no model
      call, and the "couldn't read the image" reply. */
  lemma FailedDownloadNotSolved(ev: Event, env: Env)
    requires !HasText(ev) && ImageFirst(ev)
    requires Present(ev.message.value.attachments[0].url)
    requires env.web.writable && env.web.get(ev.message.value.attachments[0].url.value).None?
    ensures CallsMade(Respond(ev, env)) == []
    ensures Concat(SentTexts(Respond(ev, env))) == Sanitize(CouldNotReadImage)
  {
    FallbackSkippedOnFailedDownload(env.web, ev.message.value.attachments[0].url.value);
    ImageWithUrl(ev, env);
  }

  /** The no-link notice is already in the form sanitising leaves alone; it is
      proved in pieces short enough for the verifier to read character by
      character. */
  lemma NoValidLinkStart()
    ensures NormalForm("I received an image") && NoNewline("I received an image")
  {
  }

  lemma NoValidLinkMiddle()
    ensures NormalForm("but no valid link.") && NoNewline("but no valid link.")
  {
  }

  lemma NoValidLinkEnd()
    ensures NormalForm("Please resend it clearly.") && NoNewline("Please resend it clearly.")
  {
  }

  lemma NoValidLinkFirstJoin()
    ensures "I received an image" + " " + "but no valid link." == "I received an image but no valid link."
  {
  }

  lemma NoValidLinkSecondJoin()
    ensures "I received an image but no valid link." + " " + "Please resend it clearly." == NoValidLink
  {
  }

  lemma NoValidLinkIsNormal()
    ensures Sanitize(NoValidLink) == NoValidLink
  {
    NoValidLinkStart();
    NoValidLinkMiddle();
    NoValidLinkEnd();
    NoValidLinkFirstJoin();
    NoValidLinkSecondJoin();
    JoinWithSpace("I received an image", "but no valid link.");
    JoinWithSpace("I received an image but no valid link.", "Please resend it clearly.");
    SanitizeFixedIff(NoValidLink);
  }

  /** An image without a URL gets the fixed notice, as one message, and no model call. */
  lemma NoLinkReply(ev: Event, env: Env)
    requires !HasText(ev) && ImageFirst(ev)
    requires !Present(ev.message.value.attachments[0].url)
    ensures var psid := ev.sender.GetOr("");
      Respond(ev, env) == [Sent(psid, NoValidLink, env.transport(psid, NoValidLink))]
  {
    var psid := ev.sender.GetOr("");
    assert Respond(ev, env) == Calls([]) + Outgoing(psid, NoValidLink, env.transport) by {
      assert Route(ev, env) == Some(Reply(NoValidLink, []));
    }
    assert Outgoing(psid, NoValidLink, env.transport)
        == [Sent(psid, NoValidLink, env.transport(psid, NoValidLink))] by {
      NoValidLinkIsNormal();
      FixedReplyIsOneSend(psid, NoValidLink, env.transport);
    }
    assert Calls([]) == [];
  }

  /** Otherwise a postback is answered with "Tapped: " and its payload, without
      a model call. */
  lemma PostbackReply(ev: Event, env: Env)
    requires !HasText(ev) && !ImageFirst(ev) && ev.postback.Some?
    ensures var es := Respond(ev, env);
      && CallsMade(es) == []
      && Concat(SentTexts(es)) == Sanitize(TappedPrefix + ev.postback.value)
  {
    ReplyEffects(ev, env, Reply(TappedPrefix + ev.postback.value, []));
  }

  /** Anything else is not answered. */
  lemma NothingToAnswer(ev: Event, env: Env)
    requires !HasText(ev) && !ImageFirst(ev) && ev.postback.None?
    ensures Respond(ev, env) == []
  {
  }
}
