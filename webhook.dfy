/**
 * The request handlers of callback.php: the GET subscription handshake
 * (callback.php:197-207) and the POST loop over the decoded entries and their
 * messaging events (callback.php:210-268), with duplicate suppression by
 * message id, routing of text, image and postback events, and the replies.
 */
module Webhook {
  import opened Wrappers
  import opened Php
  import opened Sanitizer
  import opened Dedup
  import opened Solver
  import opened Delivery
  import opened Download

  // ---------------------------------------------------------------------
  // GET: the subscription handshake
  // ---------------------------------------------------------------------

  /** The GET answer: the challenge echoed back, or 403. */
  datatype Handshake = Challenge(body: string) | Forbidden

  /** VERIFY_TOKEN: the environment value unless unset or falsy, else "test". */
  function ConfiguredToken(env: Option<string>): string {
    if Present(env) then env.value else "test"
  }

  /** `$_GET[name] ?? $_GET[alias] ?? ''`. */
  function Param(query: map<string, string>, name: string, alias: string): string {
    if name in query then query[name]
    else if alias in query then query[alias]
    else ""
  }

  function Mode(query: map<string, string>): string {
    Param(query, "hub_mode", "hub.mode")
  }

  function Token(query: map<string, string>): string {
    Param(query, "hub_verify_token", "hub.verify_token")
  }

  function ChallengeOf(query: map<string, string>): string {
    Param(query, "hub_challenge", "hub.challenge")
  }

  /** The GET branch: echo the challenge for a subscribe request carrying the
      configured token, refuse everything else. */
  function Verify(query: map<string, string>, env: Option<string>): Handshake {
    if Mode(query) == "subscribe" && Token(query) == ConfiguredToken(env) then
      Challenge(ChallengeOf(query))
    else Forbidden
  }

  /** For any query carrying the three underscored parameters (and whatever else),
      the handshake succeeds exactly for mode "subscribe" and the configured
      token, and then answers with the challenge unchanged. */
  lemma VerifyIff(query: map<string, string>, env: Option<string>, mode: string, token: string, challenge: string)
    requires "hub_mode" in query && query["hub_mode"] == mode
    requires "hub_verify_token" in query && query["hub_verify_token"] == token
    requires "hub_challenge" in query && query["hub_challenge"] == challenge
    ensures Verify(query, env) == Challenge(challenge) <==> mode == "subscribe" && token == ConfiguredToken(env)
    ensures Verify(query, env) != Challenge(challenge) ==> Verify(query, env) == Forbidden
  {
    assert Mode(query) == mode && Token(query) == token && ChallengeOf(query) == challenge;
  }

  /** The `??` fallback to the dotted parameter names behaves like the
      underscored names. (PHP itself already turns dots in query parameter
      names into underscores when it builds `$_GET`, so a real request never
      reaches the dotted keys; this states only what the fallback would do.) */
  lemma DottedNamesAccepted(mode: string, token: string, challenge: string, env: Option<string>)
    ensures Verify(map["hub.mode" := mode, "hub.verify_token" := token, "hub.challenge" := challenge], env)
         == Verify(map["hub_mode" := mode, "hub_verify_token" := token, "hub_challenge" := challenge], env)
  {
    var dotted := map["hub.mode" := mode, "hub.verify_token" := token, "hub.challenge" := challenge];
    var plain := map["hub_mode" := mode, "hub_verify_token" := token, "hub_challenge" := challenge];
    assert "hub_mode" !in dotted && "hub_verify_token" !in dotted && "hub_challenge" !in dotted;
    assert Mode(dotted) == Mode(plain) && Token(dotted) == Token(plain);
    assert ChallengeOf(dotted) == ChallengeOf(plain);
  }

  /** With VERIFY_TOKEN unset or falsy, only the token "test" is accepted. */
  lemma DefaultToken(query: map<string, string>, env: Option<string>)
    requires !Present(env)
    ensures Verify(query, env).Challenge? <==> Mode(query) == "subscribe" && Token(query) == "test"
  {
  }

  // ---------------------------------------------------------------------
  // POST: the decoded request body
  // ---------------------------------------------------------------------

  /** `message.attachments[i]`: its `type` and its `payload.url`, when set. */
  datatype Attachment = Attachment(kind: Option<string>, url: Option<string>)

  /** `event.message`: the truthiness of `is_echo`, and `mid` and `text` when set. */
  datatype Message = Message(isEcho: bool, mid: Option<string>, text: Option<string>, attachments: seq<Attachment>)

  /** One messaging event: `sender.id`, `message` and `postback.payload`, when set. */
  datatype Event = Event(sender: Option<string>, message: Option<Message>, postback: Option<string>)

  /** One entry of the body and its `messaging` list, when set. */
  datatype Entry = Entry(messaging: Option<seq<Event>>)

  /** Everything outside the handler: the model, the image download, the Send
      API, and the clock reading `time()` gives while handling the request. */
  datatype Env = Env(api: Api, web: Web, transport: Transport, now: int)

  const NoValidLink := "I received an image but no valid link. Please resend it clearly."
  const TappedPrefix := "Tapped: "

  predicate IsEcho(ev: Event) {
    ev.message.Some? && ev.message.value.isEcho
  }

  function MidOf(ev: Event): Option<string> {
    if ev.message.Some? then ev.message.value.mid else None
  }

  /** `isset($event['message']['text'])`. */
  predicate HasText(ev: Event) {
    ev.message.Some? && ev.message.value.text.Some?
  }

  /** The first attachment is set and its type is exactly "image". */
  predicate ImageFirst(ev: Event) {
    ev.message.Some? && |ev.message.value.attachments| > 0
    && ev.message.value.attachments[0].kind == Some("image")
  }

  /** The branch taken after dedup: text first, then an image as the first
      attachment (with or without a URL), then a postback; None when none applies. */
  function Route(ev: Event, env: Env): Option<Reply> {
    if HasText(ev) then
      Some(TextReply(Trim(ev.message.value.text.value), env.api))
    else if ImageFirst(ev) then
      var url := ev.message.value.attachments[0].url;
      if Present(url) then Some(ImageReply(SavedAsWritten(env.web, url.value), env.api))
      else Some(Reply(NoValidLink, []))
    else if ev.postback.Some? then
      Some(Reply(TappedPrefix + ev.postback.value, []))
    else None
  }

  /** One model call effect per attempt, in order. */
  function Calls(attempts: seq<Attempt>): seq<Effect> {
    seq(|attempts|, i requires 0 <= i < |attempts| => Called(attempts[i]))
  }

  /** A mark for the event's mid, when it has one. */
  function Marks(ev: Event): seq<Effect> {
    if Present(MidOf(ev)) then [Marked(MidOf(ev).value)] else []
  }

  /** The model calls and sends that answering an event makes: the routed
      reply's calls, then one send per non-empty chunk of it. */
  function Respond(ev: Event, env: Env): seq<Effect> {
    var reply := Route(ev, env);
    if reply.None? then []
    else Calls(reply.value.attempts) + Outgoing(ev.sender.GetOr(""), reply.value.text, env.transport)
  }

  /** How an event that gets past dedup is answered. */
  type Answerer = Event -> seq<Effect>

  function Responder(env: Env): Answerer {
    (ev: Event) => Respond(ev, env)
  }

  /** An event that is neither an echo, nor without sender, nor already seen. */
  predicate Fresh(f: Stored, ev: Event) {
    && !IsEcho(ev)
    && Present(ev.sender)
    && !(Present(MidOf(ev)) && MidOf(ev).value in Keys(Entries(f)))
  }

  /** One iteration of the inner loop at time `now`: the cache file afterwards
      and the effects; the mid is written before the event is answered. */
  function Step(f: Stored, ev: Event, now: int, respond: Answerer): (Stored, seq<Effect>) {
    if !Fresh(f, ev) then (f, [])
    else
      var g := if Present(MidOf(ev)) then Json(Mark(Entries(f), MidOf(ev).value, now)) else f;
      (g, Marks(ev) + respond(ev))
  }

  /** What one event does to the cache file, and the effects it has. */
  type Stepper = (Stored, Event) -> (Stored, seq<Effect>)

  function Stepping(now: int, respond: Answerer): Stepper {
    (f: Stored, ev: Event) => Step(f, ev, now, respond)
  }

  /** The events in order, threading the cache file through and collecting the
      effects in order. */
  function Run(f: Stored, evs: seq<Event>, step: Stepper): (Stored, seq<Effect>)
    decreases |evs|
  {
    if evs == [] then (f, [])
    else
      var prior := Run(f, evs[..|evs| - 1], step);
      var last := step(prior.0, evs[|evs| - 1]);
      (last.0, prior.1 + last.1)
  }

  /** The events of all entries, in order; an entry without `messaging` has none. */
  function Events(entries: seq<Entry>): seq<Event>
    decreases |entries|
  {
    if entries == [] then []
    else Events(entries[..|entries| - 1]) + entries[|entries| - 1].messaging.GetOr([])
  }

  /** The POST branch; `None` stands for a body that does not decode to an array
      with an `entry` member. */
  function Deliver(f: Stored, input: Option<seq<Entry>>, env: Env): (Stored, seq<Effect>) {
    if input.None? then (f, []) else Run(f, Events(input.value), Stepping(env.now, Responder(env)))
  }

  /** Running the events of one run after another is running them together. */
  lemma {:induction false} RunAppend(f: Stored, a: seq<Event>, b: seq<Event>, step: Stepper)
    ensures Run(f, a + b, step).0 == Run(Run(f, a, step).0, b, step).0
    ensures Run(f, a + b, step).1 == Run(f, a, step).1 + Run(Run(f, a, step).0, b, step).1
    decreases |b|
  {
    if b == [] {
      assert a + b == a;
    } else {
      assert (a + b)[..|a + b| - 1] == a + b[..|b| - 1] && (a + b)[|a + b| - 1] == b[|b| - 1];
      RunAppend(f, a, b[..|b| - 1], step);
    }
  }

  /** Running the first `j + 1` events is running the first `j` and then
      stepping the next one. */
  lemma RunPrefix(f: Stored, evs: seq<Event>, j: nat, step: Stepper)
    requires j < |evs|
    ensures Run(f, evs[..j + 1], step).0 == step(Run(f, evs[..j], step).0, evs[j]).0
    ensures Run(f, evs[..j + 1], step).1 == Run(f, evs[..j], step).1 + step(Run(f, evs[..j], step).0, evs[j]).1
  {
    assert evs[..j + 1][..j] == evs[..j];
  }

  // ---------------------------------------------------------------------
  // The handlers as the program runs them
  // ---------------------------------------------------------------------

  /** The body of the inner `foreach`, over the cache object. */
  method HandleEvent(ev: Event, cache: MidCache, env: Env) returns (effects: seq<Effect>)
    requires cache.Valid()
    modifies cache
    ensures cache.Valid()
    ensures cache.file == Step(old(cache.file), ev, env.now, Responder(env)).0
    ensures effects == Step(old(cache.file), ev, env.now, Responder(env)).1
  {
    ghost var f0 := cache.file;
    effects := [];
    if IsEcho(ev) {
      return;
    }
    var psid := ev.sender;
    if !Present(psid) {
      return;
    }
    var mid := MidOf(ev);
    if Present(mid) {
      if cache.SeenBefore(mid.value) {
        return;
      }
      cache.MarkSeen(mid.value, env.now);
      effects := [Marked(mid.value)];
    }
    assert Fresh(f0, ev) && effects == Marks(ev);
    var answer := RespondTo(ev, env);
    effects := effects + answer;
  }

  /** Routing one event that got past the echo, sender and dedup guards, and
      sending the reply it produces. */
  method RespondTo(ev: Event, env: Env) returns (effects: seq<Effect>)
    ensures effects == Respond(ev, env)
  {
    effects := [];
    var reply := Route(ev, env);
    if reply.Some? {
      var sent := SendResponse(ev.sender.GetOr(""), reply.value.text, env.transport);
      effects := Calls(reply.value.attempts) + sent;
    }
  }

  /** The inner `foreach` over the events of one entry. */
  method HandleEntry(events: seq<Event>, cache: MidCache, env: Env) returns (effects: seq<Effect>)
    requires cache.Valid()
    modifies cache
    ensures cache.Valid()
    ensures cache.file == Run(old(cache.file), events, Stepping(env.now, Responder(env))).0
    ensures effects == Run(old(cache.file), events, Stepping(env.now, Responder(env))).1
  {
    ghost var f0 := cache.file;
    effects := [];
    for j := 0 to |events|
      invariant cache.Valid()
      invariant cache.file == Run(f0, events[..j], Stepping(env.now, Responder(env))).0
      invariant effects == Run(f0, events[..j], Stepping(env.now, Responder(env))).1
    {
      var es := HandleEvent(events[j], cache, env);
      RunPrefix(f0, events, j, Stepping(env.now, Responder(env)));
      effects := effects + es;
    }
    assert events[..|events|] == events;
  }

  /** The POST branch over the cache object: every event of every entry, in order. */
  method HandlePost(input: Option<seq<Entry>>, cache: MidCache, env: Env) returns (effects: seq<Effect>)
    requires cache.Valid()
    modifies cache
    ensures cache.Valid()
    ensures cache.file == Deliver(old(cache.file), input, env).0
    ensures effects == Deliver(old(cache.file), input, env).1
  {
    effects := [];
    if input.None? {
      return;
    }
    var entries := input.value;
    ghost var f0 := cache.file;
    for i := 0 to |entries|
      invariant cache.Valid()
      invariant cache.file == Run(f0, Events(entries[..i]), Stepping(env.now, Responder(env))).0
      invariant effects == Run(f0, Events(entries[..i]), Stepping(env.now, Responder(env))).1
    {
      var events := entries[i].messaging.GetOr([]);
      var es := HandleEntry(events, cache, env);
      effects := effects + es;
      assert entries[..i + 1][..i] == entries[..i];
      RunAppend(f0, Events(entries[..i]), events, Stepping(env.now, Responder(env)));
    }
    assert entries[..|entries|] == entries;
  }
}
