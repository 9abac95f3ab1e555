/**
 What the wire invariant says about whole runs: exact streams, producers cleaned up once, and
 when a buffered response repeats itself.
 */
module ConnPromises {
  import opened Bytes
  import opened Config
  import opened ChunkSpec
  import opened ChunkFrame
  import opened Network
  import opened ConnSpec
  import opened ConnWire
  import opened Framing

  /**
   The wire. After any number of wake-ups, the bytes send has accepted are the completed
   messages in order, then the abandoned attempts at the message under way, then a prefix of
   that message - also when the connection is closed in the middle of it. The responses
   among the messages are as many as the connection has counted, at most HTTP_MAX_REQUESTS.
   */
  lemma RunWire(c: Conn, w: World, k: nat)
    requires c.producer == None
    ensures var s := Run(Start(c, w), k);
      && s.l.wire == Texts(s.l.messages) + s.l.junk + s.l.current
      && s.l.current <= s.l.due
      && ResponseCount(s.l.messages) == s.c.requests <= MAX_REQUESTS
      && AllComplete(s.l.messages)
  {
    RunKeeps(c, w, k);
  }

  /**
   The stream pump. While a streamed response is under way, its bytes on the wire are a
   prefix of its head, all of its producer's payloads framed, and the last frame, whatever
   partial writes and would-blocks happened on the way. A streamed response that was
   completed is exactly that.
   */
  lemma StreamExact(c: Conn, w: World, k: nat)
    requires c.producer == None
    ensures var s := Run(Start(c, w), k);
      && (s.c.phase == SendingStream ==>
            && s.l.junk == [] && s.l.wire == Texts(s.l.messages) + s.l.current
            && s.l.current <= StreamText(s.l.head, s.l.script))
      && (forall i: nat :: i < |s.l.messages| && s.l.messages[i].Streamed? ==>
            MessageText(s.l.messages[i]) == StreamText(s.l.messages[i].head, s.l.messages[i].script))
  {
    RunKeeps(c, w, k);
    var s := Run(Start(c, w), k);
    if s.c.phase == SendingStream { NoJunk(s); }
    CompletedTexts(s.l.messages);
  }

  lemma NoJunk(s: Sys)
    requires WireInv(s) && s.c.phase == SendingStream
    ensures s.l.junk == [] && s.l.wire == Texts(s.l.messages) + s.l.current
        && s.l.current <= StreamText(s.l.head, s.l.script)
  {
    assert Texts(s.l.messages) + [] + s.l.current == Texts(s.l.messages) + s.l.current;
  }

  lemma CompletedTexts(messages: seq<Message>)
    requires AllComplete(messages)
    ensures forall i: nat :: i < |messages| && messages[i].Streamed? ==>
              MessageText(messages[i]) == StreamText(messages[i].head, messages[i].script)
  {
    forall i: nat | i < |messages| && messages[i].Streamed?
      ensures MessageText(messages[i]) == StreamText(messages[i].head, messages[i].script)
    {
      assert CompleteAt(messages, i);
      CompletedText(messages[i]);
    }
  }

  lemma CompletedText(m: Message)
    requires m.Streamed? && CarriesAll(m)
    ensures MessageText(m) == StreamText(m.head, m.script) && DataOf(m.script) == m.payloads
  {
    DataOfPulls(m.payloads, []);
    assert PullsOf(m.payloads) + [] == PullsOf(m.payloads);
    assert m.payloads + [] == m.payloads;
  }

  /**
   End to end: what follows the head of a completed streamed response, and any bytes after
   it, is decoded by the server's own chunked decoder to exactly the producer's payloads,
   consuming the response and nothing of what follows.
   */
  lemma StreamDecodes(m: Message, rest: bytes, cap: nat)
    requires m.Streamed? && CarriesAll(m) && |Concat(m.payloads)| <= cap
    ensures var body := MessageText(m)[|m.head|..];
      Decode(body + rest, cap) == Drained(Decoder(ChunkDone, 0), Complete, |body|, Concat(DataOf(m.script)))
  {
    CompletedText(m);
    var body := MessageText(m)[|m.head|..];
    assert body == Frames(m.payloads) + LAST_FRAME by {
      assert MessageText(m) == m.head + (Frames(m.payloads) + LAST_FRAME);
    }
    FramesDecode(m.payloads, rest, cap);
  }

  // ---------------------------------------------------------------- producers

  function Installs(events: seq<StreamEvent>): nat {
    if events == [] then 0
    else Installs(events[..|events| - 1]) + if events[|events| - 1] == Installed(true) then 1 else 0
  }

  function Cleanups(events: seq<StreamEvent>): nat {
    if events == [] then 0
    else Cleanups(events[..|events| - 1]) + if events[|events| - 1] == CleanedUp then 1 else 0
  }

  function Owed(l: Life): nat {
    if l == Live(true) || l == Ended(true) then 1 else 0
  }

  /** A history that never breaks the contract owes at most the cleanup of the current stream. */
  lemma {:induction false} CleanupBalance(events: seq<StreamEvent>)
    requires LifeOf(events) != Life.Broken
    ensures Installs(events) == Cleanups(events) + Owed(LifeOf(events))
    decreases |events|
  {
    if events != [] {
      var init := events[..|events| - 1];
      assert LifeOf(events) == Next(LifeOf(init), events[|events| - 1]);
      CleanupBalance(init);
    }
  }

  /** No pull follows one that reported the end or an error, or a cleanup, of the same stream. */
  lemma {:induction false} NoPullAfterEnd(events: seq<StreamEvent>, i: nat, j: nat)
    requires LifeOf(events) != Life.Broken && i < j < |events|
    requires events[i] == Pulled(false) || events[i] == CleanedUp
    requires forall n :: i < n < j ==> !events[n].Installed?
    ensures !events[j].Pulled?
    decreases |events|
  {
    var init := events[..|events| - 1];
    assert LifeOf(events) == Next(LifeOf(init), events[|events| - 1]);
    if j < |events| - 1 {
      assert init[i] == events[i] && init[j] == events[j];
      assert forall n :: i < n < j ==> init[n] == events[n];
      NoPullAfterEnd(init, i, j);
    } else {
      NotLive(init, i);
    }
  }

  lemma {:induction false} NotLive(events: seq<StreamEvent>, i: nat)
    requires LifeOf(events) != Life.Broken && i < |events|
    requires events[i] == Pulled(false) || events[i] == CleanedUp
    requires forall n :: i < n < |events| ==> !events[n].Installed?
    ensures !LifeOf(events).Live?
    decreases |events|
  {
    var init := events[..|events| - 1];
    assert LifeOf(events) == Next(LifeOf(init), events[|events| - 1]);
    if i < |events| - 1 {
      assert init[i] == events[i];
      assert forall n :: i < n < |init| ==> init[n] == events[n];
      NotLive(init, i);
    }
  }

  /**
   Producer lifecycle. In every run the history of installs, pulls and cleanups keeps the
   contract, and whenever the connection is not streaming - in particular when it reads
   another request or is closed - every stream installed with a cleanup has had it called:
   as many cleanups as installs.
   */
  lemma RunLifecycle(c: Conn, w: World, k: nat)
    requires c.producer == None
    ensures var s := Run(Start(c, w), k);
      && LifeOf(s.l.events) != Life.Broken
      && Installs(s.l.events) <= Cleanups(s.l.events) + 1
      && (s.c.phase != SendingStream ==> Installs(s.l.events) == Cleanups(s.l.events) && s.c.producer == None)
  {
    RunKeeps(c, w, k);
    CleanupBalance(Run(Start(c, w), k).l.events);
  }

  // ---------------------------------------------------------------- buffered responses

  /**
   One attempt at a buffered response: the accepted bytes go on the wire, and they become a
   repetition of the response exactly when they are some of it but not all.
   */
  lemma AttemptRepeats(s: Sys)
    requires WireInv(s) && In(s, SendingResponse)
    ensures var (status, n, s') := SendSome(s, s.c.respBuf, 0);
      var r := StepSend(s);
      && r.l.wire == s.l.wire + s.c.respBuf[..n]
      && (status == SendOk <==> n == |s.c.respBuf|)
      && (status == SendOk ==> r.l.messages == s.l.messages + [Buffered(s.c.respBuf, s.l.junk)])
      && (status == SendMore ==>
            r.c.phase == SendingResponse && r.c.respBuf == s.c.respBuf && r.l.junk == s.l.junk + s.c.respBuf[..n])
      && (status == SendMore ==> (r.l.junk == s.l.junk <==> n == 0))
  {
    var (status, n, s') := SendSome(s, s.c.respBuf, 0);
    assert s.c.respBuf[0..n] == s.c.respBuf[..n];
    assert [] + s.c.respBuf[..n] == s.c.respBuf[..n];
  }

  /** A send that leaves some of `len` bytes behind. */
  predicate Partial(e: SendEvent, len: nat) {
    e.SendBlocked? || (e.Accept? && e.n < len)
  }

  predicate AllPartial(events: seq<SendEvent>, len: nat) {
    forall i :: 0 <= i < |events| ==> Partial(events[i], len)
  }

  /** What partial sends of `text` put on the wire: each time its first bytes. */
  function Repeats(text: bytes, events: seq<SendEvent>): bytes
    requires AllPartial(events, |text|)
  {
    if events == [] then []
    else
      var last := events[|events| - 1];
      Repeats(text, events[..|events| - 1]) + if last.Accept? then text[..last.n] else []
  }

  predicate Nothing(e: SendEvent) { e == SendBlocked || e == Accept(0) }

  lemma {:induction false} RepeatsNothing(text: bytes, events: seq<SendEvent>)
    requires AllPartial(events, |text|)
    ensures Repeats(text, events) == [] <==> forall i :: 0 <= i < |events| ==> Nothing(events[i])
    decreases |events|
  {
    if events != [] {
      var init := events[..|events| - 1];
      RepeatsNothing(text, init);
      assert forall i :: 0 <= i < |init| ==> init[i] == events[i];
    }
  }

  lemma SendPartial(s: Sys, text: bytes)
    requires text != [] && s.w.net.sends != [] && Partial(s.w.net.sends[0], |text|)
    ensures var (status, sent, r) := SendSome(s, text, 0);
      && status == SendMore && r.w.net.sends == s.w.net.sends[1..]
      && text[..sent] == if s.w.net.sends[0].Accept? then text[..s.w.net.sends[0].n] else []
  {
  }

  /** A wake-up with a partial send: the phase, the text and the rest of the script stay. */
  lemma PartialWakeUp(s: Sys)
    requires WireInv(s) && In(s, SendingResponse)
    requires s.w.net.sends != [] && Partial(s.w.net.sends[0], |s.c.respBuf|)
    ensures var r := Dispatch(s);
      var piece := if s.w.net.sends[0].Accept? then s.c.respBuf[..s.w.net.sends[0].n] else [];
      && r == StepSend(s) && In(r, SendingResponse) && WireInv(r) && r.c.respBuf == s.c.respBuf
      && r.w.net.sends == s.w.net.sends[1..]
      && r.l.junk == s.l.junk + piece && r.l.wire == s.l.wire + piece && r.l.messages == s.l.messages
  {
    SendPartial(s, s.c.respBuf);
    AttemptRepeats(s);
    StepSendKeeps(s);
  }

  /** `j` wake-ups with partial sends. */
  lemma {:induction false} PartialRun(s: Sys, j: nat)
    requires WireInv(s) && In(s, SendingResponse) && j <= |s.w.net.sends|
    requires AllPartial(s.w.net.sends[..j], |s.c.respBuf|)
    ensures var r, text := Run(s, j), s.c.respBuf;
      var again := Repeats(text, s.w.net.sends[..j]);
      && In(r, SendingResponse) && WireInv(r) && r.c.respBuf == text && r.w.net.sends == s.w.net.sends[j..]
      && r.l.junk == s.l.junk + again && r.l.wire == s.l.wire + again && r.l.messages == s.l.messages
    decreases j
  {
    hide WireInv, Dispatch, SendSome;
    if j > 0 {
      var events, text := s.w.net.sends[..j], s.c.respBuf;
      assert events[..j - 1] == s.w.net.sends[..j - 1];
      assert forall i :: 0 <= i < j - 1 ==> s.w.net.sends[..j - 1][i] == events[i];
      PartialRun(s, j - 1);
      var m := Run(s, j - 1);
      assert m.w.net.sends[0] == events[j - 1];
      PartialWakeUp(m);
      RepeatsLast(s.l.junk, text, events);
      RepeatsLast(s.l.wire, text, events);
    }
  }

  lemma RepeatsLast(before: bytes, text: bytes, events: seq<SendEvent>)
    requires events != [] && AllPartial(events, |text|) && AllPartial(events[..|events| - 1], |text|)
    ensures var last := events[|events| - 1];
      var piece := if last.Accept? then text[..last.n] else [];
      before + Repeats(text, events[..|events| - 1]) + piece == before + Repeats(text, events)
  {
    var last := events[|events| - 1];
    Reassociate(before, Repeats(text, events[..|events| - 1]), if last.Accept? then text[..last.n] else []);
  }

  /**
   A buffered response followed to its end. Let the next `j` sends be partial or blocked and
   the one after them take the whole response. After `j` wake-ups and one more attempt the
   response is complete; before it, the wire holds the first bytes that each partial send
   took, again and again. The response is on the wire exactly once if and only if no send
   took some of it without the rest, neither now nor in the attempts before.
   */
  lemma BufferedExactly(s: Sys, j: nat)
    requires WireInv(s) && In(s, SendingResponse) && j < |s.w.net.sends|
    requires AllPartial(s.w.net.sends[..j], |s.c.respBuf|)
    requires s.w.net.sends[j].Accept? && s.w.net.sends[j].n >= |s.c.respBuf|
    ensures In(Run(s, j), SendingResponse)
    ensures var r, text := StepSend(Run(s, j)), s.c.respBuf;
      var again := Repeats(text, s.w.net.sends[..j]);
      && r.l.messages == s.l.messages + [Buffered(text, s.l.junk + again)]
      && r.l.wire == s.l.wire + again + text
      && (s.l.junk + again == [] <==> s.l.junk == [] && forall i :: 0 <= i < j ==> Nothing(s.w.net.sends[i]))
  {
    hide WireInv, Dispatch, SendSome, StepSend;
    var text, events := s.c.respBuf, s.w.net.sends[..j];
    PartialRun(s, j);
    RepeatsNothing(text, events);
    assert forall i :: 0 <= i < j ==> events[i] == s.w.net.sends[i];
    var m := Run(s, j);
    assert m.w.net.sends[0] == s.w.net.sends[j];
    AttemptRepeats(m);
    SendAccepts(m, text, s.w.net.sends[j].n);
    assert text[..|text|] == text;
  }

  lemma SendAccepts(s: Sys, text: bytes, n: nat)
    requires text != [] && s.w.net.sends != [] && s.w.net.sends[0] == Accept(n)
    ensures var (status, sent, _) := SendSome(s, text, 0);
      sent == AtMost(n, |text|) && status == if n >= |text| then SendOk else SendMore
  {
  }

  lemma PartialLeaves(s: Sys, n: nat)
    requires WireInv(s) && In(s, SendingResponse) && 0 < n < |s.c.respBuf|
    requires s.w.net.sends != [] && s.w.net.sends[0] == Accept(n)
    ensures var r := StepSend(s);
      && In(r, SendingResponse) && r.c.respBuf == s.c.respBuf && r.w.net.sends == s.w.net.sends[1..]
      && r.l.wire == s.l.wire + s.c.respBuf[..n]
  {
    AttemptRepeats(s);
    SendAccepts(s, s.c.respBuf, n);
  }

  /** A partial write followed by a whole one: the first bytes of the response appear twice. */
  lemma PartialWriteRepeats(s: Sys, n: nat)
    requires WireInv(s) && In(s, SendingResponse) && 0 < n < |s.c.respBuf|
    requires |s.w.net.sends| >= 2 && s.w.net.sends[0] == Accept(n) && s.w.net.sends[1] == Accept(|s.c.respBuf|)
    ensures StepSend(StepSend(s)).l.wire == s.l.wire + s.c.respBuf[..n] + s.c.respBuf
  {
    var text := s.c.respBuf;
    PartialLeaves(s, n);
    StepSendKeeps(s);
    var r := StepSend(s);
    hide WireInv, StepSend, SendSome;
    AttemptRepeats(r);
    SendAccepts(r, text, |text|);
    assert text[..|text|] == text;
  }
}
