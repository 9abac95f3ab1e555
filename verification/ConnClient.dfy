/**
 The other end of the wire: a client that is sent responses which tell their ends splits the
 bytes of a connection, in every run, back into exactly the responses that were due.
 */
module ConnClients {
  import opened Bytes
  import opened Config
  import opened Numbers
  import opened ChunkFrame
  import opened Requests
  import opened Responses
  import opened Network
  import opened ConnSpec
  import opened Framing
  import opened ConnWire
  import opened ConnAnswers
  import opened Clients

  // ---------------------------------------------------------------- what is due tells its end

  /** A reply that leaves its framing to the server and says where it ends. */
  predicate Telling(reply: Reply) {
    && ServerFramed(reply.Wire()) && SaysLength(reply.Wire())
    && (reply.Plain? ==> !reply.response.kind.BodyStream?)
  }

  predicate AllTelling(replies: seq<Reply>) { forall i :: 0 <= i < |replies| ==> Telling(replies[i]) }

  lemma TextTells(r: Response, date: Date, keepAlive: bool)
    requires ServerFramed(r) && SaysLength(r) && !r.kind.BodyStream?
    ensures TellsItsEnd(Text(r, date, keepAlive)) && Text(r, date, keepAlive) != []
  {
    hide ServerFramed, SaysLength, TellsItsEnd, Serialize, ErrorResponse;
    ErrorSaysLength(ServerError);
    ErrorIsBuffer(ServerError);
    SerializedTells(r, date, RESPONSE_BUFFER_SIZE, keepAlive);
    SerializedTells(ErrorResponse(ServerError), date, RESPONSE_BUFFER_SIZE, keepAlive);
    ErrorFits(ServerError, date, keepAlive);
  }

  lemma ErrorIsBuffer(status: ParseStatus)
    ensures ErrorResponse(status).kind.BodyBuffer?
  {
  }

  lemma ErrorBytesTell(status: ParseStatus, date: Date)
    ensures TellsItsEnd(ErrorBytes(status, date)) && ErrorBytes(status, date) != []
  {
    hide ServerFramed, SaysLength, TellsItsEnd, Serialize, ErrorResponse;
    ErrorSaysLength(status);
    ErrorIsBuffer(status);
    ErrorFits(status, date, false);
    SerializedTells(ErrorResponse(status), date, RESPONSE_BUFFER_SIZE, false);
  }

  lemma StreamTextTells(r: Response, date: Date, keepAlive: bool, head: bytes, script: seq<PullEvent>)
    requires ServerFramed(r) && SaysLength(r) && r.kind.BodyStream?
    requires Serialize(r, date, RESPONSE_BUFFER_SIZE, keepAlive) == Some(head)
    ensures TellsItsEnd(StreamText(head, script)) && StreamText(head, script) != []
  {
    DataSendable(script);
    StreamTellsExactly(r, date, keepAlive, DataOf(script));
    assert BodyBytes(r) == [] && head == HeadText(r, date, keepAlive);
    hide ServerFramed, SaysLength, TellsItsEnd, HeadText, Frames, DataOf;
    assert |LAST_FRAME| == 5;
  }

  lemma {:induction false} DataSendable(script: seq<PullEvent>)
    ensures Sendable(DataOf(script))
  {
    if script != [] && script[0].PullOk? { DataSendable(script[1..]); }
  }

  lemma ReplyTells(reply: Reply, date: Date, keepAlive: bool)
    requires Telling(reply)
    ensures TellsItsEnd(ReplyText(reply, date, keepAlive)) && ReplyText(reply, date, keepAlive) != []
  {
    hide ServerFramed, SaysLength, TellsItsEnd, Serialize, Text, StreamText, ErrorResponse;
    var r := reply.Wire();
    match reply
    case Plain(_) =>
      TextTells(r, date, keepAlive);
    case Stream(_, p) =>
      match Serialize(r, date, RESPONSE_BUFFER_SIZE, keepAlive)
      case Some(head) => StreamTextTells(r, date, keepAlive, head, p.script);
      case None =>
        ErrorSaysLength(ServerError);
        ErrorIsBuffer(ServerError);
        TextTells(ErrorResponse(ServerError), date, keepAlive);
  }

  lemma ContinueTells()
    ensures TellsItsEnd(CONTINUE_100) && CONTINUE_100 != []
  {
    forall rest: bytes ensures FirstLength(CONTINUE_100 + rest) == Some(|CONTINUE_100|) {
      InterimLength(CONTINUE_100 + rest);
    }
  }

  /** The interim response as one without headers. */
  function Interim(): Response { Response(100, CONTINUE_100[13..21], [], BodyNone, false) }

  lemma InterimStart()
    ensures StartLine(Interim()) == CONTINUE_100[..23] && CR !in Interim().reason
  {
    InterimDigits();
  }

  lemma InterimLength(s: bytes)
    requires CONTINUE_100 <= s
    ensures FirstLength(s) == Some(25)
  {
    assert s[..25] == CONTINUE_100 && s[..23] == CONTINUE_100[..23] && s[23] == CR && s[24] == LF;
    InterimStart();
    hide StartLine, FirstLength, StatusOf, FindCrlf, Digits;
    StatusLineRead(Interim(), s);
    StatusRead(Interim());
    assert ParseBlock(s, 23, |s|, []) == Success(([], 25));
    FirstIs(s, 21, 100, [], 25);
  }

  lemma InterimDigits()
    ensures Digits(100, 10) == [49, 48, 48]
  {
    assert Digits(1, 10) == [49];
    assert Digits(10, 10) == [49, 48];
  }

  // ---------------------------------------------------------------- what is sent

  /** The bytes of each message, in order. */
  function Sent(messages: seq<Message>): seq<bytes> {
    if messages == [] then [] else Sent(messages[..|messages| - 1]) + [MessageText(messages[|messages| - 1])]
  }

  lemma {:induction false} SentTexts(messages: seq<Message>)
    ensures Concat(Sent(messages)) == Texts(messages)
    decreases |messages|
  {
    if messages != [] {
      var init, last := messages[..|messages| - 1], MessageText(messages[|messages| - 1]);
      SentTexts(init);
      ConcatAppend(Sent(init), [last]);
      assert [last][1..] == [] && last + [] == last;
    }
  }

  /** No buffered response was repeated in part. */
  predicate NoRepeats(messages: seq<Message>) {
    forall i :: 0 <= i < |messages| && messages[i].Buffered? ==> messages[i].junk == []
  }

  lemma {:induction false} SentTell(messages: seq<Message>)
    requires NoRepeats(messages) && AllTell(Finals(messages))
    ensures AllTell(Sent(messages))
    decreases |messages|
  {
    hide TellsItsEnd;
    if messages != [] {
      var init, m := messages[..|messages| - 1], messages[|messages| - 1];
      var finals := Finals(init);
      assert Finals(messages) == finals + FinalOf(m);
      forall i | 0 <= i < |finals| ensures TellsItsEnd(finals[i]) && finals[i] != [] {
        assert Finals(messages)[i] == finals[i];
      }
      forall i | 0 <= i < |init| && init[i].Buffered? ensures init[i].junk == [] {
        assert init[i] == messages[i];
      }
      SentTell(init);
      if m.Continue? {
        ContinueTells();
      } else {
        assert m.Buffered? ==> [] + m.text == m.text;
        assert Finals(messages)[|finals|] == MessageText(m);
      }
    }
  }

  lemma DueTells(o: Origin, built: seq<Built>, answers: seq<Answer>, i: nat)
    requires AllTelling(o.replies) && Numbered(answers, |built|) && i < |answers|
    ensures TellsItsEnd(DueAt(o, built, answers, i)) && DueAt(o, built, answers, i) != []
  {
    DueIs(o, built, answers, i);
    hide *;
    match answers[i]
    case Refusal(status, _, _) => ErrorBytesTell(status, DateAt(o, i));
    case ReplyTo(nth) =>
      NumberedBounds(answers, |built|, i);
      ReplyAtTells(o, nth - 1);
      ReplyTells(ReplyAt(o, nth - 1), DateAt(o, i), KeepAliveOf(o, i, built[nth - 1]));
  }

  lemma DueIs(o: Origin, built: seq<Built>, answers: seq<Answer>, i: nat)
    requires i < |answers|
    ensures answers[i].Refusal? ==> DueAt(o, built, answers, i) == ErrorBytes(answers[i].status, DateAt(o, i))
    ensures answers[i].ReplyTo? && 0 < answers[i].nth <= |built| ==>
              var n := answers[i].nth - 1;
              DueAt(o, built, answers, i) == ReplyText(ReplyAt(o, n), DateAt(o, i), KeepAliveOf(o, i, built[n]))
  {
    hide ReplyText, ErrorBytes, KeepAliveOf;
  }

  lemma ReplyAtTells(o: Origin, i: nat)
    requires AllTelling(o.replies)
    ensures Telling(ReplyAt(o, i))
  {
    hide ServerFramed, SaysLength;
    ErrorSaysLength(NotFound);
  }

  // ---------------------------------------------------------------- every run

  lemma FinalsTell(o: Origin, s: Sys)
    requires AllTelling(o.replies) && Answered(o, s)
    ensures AllTell(Finals(s.l.messages))
  {
    hide TellsItsEnd, Numbered, DueAt, Finals, AllTelling;
    var finals := Finals(s.l.messages);
    forall i | 0 <= i < |finals| ensures TellsItsEnd(finals[i]) && finals[i] != [] {
      assert RecordedAt(o, s.l.built, s.l.answers, finals, i);
      DueTells(o, s.l.built, s.l.answers, i);
    }
  }

  lemma WireParts(s: Sys)
    requires WireInv(s)
    ensures s.l.wire == Texts(s.l.messages) + (s.l.junk + s.l.current)
    ensures s.c.phase !in {Closed, Sending100, SendingResponse, SendingStream} ==> s.l.junk + s.l.current == []
  {
    Reassociate(Texts(s.l.messages), s.l.junk, s.l.current);
  }

  lemma NothingMore(texts: seq<bytes>, current: bytes)
    ensures texts + Split([]) == texts + [] == texts && [] + current == current
  {
  }

  /** What is under way tells its end. */
  lemma DueTelling(o: Origin, s: Sys)
    requires AllTelling(o.replies) && Answered(o, s) && WireInv(s)
    requires s.c.phase in {Sending100, SendingResponse, SendingStream}
    ensures TellsItsEnd(s.l.due) && s.l.current <= s.l.due
  {
    hide TellsItsEnd, Numbered, DueAt, Finals, AllTelling, WireAccounted, SendKnown, LifeKnown;
    if s.c.phase == Sending100 {
      ContinueTells();
    } else {
      DueTells(o, s.l.built, s.l.answers, s.c.requests);
    }
  }

  /**
   The client. In every run whose replies leave their framing to the server and say their
   lengths, as long as no buffered response was sent in part, the client splits the bytes on
   the wire into exactly the messages that were sent, in order, and then what is under way.
   It takes nothing under way for a response: neither when the connection reads or builds,
   nor when it sends and something is still to be sent.
   */
  lemma ClientReads(c: Conn, w: World, k: nat)
    requires c.producer == None && AllTelling(w.replies) && NoRepeats(Run(Start(c, w), k).l.messages)
    ensures var s := Run(Start(c, w), k);
      && Split(s.l.wire) == Sent(s.l.messages) + Split(s.l.junk + s.l.current)
      && (s.c.phase !in {Closed, Sending100, SendingResponse, SendingStream} ==>
            Split(s.l.wire) == Sent(s.l.messages))
      && (s.c.phase in {Sending100, SendingResponse, SendingStream} && s.l.junk == [] && s.l.current != s.l.due ==>
            Split(s.l.wire) == Sent(s.l.messages))
  {
    assert OriginOf(c, w).replies == w.replies;
    hide *;
    var s := Run(Start(c, w), k);
    RunKeeps(c, w, k);
    RunAnswers(c, w, k);
    FinalsTell(OriginOf(c, w), s);
    SentTell(s.l.messages);
    SentTexts(s.l.messages);
    WireParts(s);
    SplitBack(Sent(s.l.messages), s.l.junk + s.l.current);
    NothingMore(Sent(s.l.messages), s.l.current);
    if s.c.phase in {Sending100, SendingResponse, SendingStream} && s.l.current != s.l.due {
      DueTelling(OriginOf(c, w), s);
      PartUnsplit(s.l.current, s.l.due);
    }
  }
}
