/** Everything a run of the echo server sends, where it stops, and which streams it never answers. */
module EchoAnswers {
  import opened Wire
  import opened H2Generic
  import opened H2Frame
  import opened HpackString
  import opened EchoServer
  import opened EchoRuns

  // What a run sends.

  predicate Runs(code: Table, first: nat, frames: seq<WireFrame>) {
    HandleAll(code, Fresh(first), frames).status.Running?
  }

  lemma RanBefore(code: Table, first: nat, frames: seq<WireFrame>, f: WireFrame)
    requires Runs(code, first, frames + [f])
    ensures Runs(code, first, frames)
  {
    HandleAllSnoc(code, Fresh(first), frames, f);
  }

  predicate AsksForAcknowledgement(f: WireFrame) {
    (f.typ == PING || f.typ == SETTINGS) && !f.flags.endStreamOrAck
  }

  /** The body of an answer to `f` after `frames`. */
  function Echo(first: nat, frames: seq<WireFrame>, f: WireFrame): (r: Bytes) {
    AllFrameBytes(ToEcho(first, frames, f))
  }

  /** What is sent for `f` after `frames`: an answer, an acknowledgement, or nothing. */
  function Reply(code: Table, first: nat, frames: seq<WireFrame>, f: WireFrame): (r: seq<seq<Frame>>)
    ensures |r| <= 1
  {
    if Triggers(f) then [Answer(code, f.streamId, Echo(first, frames, f))]
    else if AsksForAcknowledgement(f) then [[Acknowledgement(f)]]
    else []
  }

  /** What is sent for a whole run, in order. */
  function Replies(code: Table, first: nat, frames: seq<WireFrame>): (r: seq<seq<Frame>>) {
    if frames == [] then []
    else
      var earlier, last := frames[..|frames| - 1], frames[|frames| - 1];
      Replies(code, first, earlier) + Reply(code, first, earlier, last)
  }

  /** The sent octets parse to the given frames, one by one. */
  ghost predicate Says(sent: seq<Bytes>, replies: seq<seq<Frame>>) {
    |sent| == |replies| && forall i | 0 <= i < |sent| :: ParseTyped(sent[i]) == Ok(replies[i])
  }

  lemma SaysOneMore(before: seq<Bytes>, after: seq<Bytes>, replies: seq<seq<Frame>>, reply: seq<Frame>)
    requires Says(before, replies)
    requires |after| == |before| + 1 && after[..|before|] == before && ParseTyped(after[|before|]) == Ok(reply)
    ensures Says(after, replies + [reply])
  {
    forall i | 0 <= i < |before|
      ensures after[i] == before[i]
    {
      assert after[..|before|][i] == before[i];
    }
  }

  /** A frame that neither triggers a response nor asks for an acknowledgement sends nothing. */
  lemma OthersSendNothing(code: Table, c: Conn, f: WireFrame)
    requires !Triggers(f) && !AsksForAcknowledgement(f)
    ensures Handle(code, c, f).conn.sent == c.sent
  {}

  /** A run that goes on has sent, in order, one answer for each frame that triggers a response and one
      acknowledgement for each that asks for it, and nothing else. */
  lemma {:induction false} RunSendsExactly(code: Table, first: nat, frames: seq<WireFrame>)
    requires Runs(code, first, frames)
    ensures Says(HandleAll(code, Fresh(first), frames).conn.sent, Replies(code, first, frames))
    decreases |frames|
  {
    if frames != [] {
      var earlier, last := frames[..|frames| - 1], frames[|frames| - 1];
      assert frames == earlier + [last];
      RanBefore(code, first, earlier, last);
      RunSendsExactly(code, first, earlier);
      StepSays(code, first, earlier, last);
    }
  }

  lemma StepSays(code: Table, first: nat, frames: seq<WireFrame>, f: WireFrame)
    requires Runs(code, first, frames)
    requires Runs(code, first, frames + [f])
    requires Says(HandleAll(code, Fresh(first), frames).conn.sent, Replies(code, first, frames))
    ensures Says(HandleAll(code, Fresh(first), frames + [f]).conn.sent,
                 Replies(code, first, frames) + Reply(code, first, frames, f))
  {
    var before, after := HandleAll(code, Fresh(first), frames).conn, HandleAll(code, Fresh(first), frames + [f]).conn;
    HandleAllSnoc(code, Fresh(first), frames, f);
    if Triggers(f) {
      AnswerEchoesArrivals(code, first, frames, f);
      SaysOneMore(before.sent, after.sent, Replies(code, first, frames), Answer(code, f.streamId, Echo(first, frames, f)));
    } else if AsksForAcknowledgement(f) {
      Acknowledges(code, before, f);
      SaysOneMore(before.sent, after.sent, Replies(code, first, frames), [Acknowledgement(f)]);
    } else {
      OthersSendNothing(code, before, f);
      assert Replies(code, first, frames) + [] == Replies(code, first, frames);
    }
  }

  // Where a run stops.

  /** Whether the connection goes on after `f`. */
  predicate GoesOn(first: nat, frames: seq<WireFrame>, f: WireFrame) {
    && f.typ != GOAWAY
    && (Triggers(f) ==> f.streamId != 0 && |Echo(first, frames, f)| < MAX_PAYLOAD)
    && (f.typ == RST_STREAM ==> Of(Arrivals(first, frames), f.streamId, ClosedAt(first, frames, f.streamId)) != [])
    && (f.typ == PING && AsksForAcknowledgement(f) ==> |f.payload| >= 8)
  }

  /** The connection goes on exactly so; it returns on GOAWAY and otherwise raises. */
  lemma StopsExactly(code: Table, first: nat, frames: seq<WireFrame>, f: WireFrame)
    requires Runs(code, first, frames)
    ensures var status := HandleAll(code, Fresh(first), frames + [f]).status;
            && (status.Running? <==> GoesOn(first, frames, f))
            && (status.Returned? <==> f.typ == GOAWAY)
  {
    var c := HandleAll(code, Fresh(first), frames).conn;
    HandleAllSnoc(code, Fresh(first), frames, f);
    ConnectionTracks(code, first, frames);
    ReturnsOnGoAway(code, c, f);
    if Triggers(f) {
      TriggerSurvives(code, first, frames, f);
    } else if AsksForAcknowledgement(f) {
      Acknowledges(code, c, f);
    } else {
      OthersGoOn(code, c, f);
    }
  }

  lemma ReturnsOnGoAway(code: Table, c: Conn, f: WireFrame)
    ensures Handle(code, c, f).status.Returned? <==> f.typ == GOAWAY
  {}

  lemma OthersGoOn(code: Table, c: Conn, f: WireFrame)
    requires !Triggers(f) && !AsksForAcknowledgement(f)
    ensures Handle(code, c, f).status.Running? <==> f.typ != GOAWAY && (f.typ == RST_STREAM ==> f.streamId in c.collected)
  {}

  lemma RefusedResponseSendsNothing(code: Table, c: Conn, stream: nat)
    requires !Respond(code, c, stream).status.Running?
    ensures Respond(code, c, stream).conn.sent == c.sent
  {}

  lemma RefusedFrameSendsNothing(c: Conn, f: Frame)
    requires !Send(c, f).status.Running?
    ensures Send(c, f).conn.sent == c.sent
  {}

  /** The step at which a connection stops sends nothing. */
  lemma StoppingSendsNothing(code: Table, c: Conn, f: WireFrame)
    requires !Handle(code, c, f).status.Running?
    ensures Handle(code, c, f).conn.sent == c.sent
  {
    if Triggers(f) {
      TriggerResponds(code, c, f);
      RefusedResponseSendsNothing(code, Collect(c, f), f.streamId);
    } else if AsksForAcknowledgement(f) {
      AcknowledgesBySending(code, c, f);
      RefusedFrameSendsNothing(if f.typ == SETTINGS then Collect(c, f) else c, Acknowledgement(f));
    } else {
      OthersSendNothing(code, c, f);
    }
  }

  lemma LastStepStops(code: Table, first: nat, frames: seq<WireFrame>, f: WireFrame)
    requires Runs(code, first, frames)
    requires !Runs(code, first, frames + [f])
    ensures !GoesOn(first, frames, f)
    ensures Says(HandleAll(code, Fresh(first), frames + [f]).conn.sent, Replies(code, first, frames))
  {
    HandleAllSnoc(code, Fresh(first), frames, f);
    RunSendsExactly(code, first, frames);
    StopsExactly(code, first, frames, f);
    StoppingSendsNothing(code, HandleAll(code, Fresh(first), frames).conn, f);
  }

  /** `step` is how a run ends that stops at frame `k`, having sent exactly what was due before. */
  ghost predicate StopsAt(code: Table, first: nat, frames: seq<WireFrame>, k: nat, step: Step) {
    && k < |frames|
    && HandleAll(code, Fresh(first), frames[..k]).status.Running?
    && !GoesOn(first, frames[..k], frames[k])
    && Says(step.conn.sent, Replies(code, first, frames[..k]))
  }

  lemma StoppedStaysStopped(code: Table, first: nat, before: seq<WireFrame>, after: seq<WireFrame>)
    requires !Runs(code, first, before)
    ensures HandleAll(code, Fresh(first), before + after) == HandleAll(code, Fresh(first), before)
  {
    HandleAllConcat(code, Fresh(first), before, after);
  }

  lemma Prefixes(frames: seq<WireFrame>, k: nat)
    requires k < |frames|
    ensures frames[..k + 1] == frames[..k] + [frames[k]]
    ensures frames == frames[..k + 1] + frames[k + 1..]
  {}

  lemma StopsBetween(code: Table, first: nat, frames: seq<WireFrame>, k: nat)
    requires k < |frames| && Runs(code, first, frames[..k]) && !Runs(code, first, frames[..k + 1])
    ensures StopsAt(code, first, frames, k, HandleAll(code, Fresh(first), frames))
  {
    Prefixes(frames, k);
    LastStepStops(code, first, frames[..k], frames[k]);
    StoppedStaysStopped(code, first, frames[..k + 1], frames[k + 1..]);
  }

  /** Where a property of prefixes that holds of `i` and not of `n` is lost. */
  lemma {:induction false} LostBetween(p: nat -> bool, i: nat, n: nat) returns (k: nat)
    requires i <= n && p(i) && !p(n)
    ensures i <= k < n && p(k) && !p(k + 1)
    decreases n - i
  {
    k := i;
    if p(i + 1) {
      k := LostBetween(p, i + 1, n);
    }
  }

  /** A run that stops has sent exactly what was due before the frame at which it stopped. */
  lemma StoppedRunSends(code: Table, first: nat, frames: seq<WireFrame>) returns (k: nat)
    requires !Runs(code, first, frames)
    ensures StopsAt(code, first, frames, k, HandleAll(code, Fresh(first), frames))
  {
    var p := (j: nat) => j <= |frames| && Runs(code, first, frames[..j]);
    assert frames[..|frames|] == frames && frames[..0] == [];
    k := LostBetween(p, 0, |frames|);
    StopsBetween(code, first, frames, k);
  }

  // Which ended streams are answered.

  /** END_STREAM (sections 6.1 and 6.2 of RFC 9113): the sender has finished the stream. */
  predicate EndsStream(f: WireFrame) {
    f.flags.endStreamOrAck && (f.typ == DATA || f.typ == HEADERS)
  }

  ghost predicate IsAnswered(before: Conn, after: Conn, answer: seq<Frame>) {
    && |after.sent| == |before.sent| + 1
    && after.sent[..|before.sent|] == before.sent
    && ParseTyped(after.sent[|before.sent|]) == Ok(answer)
  }

  lemma SendsNothing(code: Table, first: nat, frames: seq<WireFrame>, f: WireFrame)
    requires Runs(code, first, frames) && !AsksForAcknowledgement(f)
    requires !Runs(code, first, frames + [f]) || !Triggers(f)
    ensures HandleAll(code, Fresh(first), frames + [f]).conn.sent == HandleAll(code, Fresh(first), frames).conn.sent
  {
    HandleAllSnoc(code, Fresh(first), frames, f);
    if Triggers(f) {
      StoppingSendsNothing(code, HandleAll(code, Fresh(first), frames).conn, f);
    } else {
      OthersSendNothing(code, HandleAll(code, Fresh(first), frames).conn, f);
    }
  }

  lemma TriggerIsAnswered(code: Table, first: nat, frames: seq<WireFrame>, f: WireFrame)
    requires Runs(code, first, frames) && Runs(code, first, frames + [f]) && Triggers(f)
    ensures IsAnswered(HandleAll(code, Fresh(first), frames).conn, HandleAll(code, Fresh(first), frames + [f]).conn,
                       Answer(code, f.streamId, Echo(first, frames, f)))
  {
    AnswerEchoesArrivals(code, first, frames, f);
  }

  /** A frame with END_STREAM is answered if and only if it is DATA, or HEADERS that has END_HEADERS as well,
      the stream is not zero, and the log fits in one DATA frame; otherwise it sends nothing. */
  lemma AnswersExactly(code: Table, first: nat, frames: seq<WireFrame>, f: WireFrame)
    requires Runs(code, first, frames) && EndsStream(f)
    ensures var before, after := HandleAll(code, Fresh(first), frames).conn, HandleAll(code, Fresh(first), frames + [f]).conn;
            var body := Echo(first, frames, f);
            var answered := IsAnswered(before, after, Answer(code, f.streamId, body));
            && (answered <==> (f.typ == HEADERS ==> f.flags.endHeaders) && f.streamId != 0 && |body| < MAX_PAYLOAD)
            && (!answered ==> after.sent == before.sent)
  {
    StopsExactly(code, first, frames, f);
    if !GoesOn(first, frames, f) || !Triggers(f) {
      SendsNothing(code, first, frames, f);
    } else {
      TriggerIsAnswered(code, first, frames, f);
    }
  }

  /** DATA with END_STREAM on stream 0 of a new connection raises and is not answered. */
  lemma StreamZeroIsNotAnswered(code: Table)
    ensures var f := GenericFrame(DATA, Flags(endStreamOrAck := true), false, 0, []);
            HandleAll(code, Fresh(0), [f]).status == Raised && HandleAll(code, Fresh(0), [f]).conn.sent == []
  {
    var f: WireFrame := GenericFrame(DATA, Flags(endStreamOrAck := true), false, 0, []);
    FirstFrameStops(code, f);
  }

  /** Nor is a DATA frame of the greatest length: echoing it takes nine octets more. */
  lemma LongestFrameIsNotAnswered(code: Table)
    ensures var f := GenericFrame(DATA, Flags(endStreamOrAck := true), false, 1, Zeros(MAX_PAYLOAD - 1));
            && f.Valid()
            && HandleAll(code, Fresh(0), [f]).status == Raised && HandleAll(code, Fresh(0), [f]).conn.sent == []
  {
    var f: WireFrame := GenericFrame(DATA, Flags(endStreamOrAck := true), false, 1, Zeros(MAX_PAYLOAD - 1));
    FirstEcho(f);
    FirstFrameStops(code, f);
  }

  lemma FirstArrival(f: WireFrame)
    requires IsLogged(f)
    ensures Arrivals(0, [f]) == [Logged(0, f)]
  {
    assert [f][..0] == [];
  }

  lemma OneOfBoth(l: Logged, other: nat)
    ensures OfBoth([l], l.frame.streamId, 0, other, 0) == [l]
  {
    assert [l][..0] == [];
  }

  lemma FirstToEcho(f: WireFrame)
    requires IsLogged(f)
    ensures ToEcho(0, [], f) == [f]
  {
    FirstArrival(f);
    OneOfBoth(Logged(0, f), 0);
    assert [] + [f] == [f];
  }

  lemma FirstEcho(f: WireFrame)
    requires IsLogged(f)
    ensures Echo(0, [], f) == FrameBytes(f)
  {
    FirstToEcho(f);
    OneFrameBytes([f]);
  }

  lemma FirstFrameStops(code: Table, f: WireFrame)
    requires f.typ != GOAWAY && !GoesOn(0, [], f)
    ensures HandleAll(code, Fresh(0), [f]).status == Raised && HandleAll(code, Fresh(0), [f]).conn.sent == []
  {
    StopsExactly(code, 0, [], f);
    HandleAllSnoc(code, Fresh(0), [], f);
    StoppingSendsNothing(code, Fresh(0), f);
    assert [] + [f] == [f];
  }

  lemma HeadersAreMarked(code: Table, c: Conn, h: WireFrame)
    requires h.typ == HEADERS && EndsStream(h) && !h.flags.endHeaders
    ensures var step := Handle(code, c, h);
            && step.status.Running? && step.conn.sent == c.sent
            && h.streamId in step.conn.ending && h.streamId in step.conn.collected
  {}

  lemma ContinuationIsLogged(code: Table, c: Conn, f: WireFrame)
    requires f.typ == CONTINUATION
    ensures Handle(code, c, f) == Step(Collect(c, f), Running)
  {}

  lemma {:induction false} ContinuationsAreLogged(code: Table, c: Conn, frames: seq<WireFrame>)
    requires forall i | 0 <= i < |frames| :: frames[i].typ == CONTINUATION
    ensures var step := HandleAll(code, c, frames);
            && step.status.Running? && step.conn.sent == c.sent && step.conn.ending == c.ending
            && c.collected.Keys <= step.conn.collected.Keys
    decreases |frames|
  {
    if frames != [] {
      ContinuationIsLogged(code, c, frames[0]);
      ContinuationsAreLogged(code, Collect(c, frames[0]), frames[1..]);
    }
  }

  /** A header block that is split is never answered: after HEADERS with END_STREAM but without END_HEADERS, and
      any CONTINUATION frames, whatever their flags, nothing has been sent and the stream still waits. */
  lemma SplitHeadersAreNotAnswered(code: Table, c: Conn, h: WireFrame, continuations: seq<WireFrame>)
    requires h.typ == HEADERS && EndsStream(h) && !h.flags.endHeaders
    requires forall i | 0 <= i < |continuations| :: continuations[i].typ == CONTINUATION
    ensures var step := HandleAll(code, c, [h] + continuations);
            && step.status.Running? && step.conn.sent == c.sent
            && h.streamId in step.conn.ending && h.streamId in step.conn.collected
  {
    HeadersAreMarked(code, c, h);
    ContinuationsAreLogged(code, Handle(code, c, h).conn, continuations);
    assert ([h] + continuations)[1..] == continuations;
  }

  /** On a new connection: HEADERS with END_STREAM, then CONTINUATION with END_HEADERS, on stream 1. */
  lemma SplitHeadersArePossible(code: Table)
    ensures var h := GenericFrame(HEADERS, Flags(endStreamOrAck := true), false, 1, []);
            var k := GenericFrame(CONTINUATION, Flags(endHeaders := true), false, 1, []);
            var step := HandleAll(code, Fresh(0), [h, k]);
            && step.status.Running? && step.conn.sent == []
            && 1 in step.conn.ending && 1 in step.conn.collected
  {
    var h: WireFrame := GenericFrame(HEADERS, Flags(endStreamOrAck := true), false, 1, []);
    var k: WireFrame := GenericFrame(CONTINUATION, Flags(endHeaders := true), false, 1, []);
    SplitHeadersAreNotAnswered(code, Fresh(0), h, [k]);
    assert [h] + [k] == [h, k];
  }

  /** Two connections that differ at most in `streams_ending`. */
  predicate SameButEnding(a: Conn, b: Conn) {
    a.(ending := {}) == b.(ending := {})
  }

  lemma StepIgnoresEnding(code: Table, a: Conn, b: Conn, f: WireFrame)
    requires SameButEnding(a, b)
    ensures Handle(code, a, f).status == Handle(code, b, f).status
    ensures SameButEnding(Handle(code, a, f).conn, Handle(code, b, f).conn)
  {
    if Triggers(f) {
      TriggerResponds(code, a, f);
      TriggerResponds(code, b, f);
      ResponseIgnoresEnding(code, Collect(a, f), Collect(b, f), f.streamId);
    } else if AsksForAcknowledgement(f) {
      AcknowledgesBySending(code, a, f);
      AcknowledgesBySending(code, b, f);
    } else {
      OthersOnlyLog(code, a, f);
      OthersOnlyLog(code, b, f);
    }
  }

  lemma ResponseIgnoresEnding(code: Table, a: Conn, b: Conn, stream: nat)
    requires SameButEnding(a, b)
    ensures Respond(code, a, stream).status == Respond(code, b, stream).status
    ensures SameButEnding(Respond(code, a, stream).conn, Respond(code, b, stream).conn)
  {
    assert RelevantFrames(a, stream) == RelevantFrames(b, stream);
  }

  lemma OthersOnlyLog(code: Table, c: Conn, f: WireFrame)
    requires !Triggers(f) && !AsksForAcknowledgement(f)
    ensures var step := Handle(code, c, f);
            if f.typ == RST_STREAM then step == CloseStream(c, f.streamId)
            else
              && step.status == (if f.typ == GOAWAY then Returned else Running)
              && SameButEnding(step.conn, if IsLogged(f) then Collect(c, f) else c)
  {}

  /** `streams_ending` is kept but decides nothing: whatever it holds, a run sends, logs and stops the same. */
  lemma {:induction false} EndingIsNeverRead(code: Table, a: Conn, b: Conn, frames: seq<WireFrame>)
    requires SameButEnding(a, b)
    ensures HandleAll(code, a, frames).status == HandleAll(code, b, frames).status
    ensures SameButEnding(HandleAll(code, a, frames).conn, HandleAll(code, b, frames).conn)
    decreases |frames|
  {
    if frames != [] {
      StepIgnoresEnding(code, a, b, frames[0]);
      if Handle(code, a, frames[0]).status.Running? {
        EndingIsNeverRead(code, Handle(code, a, frames[0]).conn, Handle(code, b, frames[0]).conn, frames[1..]);
      }
    }
  }
}
