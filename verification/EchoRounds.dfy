/** A connection as the socket delivers it: octets in rounds, cut wherever a read happened to end. */
module EchoRounds {
  import opened Wire
  import opened H2Generic
  import opened H2Frame
  import opened HpackString
  import opened EchoServer
  import opened EchoRuns
  import opened EchoAnswers

  ghost predicate WholeFrames(rounds: seq<Bytes>) {
    forall i | 0 <= i < |rounds| :: FramesOf(rounds[i]).Some?
  }

  ghost function AllFrames(rounds: seq<Bytes>): seq<WireFrame>
    requires WholeFrames(rounds)
  {
    if rounds == [] then [] else FramesOf(rounds[0]).value + AllFrames(rounds[1..])
  }

  /** How many rounds consist of whole frames before the first that does not. */
  function LeadingRounds(rounds: seq<Bytes>): (r: nat)
    ensures r <= |rounds|
  {
    if rounds == [] || FramesOf(rounds[0]).None? then 0 else 1 + LeadingRounds(rounds[1..])
  }

  lemma {:induction false} LeadingRoundsAreWhole(rounds: seq<Bytes>)
    ensures WholeFrames(rounds[..LeadingRounds(rounds)])
    ensures LeadingRounds(rounds) < |rounds| ==> FramesOf(rounds[LeadingRounds(rounds)]).None?
  {
    if rounds != [] && FramesOf(rounds[0]).Some? {
      LeadingRoundsAreWhole(rounds[1..]);
      var n := LeadingRounds(rounds);
      forall i | 0 <= i < n
        ensures FramesOf(rounds[i]).Some?
      {
        if i > 0 {
          assert rounds[1..][..n - 1][i - 1] == rounds[i];
        }
      }
    }
  }

  /** The frames of those rounds. */
  ghost function LeadingFrames(rounds: seq<Bytes>): seq<WireFrame> {
    LeadingRoundsAreWhole(rounds);
    AllFrames(rounds[..LeadingRounds(rounds)])
  }

  lemma LeadingFramesUnfold(rounds: seq<Bytes>)
    requires rounds != [] && FramesOf(rounds[0]).Some?
    ensures LeadingRounds(rounds) == 1 + LeadingRounds(rounds[1..])
    ensures LeadingFrames(rounds) == FramesOf(rounds[0]).value + LeadingFrames(rounds[1..])
  {
    var n := LeadingRounds(rounds);
    LeadingRoundsAreWhole(rounds);
    LeadingRoundsAreWhole(rounds[1..]);
    assert rounds[..n][1..] == rounds[1..][..n - 1];
  }

  /** How a connection ends that has handled the whole frames and then meets a round that does not parse, if it does. */
  function Stopped(step: Step, cut: bool): Step {
    if step.status.Running? && cut then Step(step.conn, Raised) else step
  }

  /** The rounds before the first that does not parse are handled as one list of frames; then that round raises
      and changes nothing. */
  lemma {:induction false} RoundsExactly(code: Table, c: Conn, rounds: seq<Bytes>)
    ensures HandleRounds(code, c, rounds)
         == Stopped(HandleAll(code, c, LeadingFrames(rounds)), LeadingRounds(rounds) < |rounds|)
    decreases |rounds|
  {
    if rounds != [] && FramesOf(rounds[0]).Some? {
      var frames := FramesOf(rounds[0]).value;
      LeadingFramesUnfold(rounds);
      HandleAllConcat(code, c, frames, LeadingFrames(rounds[1..]));
      var first := HandleAll(code, c, frames);
      if first.status.Running? {
        RoundsExactly(code, first.conn, rounds[1..]);
      }
    } else {
      assert LeadingFrames(rounds) == [];
    }
  }

  lemma WholeRoundsLead(rounds: seq<Bytes>)
    ensures LeadingRounds(rounds) == |rounds| <==> WholeFrames(rounds)
    ensures WholeFrames(rounds) ==> LeadingFrames(rounds) == AllFrames(rounds)
  {
    var n := LeadingRounds(rounds);
    LeadingRoundsAreWhole(rounds);
    if n == |rounds| {
      assert rounds[..n] == rounds;
    } else {
      assert FramesOf(rounds[n]).None?;
    }
  }

  /** A connection goes on if and only if every round consists of whole frames and their run goes on. */
  lemma RoundsGoOnExactly(code: Table, c: Conn, rounds: seq<Bytes>)
    ensures HandleRounds(code, c, rounds).status.Running?
       <==> WholeFrames(rounds) && HandleAll(code, c, AllFrames(rounds)).status.Running?
  {
    RoundsExactly(code, c, rounds);
    WholeRoundsLead(rounds);
  }

  /** The first round that does not parse ends the connection as it was, whatever else would have come. */
  lemma BadRoundRaises(code: Table, c: Conn, before: seq<Bytes>, bad: Bytes, after: seq<Bytes>)
    requires HandleRounds(code, c, before).status.Running? && FramesOf(bad).None?
    ensures HandleRounds(code, c, before + ([bad] + after)) == Step(HandleRounds(code, c, before).conn, Raised)
  {
    var rounds := before + ([bad] + after);
    RoundsGoOnExactly(code, c, before);
    BadRoundIsFirst(before, bad, after);
    assert rounds[..|before|] == before;
    RoundsExactly(code, c, rounds);
    RoundsExactly(code, c, before);
    WholeRoundsLead(before);
  }

  lemma {:induction false} BadRoundIsFirst(before: seq<Bytes>, bad: Bytes, after: seq<Bytes>)
    requires WholeFrames(before) && FramesOf(bad).None?
    ensures LeadingRounds(before + ([bad] + after)) == |before|
  {
    var rounds := before + ([bad] + after);
    if before != [] {
      assert rounds[1..] == before[1..] + ([bad] + after);
      BadRoundIsFirst(before[1..], bad, after);
    }
  }

  // What a connection has sent.

  /** `k` of the frames have been answered: all of them, or those before the first after which the run does not go on. */
  ghost predicate HandledUpTo(code: Table, first: nat, frames: seq<WireFrame>, k: nat) {
    && k <= |frames|
    && Runs(code, first, frames[..k])
    && (k < |frames| ==> !GoesOn(first, frames[..k], frames[k]))
  }

  lemma HandledAll(code: Table, first: nat, frames: seq<WireFrame>) returns (k: nat)
    ensures HandledUpTo(code, first, frames, k)
    ensures Says(HandleAll(code, Fresh(first), frames).conn.sent, Replies(code, first, frames[..k]))
  {
    if Runs(code, first, frames) {
      k := |frames|;
      assert frames[..k] == frames;
      RunSendsExactly(code, first, frames);
    } else {
      k := StoppedRunSends(code, first, frames);
    }
  }

  /** On any rounds at all: a connection has sent exactly what was due for the whole frames before it stopped. */
  lemma RoundsSendExactly(code: Table, first: nat, rounds: seq<Bytes>) returns (k: nat)
    ensures HandledUpTo(code, first, LeadingFrames(rounds), k)
    ensures Says(HandleRounds(code, Fresh(first), rounds).conn.sent, Replies(code, first, LeadingFrames(rounds)[..k]))
  {
    RoundsExactly(code, Fresh(first), rounds);
    k := HandledAll(code, first, LeadingFrames(rounds));
  }

  // Whether the cuts matter.

  lemma {:induction false} RoundsParseTogether(rounds: seq<Bytes>)
    requires WholeFrames(rounds)
    ensures FramesOf(Join(rounds)) == Some(AllFrames(rounds))
  {
    if rounds != [] {
      RoundsParseTogether(rounds[1..]);
      ParsedFramesArePrinted(rounds[0]);
      FramesThenRest(FramesOf(rounds[0]).value, Join(rounds[1..]));
    }
  }

  lemma OneRound(code: Table, c: Conn, received: Bytes)
    requires FramesOf(received).Some?
    ensures HandleRounds(code, c, [received]) == HandleAll(code, c, FramesOf(received).value)
  {
    assert [received][1..] == [];
  }

  /** Cuts between frames make no difference. */
  lemma RoundsDoNotMatter(code: Table, c: Conn, rounds: seq<Bytes>)
    requires WholeFrames(rounds)
    ensures HandleRounds(code, c, rounds) == HandleRounds(code, c, [Join(rounds)])
  {
    RoundsExactly(code, c, rounds);
    WholeRoundsLead(rounds);
    RoundsParseTogether(rounds);
    OneRound(code, c, Join(rounds));
  }

  /** Of octets after which the connection goes on when they come in one round, the cuts make no difference
      if and only if they lie between frames. */
  lemma CutsMatterExactly(code: Table, c: Conn, rounds: seq<Bytes>)
    requires HandleRounds(code, c, [Join(rounds)]).status.Running?
    ensures HandleRounds(code, c, rounds) == HandleRounds(code, c, [Join(rounds)]) <==> WholeFrames(rounds)
  {
    RoundsGoOnExactly(code, c, rounds);
    if WholeFrames(rounds) {
      RoundsDoNotMatter(code, c, rounds);
    }
  }

  lemma CutFrameIsNoFrame(f: WireFrame, k: nat)
    requires 0 < k < |FrameBytes(f)|
    ensures FramesOf(FrameBytes(f)[..k]).None?
  {
    TruncationIsAnError([], f, k);
    assert [] + FrameBytes(f)[..k] == FrameBytes(f)[..k];
  }

  /** A frame cut in two rounds raises in the first of them, whatever the frame. */
  lemma CutFrameRaises(code: Table, c: Conn, f: WireFrame, k: nat)
    requires 0 < k < |FrameBytes(f)|
    ensures HandleRounds(code, c, [FrameBytes(f)[..k], FrameBytes(f)[k..]]) == Step(c, Raised)
  {
    CutFrameIsNoFrame(f, k);
  }

  /** On a new connection: a SETTINGS frame is acknowledged when it comes whole, and raises when it is cut. */
  lemma CutsArePossible(code: Table)
    ensures var octets := FrameBytes(GenericFrame(SETTINGS, Flags(), false, 0, []));
            && HandleRounds(code, Fresh(0), [octets]).status.Running?
            && |HandleRounds(code, Fresh(0), [octets]).conn.sent| == 1
            && HandleRounds(code, Fresh(0), [octets[..1], octets[1..]]) == Step(Fresh(0), Raised)
  {
    var f: WireFrame := GenericFrame(SETTINGS, Flags(), false, 0, []);
    OneFrameBytes([f]);
    FramesAreABijection(FrameBytes(f), [f]);
    OneRound(code, Fresh(0), FrameBytes(f));
    HandleAllSnoc(code, Fresh(0), [], f);
    assert [] + [f] == [f];
    Acknowledges(code, Fresh(0), f);
    CutFrameRaises(code, Fresh(0), f, 1);
  }
}
