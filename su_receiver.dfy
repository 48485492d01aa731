/**
 * The supervision-frame receiver readSU of src/link_layer.c and its two
 * wrappers readSU_OC and readSU_RW.
 *
 * The receiver consumes one octet per step in the six states of SU_State.
 * With `ctrl` other than 0xFF it waits for that one control octet (open and
 * close); with `ctrl` 0xFF it waits for the receiver-ready octet of
 * `frameNum` and gives up at once, with result 0, on the reject octet.
 *
 * The serial port is a finite sequence of read results. When it runs out
 * before the frame is complete the transmitter's alarm has fired, and
 * readSU returns 0 for a timeout.
 */
module SuReceiver {
  import opened FrameDefs
  import opened FrameUtils

  /** The `ctrl` argument that selects acknowledgement mode (readSU_RW). */
  const AckMode: Byte := 0xFF

  /** Size of `int`: the memset on resynchronisation clears sizeof(SU_BUF_SIZE) octets. */
  const IntSize: nat := 4

  /**
   * SU_C_RR(n) and SU_C_REJ(n) are used by readSU but no header defines
   * them; they pick RR0/RR1 and REJ0/REJ1 by the parity of n, as I_C does.
   */
  function Rr(frameNum: int): Byte { if frameNum % 2 == 0 then CtrlRr0 else CtrlRr1 }

  function Rej(frameNum: int): Byte { if frameNum % 2 == 0 then CtrlRej0 else CtrlRej1 }

  /** The control octet that moves SU_A_STATE to SU_C_STATE. */
  function Awaited(ctrl: Byte, frameNum: int): Byte
  {
    if ctrl != AckMode then ctrl else Rr(frameNum)
  }

  /** One result of readByteSerialPort. */
  datatype Read = Got(b: Byte) | ReadFailed

  /** The effect of one octet: a new state, or readSU's early return on a reject. */
  datatype Move = Goto(state: SuState) | RejSeen

  /** How a call of readSU ends; Code gives its C return value. */
  datatype SuOutcome = FrameOk | Refused | Silent | ReadError

  /** The outcome of a run and how many read results it consumed. */
  datatype RunResult = RunResult(outcome: SuOutcome, used: nat)

  function Code(o: SuOutcome): int
  {
    match o
    case FrameOk => 1
    case Refused => 0
    case Silent => 0
    case ReadError => -1
  }

  /** One pass of readSU's switch. SU_DONE is never stepped from: the loop has ended. */
  function Step(ctrl: Byte, frameNum: int, s: SuState, b: Byte): Move
  {
    match s
    case SuStart =>
      if b == Flag then Goto(SuFlagRcv) else Goto(SuStart)
    case SuFlagRcv =>
      if b == AddrTx then Goto(SuARcv)
      else if b == Flag then Goto(SuFlagRcv)
      else Goto(SuStart)
    case SuARcv =>
      if ctrl != AckMode then
        if b == ctrl then Goto(SuCRcv)
        else if b == Flag then Goto(SuFlagRcv)
        else Goto(SuStart)
      else if b == Rr(frameNum) then Goto(SuCRcv)
      else if b == Rej(frameNum) then RejSeen
      else if b == Flag then Goto(SuFlagRcv)
      else Goto(SuStart)
    case SuCRcv =>
      if b == SuBcc1(AddrTx, Awaited(ctrl, frameNum)) then Goto(SuBccOk)
      else if b == Flag then Goto(SuFlagRcv)
      else Goto(SuStart)
    case SuBccOk =>
      if b == Flag then Goto(SuDone) else Goto(SuStart)
    case SuDone =>
      Goto(SuDone)
  }

  /** readSU from state `s` over the read results `input`. */
  function Run(ctrl: Byte, frameNum: int, s: SuState, input: seq<Read>): RunResult
    decreases |input|
  {
    if s == SuDone then RunResult(FrameOk, 0)
    else if input == [] then RunResult(Silent, 0)
    else match input[0]
      case ReadFailed => RunResult(ReadError, 1)
      case Got(b) =>
        match Step(ctrl, frameNum, s, b)
        case RejSeen => RunResult(Refused, 1)
        case Goto(t) =>
          var r := Run(ctrl, frameNum, t, input[1..]);
          RunResult(r.outcome, r.used + 1)
  }

  /**
   * Only a reject for the awaited frame in acknowledgement mode, seen right
   * after the address, ends a run early, and SU_DONE is reached only on a
   * flag in SU_BCC_STATE.
   */
  lemma StepExits(ctrl: Byte, frameNum: int, s: SuState, b: Byte)
    ensures Step(ctrl, frameNum, s, b) == RejSeen <==> ctrl == AckMode && s == SuARcv && b == Rej(frameNum)
    ensures Step(ctrl, frameNum, s, b) == Goto(SuDone) <==> s == SuDone || (s == SuBccOk && b == Flag)
  {
  }

  /**
   * What a run reports is borne out by the input: it never reads past the
   * end, a timeout has read everything, a read error and a reject are the
   * last results read, and rejects occur in acknowledgement mode only.
   */
  lemma {:induction false} RunReports(ctrl: Byte, frameNum: int, s: SuState, input: seq<Read>)
    ensures var r := Run(ctrl, frameNum, s, input);
      r.used <= |input|
      && (r.outcome == Silent ==> r.used == |input|)
      && (r.outcome == ReadError ==> 0 < r.used && input[r.used - 1] == ReadFailed)
      && (r.outcome == Refused ==> 0 < r.used && input[r.used - 1] == Got(Rej(frameNum)) && ctrl == AckMode)
    decreases |input|
  {
    if s != SuDone && input != [] && input[0].Got? {
      StepExits(ctrl, frameNum, s, input[0].b);
      if Step(ctrl, frameNum, s, input[0].b).Goto? {
        var t := Step(ctrl, frameNum, s, input[0].b).state;
        RunReports(ctrl, frameNum, t, input[1..]);
      }
    }
  }

  /** What readSU has stored in buf[1..5) by the time it reaches `s`. */
  ghost predicate Buffered(buf: array<Byte>, ctrl: Byte, frameNum: int, s: SuState)
    requires SuBufSize <= buf.Length
    reads buf
  {
    (s in {SuARcv, SuCRcv, SuBccOk, SuDone} ==> buf[1] == AddrTx)
    && (s in {SuCRcv, SuBccOk, SuDone} ==> buf[2] == Awaited(ctrl, frameNum))
    && (s in {SuBccOk, SuDone} ==> buf[3] == SuBcc1(AddrTx, Awaited(ctrl, frameNum)))
    && (s == SuDone ==> buf[4] == Flag)
  }

  /**
   * readSU: runs the switch until SU_DONE, a reject, a read error or the
   * end of the input (the alarm). On success buf[1..5) holds the address,
   * the awaited control octet, its BCC1 and the closing flag; buf[0] is not
   * promised, since a resynchronisation clears it without rewriting it.
   */
  method ReadSU(buf: array<Byte>, ctrl: Byte, frameNum: int, input: seq<Read>)
    returns (outcome: SuOutcome, used: nat)
    requires SuBufSize <= buf.Length
    modifies buf
    ensures RunResult(outcome, used) == Run(ctrl, frameNum, SuStart, input)
    ensures outcome == FrameOk ==> buf[1..SuBufSize] == SuFrame(AddrTx, Awaited(ctrl, frameNum))[1..]
  {
    var state := SuStart;
    var k := 0;
    while state != SuDone && k < |input|
      invariant 0 <= k <= |input|
      invariant Buffered(buf, ctrl, frameNum, state)
      invariant var r := Run(ctrl, frameNum, state, input[k..]);
        Run(ctrl, frameNum, SuStart, input) == RunResult(r.outcome, r.used + k)
      decreases |input| - k
    {
      assert input[k..][1..] == input[k + 1..];
      match input[k]
      case ReadFailed =>
        return ReadError, k + 1;
      case Got(b) =>
        var m := Advance(buf, ctrl, frameNum, state, b);
        match m
        case RejSeen =>
          return Refused, k + 1;
        case Goto(t) =>
          state := t;
      k := k + 1;
    }
    if state == SuDone {
      outcome := FrameOk;
    } else {
      outcome := Silent;
    }
    used := k;
  }

  /** One pass of the switch in readSU, with its writes to buf. */
  method Advance(buf: array<Byte>, ctrl: Byte, frameNum: int, state: SuState, b: Byte)
    returns (m: Move)
    requires SuBufSize <= buf.Length && state != SuDone
    requires Buffered(buf, ctrl, frameNum, state)
    modifies buf
    ensures m == Step(ctrl, frameNum, state, b)
    ensures m.Goto? ==> Buffered(buf, ctrl, frameNum, m.state)
  {
    match state
    case SuStart =>
      if b == Flag {
        m := Goto(SuFlagRcv);
        buf[0] := b;
      } else {
        ClearFront(buf);
        m := Goto(SuStart);
      }
    case SuFlagRcv =>
      if b == AddrTx {
        m := Goto(SuARcv);
        buf[1] := b;
      } else if b == Flag {
        m := Goto(SuFlagRcv);
      } else {
        ClearFront(buf);
        m := Goto(SuStart);
      }
    case SuARcv =>
      if ctrl != AckMode {
        if b == ctrl {
          m := Goto(SuCRcv);
          buf[2] := b;
        } else if b == Flag {
          m := Goto(SuFlagRcv);
          ClearFront(buf);
          buf[1] := Flag;
        } else {
          m := Goto(SuStart);
          ClearFront(buf);
        }
      } else {
        if b == Rr(frameNum) {
          m := Goto(SuCRcv);
          buf[2] := b;
        } else if b == Rej(frameNum) {
          m := RejSeen;
        } else if b == Flag {
          m := Goto(SuFlagRcv);
          ClearFront(buf);
          buf[1] := Flag;
        } else {
          m := Goto(SuStart);
          ClearFront(buf);
        }
      }
    case SuCRcv =>
      if b == SuBcc1(buf[1], buf[2]) {
        m := Goto(SuBccOk);
        buf[3] := b;
      } else if b == Flag {
        m := Goto(SuFlagRcv);
        ClearFront(buf);
        buf[1] := Flag;
      } else {
        m := Goto(SuStart);
        ClearFront(buf);
      }
    case SuBccOk =>
      if b == Flag {
        m := Goto(SuDone);
        buf[4] := b;
      } else {
        m := Goto(SuStart);
        ClearFront(buf);
      }
  }

  /** memset(buf, 0, sizeof(SU_BUF_SIZE)): clears the first sizeof(int) octets only. */
  method ClearFront(buf: array<Byte>)
    requires SuBufSize <= buf.Length
    modifies buf
    ensures forall k :: 0 <= k < IntSize ==> buf[k] == 0
    ensures forall k :: IntSize <= k < buf.Length ==> buf[k] == old(buf[k])
  {
    forall k | 0 <= k < IntSize {
      buf[k] := 0;
    }
  }

  /** readSU_OC: open and close wait for one control octet; frameNum is -1. */
  method ReadSuOC(buf: array<Byte>, ctrl: Byte, input: seq<Read>) returns (outcome: SuOutcome, used: nat)
    requires SuBufSize <= buf.Length
    modifies buf
    ensures RunResult(outcome, used) == Run(ctrl, -1, SuStart, input)
    ensures outcome == FrameOk ==> buf[1..SuBufSize] == SuFrame(AddrTx, Awaited(ctrl, -1))[1..]
  {
    outcome, used := ReadSU(buf, ctrl, -1, input);
  }

  /** readSU_RW: acknowledgement of the I frame numbered frameNum. */
  method ReadSuRW(buf: array<Byte>, frameNum: int, input: seq<Read>) returns (outcome: SuOutcome, used: nat)
    requires SuBufSize <= buf.Length
    modifies buf
    ensures RunResult(outcome, used) == Run(AckMode, frameNum, SuStart, input)
    ensures outcome == FrameOk ==> buf[1..SuBufSize] == SuFrame(AddrTx, Rr(frameNum))[1..]
  {
    outcome, used := ReadSU(buf, AckMode, frameNum, input);
  }

  // ---------------------------------------------------------------------
  // Properties of the receiver.

  /** Octets as successful reads. */
  function Events(bs: seq<Byte>): (e: seq<Read>)
    ensures |e| == |bs|
  {
    if bs == [] then [] else [Got(bs[0])] + Events(bs[1..])
  }

  /** The state after feeding octets one by one (SU_DONE absorbs). */
  function Feed(ctrl: Byte, frameNum: int, s: SuState, bs: seq<Byte>): Move
    decreases |bs|
  {
    if bs == [] then Goto(s)
    else match Step(ctrl, frameNum, s, bs[0])
      case RejSeen => RejSeen
      case Goto(t) => Feed(ctrl, frameNum, t, bs[1..])
  }

  /**
   * The awaited control octet and its BCC1 are not flags, so a flag in
   * the middle of a header always means resynchronisation.
   */
  predicate Delimited(ctrl: Byte, frameNum: int)
  {
    Awaited(ctrl, frameNum) != Flag && SuBcc1(AddrTx, Awaited(ctrl, frameNum)) != Flag
  }

  /** Every way the link layer calls readSU awaits a control octet that is delimited. */
  lemma CallersDelimited(frameNum: int)
    ensures Delimited(CtrlSet, frameNum) && Delimited(CtrlUa, frameNum) && Delimited(CtrlDisc, frameNum)
    ensures Delimited(AckMode, frameNum)
    ensures Rr(frameNum) != Rej(frameNum) && Rej(frameNum) != Flag
  {
  }

  /**
   * Per-state rules: noise is dropped in SU_START, repeated flags are
   * absorbed in SU_FLAG_STATE, a flag resynchronises from SU_A_STATE and
   * SU_C_STATE, and every other mismatch goes back to SU_START.
   */
  lemma StepRules(ctrl: Byte, frameNum: int, b: Byte)
    requires Delimited(ctrl, frameNum)
    ensures b != Flag ==> Step(ctrl, frameNum, SuStart, b) == Goto(SuStart)
    ensures Step(ctrl, frameNum, SuFlagRcv, Flag) == Goto(SuFlagRcv)
    ensures ctrl == AckMode ==> Rej(frameNum) != Flag
    ensures Step(ctrl, frameNum, SuARcv, Flag) == Goto(SuFlagRcv)
    ensures Step(ctrl, frameNum, SuCRcv, Flag) == Goto(SuFlagRcv)
    ensures b != Flag && b != AddrTx ==> Step(ctrl, frameNum, SuFlagRcv, b) == Goto(SuStart)
    ensures (b != Flag && b != Awaited(ctrl, frameNum) && !(ctrl == AckMode && b == Rej(frameNum)))
              ==> Step(ctrl, frameNum, SuARcv, b) == Goto(SuStart)
    ensures (b != Flag && b != SuBcc1(AddrTx, Awaited(ctrl, frameNum)))
              ==> Step(ctrl, frameNum, SuCRcv, b) == Goto(SuStart)
    ensures b != Flag ==> Step(ctrl, frameNum, SuBccOk, b) == Goto(SuStart)
  {
  }

  lemma {:induction false} EventsConcat(a: seq<Byte>, b: seq<Byte>)
    ensures Events(a + b) == Events(a) + Events(b)
  {
    if a == [] {
      assert a + b == b;
    } else {
      assert (a + b)[1..] == a[1..] + b;
      EventsConcat(a[1..], b);
    }
  }

  /** Feeding octets that lead to a state other than SU_DONE consumes them all and carries on from there. */
  lemma {:induction false} RunAfterFeed(ctrl: Byte, frameNum: int, s: SuState, bs: seq<Byte>, rest: seq<Read>)
    requires Feed(ctrl, frameNum, s, bs).Goto? && Feed(ctrl, frameNum, s, bs).state != SuDone
    ensures var r := Run(ctrl, frameNum, Feed(ctrl, frameNum, s, bs).state, rest);
      Run(ctrl, frameNum, s, Events(bs) + rest) == RunResult(r.outcome, r.used + |bs|)
    decreases |bs|
  {
    if bs != [] {
      var input := Events(bs) + rest;
      assert input[0] == Got(bs[0]);
      assert input[1..] == Events(bs[1..]) + rest;
      match Step(ctrl, frameNum, s, bs[0])
      case RejSeen =>
      case Goto(t) =>
        assert s != SuDone by {
          if s == SuDone {
            DoneAbsorbs(ctrl, frameNum, bs);
          }
        }
        RunAfterFeed(ctrl, frameNum, t, bs[1..], rest);
    } else {
      assert Events(bs) + rest == rest;
    }
  }

  lemma {:induction false} DoneAbsorbs(ctrl: Byte, frameNum: int, bs: seq<Byte>)
    ensures Feed(ctrl, frameNum, SuDone, bs) == Goto(SuDone)
  {
    if bs != [] {
      DoneAbsorbs(ctrl, frameNum, bs[1..]);
    }
  }

  /** The states the receiver passes through on the first four octets of a frame. */
  lemma HeaderWalk(ctrl: Byte, frameNum: int, s: SuState)
    requires Delimited(ctrl, frameNum) && s != SuBccOk && s != SuDone
    ensures var f := SuFrame(AddrTx, Awaited(ctrl, frameNum));
      Feed(ctrl, frameNum, s, f[..0]) == Goto(s)
      && Feed(ctrl, frameNum, s, f[..1]) == Goto(SuFlagRcv)
      && Feed(ctrl, frameNum, s, f[..2]) == Goto(SuARcv)
      && Feed(ctrl, frameNum, s, f[..3]) == Goto(SuCRcv)
      && Feed(ctrl, frameNum, s, f[..4]) == Goto(SuBccOk)
  {
    var c := Awaited(ctrl, frameNum);
    var f := SuFrame(AddrTx, c);
    StepRules(ctrl, frameNum, Flag);
    assert Step(ctrl, frameNum, s, Flag) == Goto(SuFlagRcv);
    assert f[..4][1..] == [AddrTx, c, SuBcc1(AddrTx, c)];
    assert f[..3][1..] == [AddrTx, c];
    assert f[..2][1..] == [AddrTx];
    assert f[..1][1..] == [];
    var bcc := SuBcc1(AddrTx, c);
    assert Feed(ctrl, frameNum, SuCRcv, [bcc]) == Goto(SuBccOk);
    assert Feed(ctrl, frameNum, SuARcv, [c, bcc]) == Goto(SuBccOk) by {
      assert [c, bcc][1..] == [bcc];
    }
    assert Feed(ctrl, frameNum, SuFlagRcv, [AddrTx, c, bcc]) == Goto(SuBccOk) by {
      assert [AddrTx, c, bcc][1..] == [c, bcc];
    }
    assert Feed(ctrl, frameNum, SuARcv, [c]) == Goto(SuCRcv);
    assert Feed(ctrl, frameNum, SuFlagRcv, [AddrTx, c]) == Goto(SuCRcv) by {
      assert [AddrTx, c][1..] == [c];
    }
    assert Feed(ctrl, frameNum, SuFlagRcv, [AddrTx]) == Goto(SuARcv);
  }

  /**
   * A well-formed S/U frame carrying the awaited control octet, fed from
   * any state but SU_BCC_STATE, is accepted on exactly its fifth octet
   * whatever follows it, and no proper prefix of it is accepted: the run
   * over a prefix alone times out after consuming it.
   */
  lemma FrameAcceptedOnFifthOctet(ctrl: Byte, frameNum: int, s: SuState, rest: seq<Read>)
    requires Delimited(ctrl, frameNum) && s != SuBccOk && s != SuDone
    ensures var f := SuFrame(AddrTx, Awaited(ctrl, frameNum));
      Run(ctrl, frameNum, s, Events(f) + rest) == RunResult(FrameOk, 5)
      && forall k :: 0 <= k < 5 ==> Run(ctrl, frameNum, s, Events(f[..k])) == RunResult(Silent, k)
  {
    var f := SuFrame(AddrTx, Awaited(ctrl, frameNum));
    HeaderWalk(ctrl, frameNum, s);
    assert f == f[..4] + [Flag];
    EventsConcat(f[..4], [Flag]);
    assert Events(f) + rest == Events(f[..4]) + ([Got(Flag)] + rest);
    RunAfterFeed(ctrl, frameNum, s, f[..4], [Got(Flag)] + rest);
    assert ([Got(Flag)] + rest)[1..] == rest;
    forall k | 0 <= k < 5
      ensures Run(ctrl, frameNum, s, Events(f[..k])) == RunResult(Silent, k)
    {
      assert Events(f[..k]) + [] == Events(f[..k]);
      RunAfterFeed(ctrl, frameNum, s, f[..k], []);
    }
  }

  /** Noise without flags is dropped in SU_START. */
  lemma {:induction false} NoiseStaysIdle(ctrl: Byte, frameNum: int, noise: seq<Byte>)
    requires forall i :: 0 <= i < |noise| ==> noise[i] != Flag
    ensures Feed(ctrl, frameNum, SuStart, noise) == Goto(SuStart)
  {
    if noise != [] {
      NoiseStaysIdle(ctrl, frameNum, noise[1..]);
    }
  }

  /**
   * Noise without flags followed by a well-formed frame: the frame is
   * reported once, on its own fifth octet, and nothing after it is read.
   */
  lemma NoiseThenFrame(ctrl: Byte, frameNum: int, noise: seq<Byte>, rest: seq<Read>)
    requires Delimited(ctrl, frameNum)
    requires forall i :: 0 <= i < |noise| ==> noise[i] != Flag
    ensures var f := SuFrame(AddrTx, Awaited(ctrl, frameNum));
      Run(ctrl, frameNum, SuStart, Events(noise) + Events(f) + rest) == RunResult(FrameOk, |noise| + 5)
  {
    var f := SuFrame(AddrTx, Awaited(ctrl, frameNum));
    NoiseStaysIdle(ctrl, frameNum, noise);
    assert Events(noise) + Events(f) + rest == Events(noise) + (Events(f) + rest);
    RunAfterFeed(ctrl, frameNum, SuStart, noise, Events(f) + rest);
    FrameAcceptedOnFifthOctet(ctrl, frameNum, SuStart, rest);
  }

  /**
   * In acknowledgement mode a reject for the awaited frame ends the run
   * with result 0 on its third octet, before any BCC1 is checked.
   */
  lemma RejectEndsRun(frameNum: int, s: SuState, rest: seq<Read>)
    requires s != SuBccOk && s != SuDone
    ensures Run(AckMode, frameNum, s, Events([Flag, AddrTx, Rej(frameNum)]) + rest) == RunResult(Refused, 3)
    ensures Code(Refused) == 0
  {
    CallersDelimited(frameNum);
    HeaderWalk(AckMode, frameNum, s);
    var f := SuFrame(AddrTx, Rr(frameNum));
    assert f[..2] == [Flag, AddrTx];
    assert [Flag, AddrTx, Rej(frameNum)] == f[..2] + [Rej(frameNum)];
    EventsConcat(f[..2], [Rej(frameNum)]);
    assert Events([Flag, AddrTx, Rej(frameNum)]) + rest == Events(f[..2]) + ([Got(Rej(frameNum))] + rest);
    RunAfterFeed(AckMode, frameNum, s, f[..2], [Got(Rej(frameNum))] + rest);
  }

  /** The reads of one supervision frame carrying the awaited control field. */
  function FrameReads(ctrl: Byte, frameNum: int): (r: seq<Read>)
    ensures r == Events(SuFrame(AddrTx, Awaited(ctrl, frameNum)))
  {
    var c := Awaited(ctrl, frameNum);
    var r := [Got(Flag), Got(AddrTx), Got(c), Got(SuBcc1(AddrTx, c)), Got(Flag)];
    assert Events(SuFrame(AddrTx, c)) == r by {
      var f := SuFrame(AddrTx, c);
      assert Events(f[4..]) == [Got(Flag)] by { assert f[4..][1..] == []; }
      assert Events(f[3..]) == [Got(f[3])] + Events(f[4..]) by { assert f[3..][1..] == f[4..]; }
      assert Events(f[2..]) == [Got(c)] + Events(f[3..]) by { assert f[2..][1..] == f[3..]; }
      assert Events(f[1..]) == [Got(AddrTx)] + Events(f[2..]) by { assert f[1..][1..] == f[2..]; }
    }
    r
  }

  /** How many octets of the awaited frame a state has already matched. */
  function Matched(s: SuState): nat
  {
    match s
    case SuStart => 0
    case SuFlagRcv => 1
    case SuARcv => 2
    case SuCRcv => 3
    case SuBccOk => 4
    case SuDone => 5
  }

  predicate EndsWith(h: seq<Read>, p: seq<Read>)
  {
    |p| <= |h| && h[|h| - |p|..] == p
  }

  /**
   * Every state the receiver reaches vouches for the octets it has just
   * read: they are the first Matched(s) octets of the awaited frame.
   */
  lemma StepKeepsMatch(ctrl: Byte, frameNum: int, s: SuState, b: Byte, hist: seq<Read>)
    requires s != SuDone && Step(ctrl, frameNum, s, b).Goto?
    requires EndsWith(hist, FrameReads(ctrl, frameNum)[..Matched(s)])
    ensures EndsWith(hist + [Got(b)], FrameReads(ctrl, frameNum)[..Matched(Step(ctrl, frameNum, s, b).state)])
  {
    var fr := FrameReads(ctrl, frameNum);
    var t := Step(ctrl, frameNum, s, b).state;
    var h := hist + [Got(b)];
    if Matched(t) == 1 {
      assert b == Flag;
    } else if Matched(t) > 1 {
      assert Matched(t) == Matched(s) + 1 && Got(b) == fr[Matched(s)];
      assert fr[..Matched(t)] == fr[..Matched(s)] + [fr[Matched(s)]];
      assert h[|h| - Matched(t)..] == hist[|hist| - Matched(s)..] + [Got(b)];
    }
  }

  lemma {:induction false} RunKeepsMatch(ctrl: Byte, frameNum: int, s: SuState, hist: seq<Read>, input: seq<Read>)
    requires EndsWith(hist, FrameReads(ctrl, frameNum)[..Matched(s)])
    ensures Run(ctrl, frameNum, s, input).outcome == FrameOk ==>
              Run(ctrl, frameNum, s, input).used <= |input| &&
              EndsWith(hist + input[..Run(ctrl, frameNum, s, input).used], FrameReads(ctrl, frameNum))
    decreases |input|
  {
    var fr := FrameReads(ctrl, frameNum);
    var r := Run(ctrl, frameNum, s, input);
    if s == SuDone {
      assert hist + input[..r.used] == hist;
    } else if input == [] || input[0].ReadFailed? || Step(ctrl, frameNum, s, input[0].b).RejSeen? {
      assert r.outcome != FrameOk;
    } else {
      var t := Step(ctrl, frameNum, s, input[0].b).state;
      var r' := Run(ctrl, frameNum, t, input[1..]);
      assert r == RunResult(r'.outcome, r'.used + 1);
      StepKeepsMatch(ctrl, frameNum, s, input[0].b, hist);
      RunKeepsMatch(ctrl, frameNum, t, hist + [input[0]], input[1..]);
      if r'.outcome == FrameOk {
        assert hist + input[..r.used] == hist + [input[0]] + input[1..][..r'.used];
      }
    }
  }

  /**
   * The converse of FrameAcceptedOnFifthOctet: readSU reports a frame only
   * when the five octets it has just read are exactly the awaited
   * supervision frame.
   */
  lemma AcceptedOnlyOnFrame(ctrl: Byte, frameNum: int, input: seq<Read>, u: nat)
    requires Run(ctrl, frameNum, SuStart, input) == RunResult(FrameOk, u)
    ensures 5 <= u <= |input|
    ensures input[u - 5..u] == Events(SuFrame(AddrTx, Awaited(ctrl, frameNum)))
  {
    assert FrameReads(ctrl, frameNum)[..0] == [];
    RunKeepsMatch(ctrl, frameNum, SuStart, [], input);
    assert [] + input[..u] == input[..u];
  }
}
