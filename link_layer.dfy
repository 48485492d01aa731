/**
 * The transmitter and receiver sides of llopen, llwrite and llclose in
 * src/link_layer.c, with the module-level globals as the fields of a
 * `Link` object.
 *
 * The serial port and the alarm are not modelled as such. Each pass of a
 * transmitter loop consumes one `Attempt`: whether the write of the whole
 * frame succeeded and the read results the peer's answer produces before
 * the alarm fires. A reply that runs out before a frame is complete is a
 * timeout: the alarm handler has run once, so alarmCount goes up by one.
 */
module LinkLayer {
  import opened FrameDefs
  import opened FrameUtils
  import opened IFrame
  import opened SuReceiver

  /** LinkLayerRole */
  datatype Role = LlTx | LlRx

  /** One write of a frame and what the port yields while waiting for the answer. */
  datatype Attempt = Attempt(writeOk: bool, reply: seq<Read>)

  /** What one pass of a transmitter loop observes. */
  datatype Reply = WriteError | Heard(outcome: SuOutcome)

  /** How a transmitter loop ends. */
  datatype Ending = Acked | WriteFault | ReadFault | Exhausted

  /** The ending of a transmitter loop and how many writes, timeouts and rejects it went through. */
  datatype Tally = Tally(ending: Ending, writes: nat, timeouts: nat, refusals: nat)

  /** Once the scripted attempts run out the peer is silent: every write succeeds and nothing answers. */
  function Next(ex: seq<Attempt>): Attempt
  {
    if ex == [] then Attempt(true, []) else ex[0]
  }

  function Later(ex: seq<Attempt>): seq<Attempt>
  {
    if ex == [] then [] else ex[1..]
  }

  /**
   * The loop guards compare the `unsigned int` alarmCount with the `int`
   * retransmission limit, so the limit is converted to unsigned: a negative
   * limit becomes a very large one.
   */
  function Limit(n: int): nat
  {
    n % 0x1_0000_0000
  }

  lemma LimitConversion(n: int)
    requires -0x8000_0000 <= n < 0x8000_0000
    ensures 0 <= n ==> Limit(n) == n
    ensures n < 0 ==> Limit(n) == n + 0x1_0000_0000 && Limit(n) >= 0x8000_0000
  {
  }

  /** Writes left before alarmCount reaches the limit. */
  function Budget(n: int, alarm: nat): nat
  {
    if alarm < n then n - alarm else 0
  }

  /** One pass: the write, then readSU in the given mode on the reply. */
  function Attempted(a: Attempt, ctrl: Byte, frameNum: int): Reply
  {
    if !a.writeOk then WriteError else Heard(Run(ctrl, frameNum, SuStart, a.reply).outcome)
  }

  /**
   * A transmitter loop `while (alarmCount < n && !acked)` as written, from
   * alarmCount `alarm` on, after `w` writes, `to` timeouts and `rf` rejects
   * so far: a timeout costs one unit of alarmCount, a reject (result 0
   * without the alarm) costs none, and a write or read error ends the loop.
   */
  function Retry(n: int, alarm: nat, ctrl: Byte, frameNum: int, ex: seq<Attempt>, w: nat, to: nat, rf: nat): Tally
    decreases Budget(n, alarm), |ex|
  {
    if alarm >= n then Tally(Exhausted, w, to, rf)
    else match Attempted(Next(ex), ctrl, frameNum)
      case WriteError => Tally(WriteFault, w + 1, to, rf)
      case Heard(ReadError) => Tally(ReadFault, w + 1, to, rf)
      case Heard(FrameOk) => Tally(Acked, w + 1, to, rf)
      case Heard(Silent) => Retry(n, alarm + 1, ctrl, frameNum, Later(ex), w + 1, to + 1, rf)
      case Heard(Refused) => Retry(n, alarm, ctrl, frameNum, Later(ex), w + 1, to, rf + 1)
  }

  /**
   * Every write is followed by exactly one of: a timeout, a reject, or the
   * end of the loop. Timeouts never exceed the budget, the loop is
   * exhausted exactly when they reach it, so there are at most budget plus
   * rejects writes; outside acknowledgement mode there are no rejects and
   * at most nRetransmissions writes.
   */
  lemma {:induction false} RetryAccounting(n: int, alarm: nat, ctrl: Byte, frameNum: int, ex: seq<Attempt>,
                                           w: nat, to: nat, rf: nat)
    ensures var t := Retry(n, alarm, ctrl, frameNum, ex, w, to, rf);
      t.writes + to + rf == w + t.timeouts + t.refusals + (if t.ending == Exhausted then 0 else 1)
      && to <= t.timeouts <= to + Budget(n, alarm) && rf <= t.refusals <= rf + |ex|
      && (t.ending == Exhausted <==> t.timeouts == to + Budget(n, alarm))
      && t.writes <= w + Budget(n, alarm) + (t.refusals - rf)
      && (ctrl != AckMode ==> t.refusals == rf && t.writes <= w + Budget(n, alarm))
    decreases Budget(n, alarm), |ex|
  {
    if alarm < n {
      match Attempted(Next(ex), ctrl, frameNum)
      case WriteError =>
      case Heard(ReadError) =>
      case Heard(FrameOk) =>
      case Heard(Silent) =>
        RetryAccounting(n, alarm + 1, ctrl, frameNum, Later(ex), w + 1, to + 1, rf);
      case Heard(Refused) =>
        RunReports(ctrl, frameNum, SuStart, Next(ex).reply);
        RetryAccounting(n, alarm, ctrl, frameNum, Later(ex), w + 1, to, rf + 1);
    }
  }

  /** The same loop with every result 0, timeout or reject, counted against nRetransmissions. */
  function RetryCapped(n: int, alarm: nat, ctrl: Byte, frameNum: int, ex: seq<Attempt>, w: nat, to: nat, rf: nat)
    : (t: Tally)
    ensures t.writes + to + rf == w + t.timeouts + t.refusals + (if t.ending == Exhausted then 0 else 1)
    ensures t.writes <= w + Budget(n, alarm)
    ensures t.ending == Exhausted <==> t.timeouts + t.refusals == to + rf + Budget(n, alarm)
    decreases Budget(n, alarm)
  {
    if alarm >= n then Tally(Exhausted, w, to, rf)
    else match Attempted(Next(ex), ctrl, frameNum)
      case WriteError => Tally(WriteFault, w + 1, to, rf)
      case Heard(ReadError) => Tally(ReadFault, w + 1, to, rf)
      case Heard(FrameOk) => Tally(Acked, w + 1, to, rf)
      case Heard(Silent) => RetryCapped(n, alarm + 1, ctrl, frameNum, Later(ex), w + 1, to + 1, rf)
      case Heard(Refused) => RetryCapped(n, alarm + 1, ctrl, frameNum, Later(ex), w + 1, to, rf + 1)
  }

  /** k copies of one frame, as the port sees a frame retransmitted. */
  function Copies(f: seq<Byte>, k: nat): (r: seq<seq<Byte>>)
    ensures |r| == k
  {
    if k == 0 then [] else Copies(f, k - 1) + [f]
  }

  /**
   * The globals of src/link_layer.c that the protocol functions update.
   * `attempted` is every frame handed to the serial port, in order.
   * timeoutCount, errorCount and alarmEnabled are not modelled.
   */
  class Link {
    var role: Role
    var retransmissions: int
    var frameCount: nat
    var retransmissionCount: nat
    var alarmCount: nat
    var attempted: seq<seq<Byte>>

    /** Static storage starts zeroed; the role enumeration's zero is taken to be LlTx. */
    constructor ()
      ensures role == LlTx && retransmissions == 0 && frameCount == 0
      ensures retransmissionCount == 0 && alarmCount == 0 && attempted == []
    {
      role := LlTx;
      retransmissions := 0;
      frameCount := 0;
      retransmissionCount := 0;
      alarmCount := 0;
      attempted := [];
    }

    /** writeSU: hands buf[0..5) to the port; `ok` is whether all five octets were written. */
    method WriteSU(buf: array<Byte>, ok: bool) returns (r: int)
      requires SuBufSize <= buf.Length
      modifies this`attempted
      ensures attempted == old(attempted) + [buf[..SuBufSize]]
      ensures r == (if ok then 1 else -1)
    {
      attempted := attempted + [buf[..SuBufSize]];
      r := if ok then 1 else -1;
    }

    /**
     * llopen: -1 if the port does not open; otherwise the role and the
     * retransmission limit are saved and the role's handshake runs.
     */
    method Open(r0: Role, nRetransmissions: int, portOk: bool, ex: seq<Attempt>) returns (r: int)
      modifies this
      ensures !portOk ==> r == -1 && unchanged(this)
      ensures portOk ==> role == r0 && retransmissions == nRetransmissions && frameCount == old(frameCount)
      ensures portOk && r0 == LlTx ==>
        var t := Retry(Limit(nRetransmissions), old(alarmCount), CtrlUa, -1, ex, 0, 0, 0);
        r == (if t.ending == Acked then 1 else -1)
        && alarmCount == 0
        && retransmissionCount == old(retransmissionCount) + t.timeouts
        && attempted == old(attempted) + Copies(SuFrame(AddrTx, CtrlSet), t.writes)
      ensures portOk && r0 == LlRx ==>
        var heard := Run(CtrlSet, -1, SuStart, Next(ex).reply).outcome;
        r == (if heard != ReadError && Next(ex).writeOk then 1 else -1)
        && alarmCount == old(alarmCount) && retransmissionCount == old(retransmissionCount)
        && attempted == old(attempted) + (if heard == ReadError then [] else [SuFrame(AddrTx, CtrlUa)])
    {
      if !portOk {
        return -1;
      }
      role := r0;
      retransmissions := nRetransmissions;
      if role == LlTx {
        r := OpenTx(ex);
      } else {
        r := OpenRx(Next(ex));
      }
    }

    /** The transmitter side of llopen: SET until UA, within nRetransmissions timeouts. */
    method OpenTx(ex: seq<Attempt>) returns (r: int)
      modifies this`alarmCount, this`retransmissionCount, this`attempted
      ensures var t := Retry(Limit(retransmissions), old(alarmCount), CtrlUa, -1, ex, 0, 0, 0);
        r == (if t.ending == Acked then 1 else -1)
        && alarmCount == 0
        && retransmissionCount == old(retransmissionCount) + t.timeouts
        && attempted == old(attempted) + Copies(SuFrame(AddrTx, CtrlSet), t.writes)
    {
      var sendBuf := new Byte[SuBufSize](_ => 0);
      var retBuf := new Byte[SuBufSize](_ => 0);
      var limit := Limit(retransmissions);
      ghost var total := Retry(limit, alarmCount, CtrlUa, -1, ex, 0, 0, 0);
      ghost var count0, sent0 := retransmissionCount, attempted;
      ghost var writes, timeouts := 0, 0;
      var rest := ex;
      var uaReceived := false;
      while alarmCount < limit && !uaReceived
        invariant !uaReceived && retransmissionCount == count0 + timeouts
        invariant attempted == sent0 + Copies(SuFrame(AddrTx, CtrlSet), writes)
        invariant total == Retry(limit, alarmCount, CtrlUa, -1, rest, writes, timeouts, 0)
        decreases Budget(limit, alarmCount)
      {
        var a := Next(rest);
        rest := Later(rest);
        var reply := SuPass(sendBuf, retBuf, CtrlSet, CtrlUa, a, sent0, writes);
        writes := writes + 1;
        if reply == WriteError {
          alarmCount := 0;
          return -1;
        }
        var readRet := reply.outcome;
        if readRet == ReadError {
          alarmCount := 0;
          return -1;
        } else if Code(readRet) == 0 {
          retransmissionCount := retransmissionCount + 1;
          alarmCount := alarmCount + 1;
          timeouts := timeouts + 1;
        } else {
          uaReceived := true;
          // The loop guard fails from here on: uaReceived is set.
          break;
        }
      }
      alarmCount := 0;
      if !uaReceived {
        return -1;
      }
      return 1;
    }

    /**
     * One pass of the llopen transmitter loop: prepSU and writeSU of the
     * frame with control octet `sent`, then, if the write went through,
     * readSU_OC for `awaited` into retBuf.
     */
    method SuPass(sendBuf: array<Byte>, retBuf: array<Byte>, sent: Byte, awaited: Byte, a: Attempt,
                  ghost sent0: seq<seq<Byte>>, ghost k: nat)
      returns (reply: Reply)
      requires SuBufSize <= sendBuf.Length && SuBufSize <= retBuf.Length
      requires attempted == sent0 + Copies(SuFrame(AddrTx, sent), k)
      modifies this`attempted, sendBuf, retBuf
      ensures attempted == sent0 + Copies(SuFrame(AddrTx, sent), k + 1)
      ensures reply == Attempted(a, awaited, -1)
      ensures awaited != AckMode ==> reply != Heard(Refused)
    {
      PrepSU(sendBuf, AddrTx, sent);
      var w := WriteSU(sendBuf, a.writeOk);
      LogOneMore(sent0, SuFrame(AddrTx, sent), k);
      if w == -1 {
        return WriteError;
      }
      var readRet, used := ReadSuOC(retBuf, awaited, a.reply);
      RunReports(awaited, -1, SuStart, a.reply);
      reply := Heard(readRet);
    }

    /** The receiver side of llopen: wait for SET, answer UA. Only a read error stops it. */
    method OpenRx(a: Attempt) returns (r: int)
      modifies this`attempted
      ensures var heard := Run(CtrlSet, -1, SuStart, a.reply).outcome;
        r == (if heard != ReadError && a.writeOk then 1 else -1)
        && attempted == old(attempted) + (if heard == ReadError then [] else [SuFrame(AddrTx, CtrlUa)])
    {
      var sendBuf := new Byte[SuBufSize](_ => 0);
      var retBuf := new Byte[SuBufSize](_ => 0);
      var readRet, used := ReadSuOC(retBuf, CtrlSet, a.reply);
      if readRet == ReadError {
        return -1;
      }
      PrepSU(sendBuf, AddrTx, CtrlUa);
      var w := WriteSU(sendBuf, a.writeOk);
      if w == -1 {
        return -1;
      }
      return 1;
    }

    /**
     * llwrite: -1 for a non-positive size; otherwise the I frame is built
     * once and sent until the receiver-ready octet for frameCount arrives.
     * A write error leaves alarmCount as it is; every other exit clears it.
     */
    method Write(buf: array<Byte>, bufSize: int, ex: seq<Attempt>) returns (r: int)
      requires bufSize <= buf.Length
      modifies this`alarmCount, this`retransmissionCount, this`attempted
      ensures bufSize <= 0 ==> r == -1 && unchanged(this)
      ensures 0 < bufSize ==>
        var frame := Frame(buf[..bufSize], frameCount);
        var t := Retry(Limit(retransmissions), old(alarmCount), AckMode, frameCount, ex, 0, 0, 0);
        r == (if t.ending == Acked then |frame| else -1)
        && alarmCount == (if t.ending == WriteFault then old(alarmCount) + t.timeouts else 0)
        && retransmissionCount == old(retransmissionCount) + t.timeouts + t.refusals
        && attempted == old(attempted) + Copies(frame, t.writes)
    {
      if bufSize <= 0 {
        return -1;
      }
      var stuffBuf := BuildIFrame(buf, bufSize, frameCount);
      var j := |stuffBuf|;
      r := WriteLoop(stuffBuf, ex);
      if r == 1 {
        r := j;
      }
    }

    /** The retransmission loop of llwrite for an already built frame; 1 stands for success. */
    method WriteLoop(stuffBuf: seq<Byte>, ex: seq<Attempt>) returns (r: int)
      modifies this`alarmCount, this`retransmissionCount, this`attempted
      ensures var t := Retry(Limit(retransmissions), old(alarmCount), AckMode, frameCount, ex, 0, 0, 0);
        r == (if t.ending == Acked then 1 else -1)
        && alarmCount == (if t.ending == WriteFault then old(alarmCount) + t.timeouts else 0)
        && retransmissionCount == old(retransmissionCount) + t.timeouts + t.refusals
        && attempted == old(attempted) + Copies(stuffBuf, t.writes)
    {
      var retBuf := new Byte[SuBufSize](_ => 0);
      var limit := Limit(retransmissions);
      ghost var total := Retry(limit, alarmCount, AckMode, frameCount, ex, 0, 0, 0);
      ghost var alarm0, count0, sent0 := alarmCount, retransmissionCount, attempted;
      ghost var writes, timeouts, refusals := 0, 0, 0;
      var rest := ex;
      var rrReceived := false;
      while alarmCount < limit && !rrReceived
        invariant !rrReceived && alarmCount == alarm0 + timeouts
        invariant retransmissionCount == count0 + timeouts + refusals
        invariant attempted == sent0 + Copies(stuffBuf, writes)
        invariant total == Retry(limit, alarmCount, AckMode, frameCount, rest, writes, timeouts, refusals)
        decreases Budget(limit, alarmCount), |rest|
      {
        var a := Next(rest);
        assert rest == [] ==> Attempted(a, AckMode, frameCount) == Heard(Silent);
        rest := Later(rest);
        var reply := IPass(stuffBuf, retBuf, a, sent0, writes);
        writes := writes + 1;
        if reply == WriteError {
          return -1;
        }
        var readRet := reply.outcome;
        if readRet == ReadError {
          alarmCount := 0;
          return -1;
        } else if Code(readRet) == 0 {
          retransmissionCount := retransmissionCount + 1;
          if readRet == Silent {
            alarmCount := alarmCount + 1;
            timeouts := timeouts + 1;
          } else {
            refusals := refusals + 1;
          }
        } else {
          rrReceived := true;
          // The loop guard fails from here on: rrReceived is set.
          break;
        }
      }
      alarmCount := 0;
      if !rrReceived {
        return -1;
      }
      return 1;
    }

    /**
     * One pass of the llwrite loop: writeBytesSerialPort of the whole frame,
     * then, if every octet went out, readSU_RW for frameCount into retBuf.
     */
    method IPass(stuffBuf: seq<Byte>, retBuf: array<Byte>, a: Attempt, ghost sent0: seq<seq<Byte>>, ghost k: nat)
      returns (reply: Reply)
      requires SuBufSize <= retBuf.Length
      requires attempted == sent0 + Copies(stuffBuf, k)
      modifies this`attempted, retBuf
      ensures attempted == sent0 + Copies(stuffBuf, k + 1)
      ensures reply == Attempted(a, AckMode, frameCount)
    {
      attempted := attempted + [stuffBuf];
      LogOneMore(sent0, stuffBuf, k);
      if !a.writeOk {
        return WriteError;
      }
      var readRet, used := ReadSuRW(retBuf, frameCount, a.reply);
      reply := Heard(readRet);
    }

    /**
     * llclose: the transmitter sends DISC until DISC comes back, then
     * answers UA; `closeStatus` is what closeSerialPort returns. The
     * receiver only closes the port. Timeouts here are not counted as
     * retransmissions, and only a DISC received clears alarmCount.
     */
    method Close(ex: seq<Attempt>, uaWriteOk: bool, closeStatus: int) returns (r: int)
      modifies this`alarmCount, this`attempted
      ensures role == LlRx ==> r == closeStatus && unchanged(this)
      ensures role == LlTx ==>
        var t := Retry(Limit(retransmissions), old(alarmCount), CtrlDisc, -1, ex, 0, 0, 0);
        r == (if t.ending == Acked && uaWriteOk then closeStatus else -1)
        && alarmCount == (if t.ending == Acked then 0 else old(alarmCount) + t.timeouts)
        && attempted == old(attempted) + Copies(SuFrame(AddrTx, CtrlDisc), t.writes)
                        + (if t.ending == Acked then [SuFrame(AddrTx, CtrlUa)] else [])
    {
      if role == LlRx {
        return closeStatus;
      }
      var closeBuf := new Byte[SuBufSize](_ => 0);
      var limit := Limit(retransmissions);
      ghost var total := Retry(limit, alarmCount, CtrlDisc, -1, ex, 0, 0, 0);
      ghost var alarm0, sent0 := alarmCount, attempted;
      ghost var writes, timeouts := 0, 0;
      var rest := ex;
      var discReceived := false;
      while alarmCount < limit && !discReceived
        invariant !discReceived && alarmCount == alarm0 + timeouts
        invariant attempted == sent0 + Copies(SuFrame(AddrTx, CtrlDisc), writes)
        invariant total == Retry(limit, alarmCount, CtrlDisc, -1, rest, writes, timeouts, 0)
        decreases Budget(limit, alarmCount)
      {
        var a := Next(rest);
        rest := Later(rest);
        var reply := DiscPass(closeBuf, a, sent0, writes);
        writes := writes + 1;
        if reply == WriteError {
          return -1;
        }
        var readRet := reply.outcome;
        if readRet == ReadError {
          return -1;
        } else if Code(readRet) == 0 {
          alarmCount := alarmCount + 1;
          timeouts := timeouts + 1;
        } else {
          discReceived := true;
          alarmCount := 0;
          PrepSU(closeBuf, AddrTx, CtrlUa);
          var w := WriteSU(closeBuf, uaWriteOk);
          if w == -1 {
            return -1;
          }
          // The loop guard fails from here on: discReceived is set.
          break;
        }
      }
      if !discReceived {
        return -1;
      }
      return closeStatus;
    }

    /**
     * One pass of the llclose loop: prepSU and writeSU of DISC, then, if the
     * write went through, the buffer is cleared and reused for reading DISC.
     */
    method DiscPass(closeBuf: array<Byte>, a: Attempt, ghost sent0: seq<seq<Byte>>, ghost k: nat)
      returns (reply: Reply)
      requires SuBufSize <= closeBuf.Length
      requires attempted == sent0 + Copies(SuFrame(AddrTx, CtrlDisc), k)
      modifies this`attempted, closeBuf
      ensures attempted == sent0 + Copies(SuFrame(AddrTx, CtrlDisc), k + 1)
      ensures reply == Attempted(a, CtrlDisc, -1) && reply != Heard(Refused)
    {
      PrepSU(closeBuf, AddrTx, CtrlDisc);
      var w := WriteSU(closeBuf, a.writeOk);
      LogOneMore(sent0, SuFrame(AddrTx, CtrlDisc), k);
      if w == -1 {
        return WriteError;
      }
      ClearAll(closeBuf);
      var readRet, used := ReadSuOC(closeBuf, CtrlDisc, a.reply);
      RunReports(CtrlDisc, -1, SuStart, a.reply);
      reply := Heard(readRet);
    }
  }

  /** memset(closeBuf, 0, sizeof(closeBuf)) on the five-octet buffer. */
  method ClearAll(buf: array<Byte>)
    modifies buf
    ensures forall k :: 0 <= k < buf.Length ==> buf[k] == 0
  {
    forall k | 0 <= k < buf.Length {
      buf[k] := 0;
    }
  }

  /** Appending one more copy to the log. */
  lemma LogOneMore(log: seq<seq<Byte>>, f: seq<Byte>, k: nat)
    ensures log + Copies(f, k) + [f] == log + Copies(f, k + 1)
  {
  }

  // ---------------------------------------------------------------------
  // Properties of the transmitter loops.

  /**
   * With a silent peer every write times out: the loop makes exactly as
   * many writes as the budget allows and ends exhausted.
   */
  lemma {:induction false} SilentPeerExhausts(n: int, alarm: nat, ctrl: Byte, frameNum: int, w: nat, to: nat, rf: nat)
    ensures Retry(n, alarm, ctrl, frameNum, [], w, to, rf)
            == Tally(Exhausted, w + Budget(n, alarm), to + Budget(n, alarm), rf)
    decreases Budget(n, alarm)
  {
    if alarm < n {
      assert Attempted(Next([]), ctrl, frameNum) == Heard(Silent);
      SilentPeerExhausts(n, alarm + 1, ctrl, frameNum, w + 1, to + 1, rf);
    }
  }

  /** A peer that answers the first write with the awaited frame ends the loop after one write. */
  lemma PromptAnswer(n: int, alarm: nat, ctrl: Byte, frameNum: int, ex: seq<Attempt>, rest: seq<Read>)
    requires alarm < n && Delimited(ctrl, frameNum)
    requires ex != [] && ex[0] == Attempt(true, Events(SuFrame(AddrTx, Awaited(ctrl, frameNum))) + rest)
    ensures Retry(n, alarm, ctrl, frameNum, ex, 0, 0, 0) == Tally(Acked, 1, 0, 0)
  {
    FrameAcceptedOnFifthOctet(ctrl, frameNum, SuStart, rest);
  }

  /** The attempt whose reply is a reject for frameNum. */
  function Rejecting(frameNum: int): Attempt
  {
    Attempt(true, Events([Flag, AddrTx, Rej(frameNum)]))
  }

  /** The attempt whose reply is the receiver-ready frame for frameNum. */
  function Accepting(frameNum: int): Attempt
  {
    Attempt(true, Events(SuFrame(AddrTx, Rr(frameNum))))
  }

  lemma RejectingRefused(frameNum: int)
    ensures Attempted(Rejecting(frameNum), AckMode, frameNum) == Heard(Refused)
    ensures Attempted(Accepting(frameNum), AckMode, frameNum) == Heard(FrameOk)
  {
    RejectEndsRun(frameNum, SuStart, []);
    assert Events([Flag, AddrTx, Rej(frameNum)]) + [] == Events([Flag, AddrTx, Rej(frameNum)]);
    CallersDelimited(frameNum);
    FrameAcceptedOnFifthOctet(AckMode, frameNum, SuStart, []);
    assert Events(SuFrame(AddrTx, Rr(frameNum))) + [] == Events(SuFrame(AddrTx, Rr(frameNum)));
  }

  /**
   * As written, llwrite's loop does not count rejects against
   * nRetransmissions: k rejects followed by an acknowledgement take k + 1
   * writes whatever the limit, so a receiver that keeps rejecting keeps
   * the transmitter sending for as long as it likes.
   */
  lemma RejectsEvadeLimit(n: int, frameNum: int, k: nat)
    requires 0 < n
    ensures Retry(n, 0, AckMode, frameNum, seq(k, _ => Rejecting(frameNum)) + [Accepting(frameNum)], 0, 0, 0)
            == Tally(Acked, k + 1, 0, k)
  {
    RejectingRefused(frameNum);
    RejectsThenAccept(n, 0, frameNum, k, 0, 0);
  }

  lemma {:induction false} RejectsThenAccept(n: int, alarm: nat, frameNum: int, k: nat, w: nat, rf: nat)
    requires alarm < n
    requires Attempted(Rejecting(frameNum), AckMode, frameNum) == Heard(Refused)
    requires Attempted(Accepting(frameNum), AckMode, frameNum) == Heard(FrameOk)
    ensures Retry(n, alarm, AckMode, frameNum, seq(k, _ => Rejecting(frameNum)) + [Accepting(frameNum)], w, 0, rf)
            == Tally(Acked, w + k + 1, 0, rf + k)
  {
    var ex := seq(k, _ => Rejecting(frameNum)) + [Accepting(frameNum)];
    if k == 0 {
      assert Next(ex) == Accepting(frameNum);
    } else {
      assert Next(ex) == Rejecting(frameNum);
      assert Later(ex) == seq(k - 1, _ => Rejecting(frameNum)) + [Accepting(frameNum)];
      RejectsThenAccept(n, alarm, frameNum, k - 1, w + 1, rf + 1);
    }
  }

  /** Counting rejects as well, the same peer is given up on after nRetransmissions writes. */
  lemma RejectsWithinLimit(n: int, frameNum: int, k: nat)
    requires 0 < n <= k
    ensures RetryCapped(n, 0, AckMode, frameNum, seq(k, _ => Rejecting(frameNum)) + [Accepting(frameNum)], 0, 0, 0)
            == Tally(Exhausted, n, 0, n)
  {
    RejectingRefused(frameNum);
    CappedRejects(n, 0, frameNum, k, 0);
  }

  lemma {:induction false} CappedRejects(n: int, alarm: nat, frameNum: int, k: nat, rf: nat)
    requires alarm <= n && n - alarm <= k && rf == alarm
    requires Attempted(Rejecting(frameNum), AckMode, frameNum) == Heard(Refused)
    ensures RetryCapped(n, alarm, AckMode, frameNum, seq(k, _ => Rejecting(frameNum)) + [Accepting(frameNum)], rf, 0, rf)
            == Tally(Exhausted, n, 0, n)
    decreases n - alarm
  {
    if alarm < n {
      var ex := seq(k, _ => Rejecting(frameNum)) + [Accepting(frameNum)];
      assert Next(ex) == Rejecting(frameNum);
      assert Later(ex) == seq(k - 1, _ => Rejecting(frameNum)) + [Accepting(frameNum)];
      CappedRejects(n, alarm + 1, frameNum, k - 1, rf + 1);
    }
  }
}
