/**
 * The information frame that llwrite builds inline (src/link_layer.c): a
 * four-octet header, the payload octet-stuffed as in section 4.2 of
 * RFC 1662 (flag 0x7E and escape 0x7D are sent as 0x7D followed by the
 * octet XOR 0x20), the XOR parity of the unstuffed payload, and a closing
 * flag. The parity octet is written as it is, without stuffing.
 */
module IFrame {
  import opened FrameDefs
  import opened FrameUtils

  datatype Option<T> = None | Some(value: T)

  /** How one payload octet travels. */
  function StuffOctet(b: Byte): seq<Byte>
  {
    if Reserved(b) then [StuffEsc, StuffMask(b)] else [b]
  }

  /** The stuffed image of a payload, octet by octet in order. */
  function Stuff(p: seq<Byte>): seq<Byte>
  {
    if p == [] then [] else StuffOctet(p[0]) + Stuff(p[1..])
  }

  /** Number of payload octets that need an escape. */
  function Specials(p: seq<Byte>): nat
  {
    if p == [] then 0 else (if Reserved(p[0]) then 1 else 0) + Specials(p[1..])
  }

  /**
   * Undoes stuffing: an escape octet is dropped and the octet after it
   * unmasked. A region that ends right after an escape is malformed.
   */
  function Destuff(r: seq<Byte>): Option<seq<Byte>>
  {
    if r == [] then Some([])
    else if r[0] == StuffEsc then
      if |r| == 1 then None
      else match Destuff(r[2..]) {
        case None => None
        case Some(q) => Some([StuffMask(r[1])] + q)
      }
    else match Destuff(r[1..]) {
      case None => None
      case Some(q) => Some([r[0]] + q)
    }
  }

  /** I_Flag, I_Addr_TX, I_C(frameCount) and its BCC1. */
  function IHeader(frameCount: nat): seq<Byte>
  {
    [IFlag, IAddrTx, IC(frameCount), IBcc1(IAddrTx, IC(frameCount))]
  }

  /** The frame as llwrite lays it out. */
  function Frame(payload: seq<Byte>, frameCount: nat): seq<Byte>
  {
    IHeader(frameCount) + Stuff(payload) + [Bcc2(payload), IFlag]
  }

  /**
   * The frame with its parity octet stuffed like the payload, as a receiver
   * that scans for flags needs it.
   */
  function FrameIntended(payload: seq<Byte>, frameCount: nat): seq<Byte>
  {
    IHeader(frameCount) + Stuff(payload + [Bcc2(payload)]) + [IFlag]
  }

  /**
   * The frame-building part of llwrite: header, stuffing loop, then the
   * trailer, all inside a zeroed buffer of I_BUF_SIZE(bufSize) octets. The
   * result is stuffBuf[0..j), whose length j llwrite returns on success.
   */
  method BuildIFrame(buf: array<Byte>, bufSize: int, frameCount: nat) returns (frame: seq<Byte>)
    requires 0 <= bufSize <= buf.Length
    ensures frame == Frame(buf[..bufSize], frameCount)
    ensures bufSize + 6 <= |frame| <= IBufSize(bufSize)
  {
    var stuffBuf := new Byte[IBufSize(bufSize)](_ => 0);
    stuffBuf[0] := IFlag;
    stuffBuf[1] := IAddrTx;
    stuffBuf[2] := IC(frameCount);
    stuffBuf[3] := IBcc1(stuffBuf[1], stuffBuf[2]);
    assert stuffBuf[..4] == IHeader(frameCount);

    var j := StuffPayload(buf, bufSize, stuffBuf);
    ghost var body := stuffBuf[..j];

    var bcc2 := FuncIBcc2(buf, bufSize);
    NarrowParity(Bcc2(buf[..bufSize]), bcc2);
    stuffBuf[j] := (bcc2 & 0xFF) as Byte;
    j := j + 1;
    stuffBuf[j] := IFlag;
    j := j + 1;
    frame := stuffBuf[..j];
    assert frame == body + [Bcc2(buf[..bufSize]), IFlag];
  }

  /**
   * The stuffing loop of llwrite: read index i walks buf[0..bufSize) and
   * write index j, starting after the header, advances by one octet or by
   * two for an escaped octet.
   */
  method StuffPayload(buf: array<Byte>, bufSize: int, stuffBuf: array<Byte>) returns (j: int)
    requires 0 <= bufSize <= buf.Length && stuffBuf.Length == IBufSize(bufSize)
    requires buf != stuffBuf
    modifies stuffBuf
    ensures j == 4 + |Stuff(buf[..bufSize])| && bufSize + 4 <= j <= 2 * bufSize + 4
    ensures stuffBuf[..j] == old(stuffBuf[..4]) + Stuff(buf[..bufSize])
    ensures stuffBuf[j..] == old(stuffBuf[j..])
  {
    ghost var header := stuffBuf[..4];
    var i := 0;
    j := 4;
    while i < bufSize
      invariant 0 <= i <= bufSize
      invariant j == 4 + |Stuff(buf[..i])| && i <= |Stuff(buf[..i])| <= 2 * i
      invariant stuffBuf[..j] == header + Stuff(buf[..i])
      invariant stuffBuf[j..] == old(stuffBuf[..])[j..]
    {
      StuffSnoc(buf[..i], buf[i]);
      assert buf[..i + 1] == buf[..i] + [buf[i]];
      ghost var j0, before := j, stuffBuf[..];
      j := PutOctet(stuffBuf, j, buf[i]);
      assert stuffBuf[j..] == before[j0..][j - j0..];
      i := i + 1;
    }
    assert buf[..i] == buf[..bufSize];
  }

  /** One round of the stuffing loop: octet x goes to stuffBuf[j..], escaped if it is a flag or an escape. */
  method PutOctet(stuffBuf: array<Byte>, j: int, x: Byte) returns (j': int)
    requires 0 <= j && j + 2 <= stuffBuf.Length
    modifies stuffBuf
    ensures j' == j + |StuffOctet(x)|
    ensures stuffBuf[..j'] == old(stuffBuf[..j]) + StuffOctet(x)
    ensures stuffBuf[j'..] == old(stuffBuf[j'..])
  {
    if x == IFlag || x == StuffEsc {
      stuffBuf[j] := StuffEsc;
      stuffBuf[j + 1] := StuffMask(x);
      j' := j + 2;
    } else {
      stuffBuf[j] := x;
      j' := j + 1;
    }
  }

  /** Storing the `unsigned int` parity into an octet keeps its value. */
  lemma NarrowParity(b: Byte, w: bv32)
    requires w == b as bv32
    ensures (w & 0xFF) as Byte == b
  {
  }

  /** Stuffing works octet by octet from the front. */
  lemma {:induction false} StuffSnoc(p: seq<Byte>, x: Byte)
    ensures Stuff(p + [x]) == Stuff(p) + StuffOctet(x)
  {
    if p == [] {
      assert [x][1..] == [];
    } else {
      assert (p + [x])[1..] == p[1..] + [x];
      StuffSnoc(p[1..], x);
    }
  }

  lemma {:induction false} StuffConcat(p: seq<Byte>, q: seq<Byte>)
    ensures Stuff(p + q) == Stuff(p) + Stuff(q)
  {
    if p == [] {
      assert p + q == q;
    } else {
      assert (p + q)[1..] == p[1..] + q;
      StuffConcat(p[1..], q);
    }
  }

  /** Each escaped octet adds exactly one octet: |payload| <= stuffed length <= 2 |payload|. */
  lemma {:induction false} StuffLength(p: seq<Byte>)
    ensures |Stuff(p)| == |p| + Specials(p)
    ensures Specials(p) <= |p|
  {
    if p != [] {
      StuffLength(p[1..]);
    }
  }

  /** No flag octet survives stuffing. */
  lemma {:induction false} StuffHasNoFlag(p: seq<Byte>)
    ensures forall i :: 0 <= i < |Stuff(p)| ==> Stuff(p)[i] != IFlag
  {
    if p != [] {
      StuffHasNoFlag(p[1..]);
      StuffMaskClearsReserved(p[0]);
    }
  }

  /** Destuffing the stuffed payload gives the payload back. */
  lemma {:induction false} DestuffStuff(p: seq<Byte>)
    ensures Destuff(Stuff(p)) == Some(p)
  {
    if p != [] {
      var x, rest := p[0], Stuff(p[1..]);
      DestuffStuff(p[1..]);
      var r := StuffOctet(x) + rest;
      if Reserved(x) {
        assert r[0] == StuffEsc && r[1] == StuffMask(x) && r[2..] == rest;
        StuffMaskInvolution(x);
      } else {
        assert r[0] == x && r[1..] == rest;
      }
      assert p == [x] + p[1..];
    }
  }

  /** The I frame is between bufSize + 6 and I_BUF_SIZE(bufSize) octets long. */
  lemma FrameLength(p: seq<Byte>, frameCount: nat)
    ensures |Frame(p, frameCount)| == |p| + 6 + Specials(p)
    ensures |p| + 6 <= |Frame(p, frameCount)| <= IBufSize(|p|)
  {
    StuffLength(p);
  }

  /**
   * A receiver that knows the frame boundaries recovers everything from an
   * I frame: the header, the payload by destuffing the octets between
   * header and trailer, and a parity octet that checks against it.
   */
  lemma FrameDecodes(p: seq<Byte>, frameCount: nat)
    ensures var f := Frame(p, frameCount);
      |f| >= 6 && f[..4] == IHeader(frameCount) && f[|f| - 1] == IFlag
      && Destuff(f[4..|f| - 2]) == Some(p)
      && f[|f| - 2] == Bcc2(p) && Bcc2(p + [f[|f| - 2]]) == 0
  {
    var f := Frame(p, frameCount);
    StuffLength(p);
    assert f[4..|f| - 2] == Stuff(p);
    DestuffStuff(p);
    Bcc2WithTrailer(p);
  }

  /** No header octet after the opening flag is a flag, whatever the frame count. */
  lemma HeaderAvoidsFlag(frameCount: nat)
    ensures forall i :: 0 < i < 4 ==> IHeader(frameCount)[i] != IFlag
  {
  }

  /** The frames llwrite sends for small payloads. */
  lemma FrameExamples()
    ensures Frame([0x01, 0x02], 0) == [0x7E, 0x03, 0x00, 0x03, 0x01, 0x02, 0x03, 0x7E]
    ensures Stuff([0x7E]) == [0x7D, 0x5E] && Stuff([0x7D]) == [0x7D, 0x5D]
  {
    assert Bcc2([0x01, 0x02]) == 0x03 by {
      assert [0x01, 0x02][..1] == [0x01];
      assert [0x01 as Byte][..0] == [];
    }
    assert Stuff([0x01, 0x02]) == [0x01, 0x02] by {
      assert [0x01, 0x02][1..] == [0x02];
      assert [0x02 as Byte][1..] == [];
    }
  }

  /**
   * As written, the parity octet is not stuffed: a payload whose parity is
   * 0x7E puts a flag inside the frame, one octet before the real closing
   * flag, so a receiver that ends the frame at the first flag loses the
   * closing octet's meaning.
   */
  lemma TrailerMimicsFlag()
    ensures var f := Frame([0x7E], 0);
      f == [0x7E, 0x03, 0x00, 0x03, 0x7D, 0x5E, 0x7E, 0x7E] && f[6] == IFlag && 6 < |f| - 1
  {
    assert Bcc2([0x7E]) == 0x7E by {
      assert [0x7E as Byte][..0] == [];
    }
    assert Stuff([0x7E]) == [0x7D, 0x5E];
  }

  /**
   * With the parity octet stuffed, the flag appears only at the two ends
   * of the frame, destuffing the region between header and closing flag
   * yields payload and parity, and the frame needs at most one octet more
   * than I_BUF_SIZE.
   */
  lemma IntendedFrameDelimited(p: seq<Byte>, frameCount: nat)
    ensures var f := FrameIntended(p, frameCount);
      f[0] == IFlag && f[|f| - 1] == IFlag
      && (forall i :: 0 < i < |f| - 1 ==> f[i] != IFlag)
      && Destuff(f[4..|f| - 1]) == Some(p + [Bcc2(p)])
      && |f| <= IBufSize(|p|) + 1
  {
    var q := p + [Bcc2(p)];
    var f := FrameIntended(p, frameCount);
    StuffHasNoFlag(q);
    StuffLength(q);
    StuffLength(p);
    StuffConcat(p, [Bcc2(p)]);
    assert Stuff([Bcc2(p)]) == StuffOctet(Bcc2(p));
    assert f[4..|f| - 1] == Stuff(q);
    DestuffStuff(q);
    HeaderAvoidsFlag(frameCount);
    forall i | 0 < i < |f| - 1
      ensures f[i] != IFlag
    {
      if i >= 4 {
        assert f[i] == Stuff(q)[i - 4];
      }
    }
  }
}
