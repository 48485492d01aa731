/**
 * Frame helpers of src/frame_utils.c: the XOR parity over a payload
 * (funcI_BCC2) and the writer of five-octet S/U frames (prepSU).
 */
module FrameUtils {
  import opened FrameDefs

  /** XOR of all octets of `s`, folded from the left as funcI_BCC2's loop does. */
  function Bcc2(s: seq<Byte>): Byte
  {
    if s == [] then 0 else Bcc2(s[..|s| - 1]) ^ s[|s| - 1]
  }

  /** The S/U frame prepSU lays out: flag, address, control, BCC1, flag. */
  function SuFrame(addr: Byte, ctrl: Byte): seq<Byte>
  {
    [Flag, addr, ctrl, SuBcc1(addr, ctrl), Flag]
  }

  /**
   * funcI_BCC2: XOR of arr[0..len) accumulated in an `unsigned int`.
   * The result never exceeds one octet, so the caller's store into an
   * `unsigned char` loses nothing.
   */
  method FuncIBcc2(arr: array<Byte>, len: int) returns (res: bv32)
    requires len <= arr.Length
    ensures res < 256
    ensures len <= 0 ==> res == 0
    ensures 0 <= len ==> res == Bcc2(arr[..len]) as bv32
  {
    res := 0;
    var i := 0;
    while i < len
      invariant 0 <= i && (0 <= len ==> i <= len)
      invariant len <= 0 ==> i == 0
      invariant res == Bcc2(arr[..i]) as bv32
    {
      assert arr[..i + 1][..i] == arr[..i];
      res := res ^ arr[i] as bv32;
      i := i + 1;
    }
  }

  /**
   * prepSU: clears the first SU_BUF_SIZE octets of `buf` and writes the
   * S/U frame for `addr` and `ctrl` there; octets past the fifth keep their
   * values, and the result does not depend on what the five held before.
   */
  method PrepSU(buf: array<Byte>, addr: Byte, ctrl: Byte)
    requires SuBufSize <= buf.Length
    modifies buf
    ensures buf[..SuBufSize] == SuFrame(addr, ctrl)
    ensures buf[SuBufSize..] == old(buf[SuBufSize..])
  {
    forall k | 0 <= k < SuBufSize {
      buf[k] := 0;
    }
    buf[0] := Flag;
    buf[1] := addr;
    buf[2] := ctrl;
    buf[3] := SuBcc1(buf[1], buf[2]);
    buf[4] := Flag;
  }

  /** Parity of an empty payload is zero. */
  lemma Bcc2Empty()
    ensures Bcc2([]) == 0
  {
  }

  /** The fold may equally be taken from the right. */
  lemma {:induction false} Bcc2Cons(x: Byte, s: seq<Byte>)
    ensures Bcc2([x] + s) == x ^ Bcc2(s)
  {
    if s != [] {
      var s' := s[..|s| - 1];
      assert ([x] + s)[..|s|] == [x] + s';
      Bcc2Cons(x, s');
    }
  }

  /** Parity of a concatenation is the XOR of the parities. */
  lemma {:induction false} Bcc2Concat(s: seq<Byte>, t: seq<Byte>)
    ensures Bcc2(s + t) == Bcc2(s) ^ Bcc2(t)
  {
    if t == [] {
      assert s + t == s;
    } else {
      var t' := t[..|t| - 1];
      assert (s + t)[..|s + t| - 1] == s + t';
      Bcc2Concat(s, t');
    }
  }

  /** A payload followed by its own parity octet has parity zero. */
  lemma Bcc2WithTrailer(s: seq<Byte>)
    ensures Bcc2(s + [Bcc2(s)]) == 0
  {
    assert (s + [Bcc2(s)])[..|s|] == s;
  }

  /** Appending one octet XORs it into the parity. */
  lemma Bcc2Snoc(p: seq<Byte>, x: Byte)
    ensures Bcc2(p + [x]) == Bcc2(p) ^ x
  {
    assert (p + [x])[..|p|] == p;
  }

  /** Parity of a sequence split around one octet. */
  lemma Bcc2Around(a: seq<Byte>, y: Byte, c: seq<Byte>)
    ensures Bcc2(a + [y] + c) == (Bcc2(a) ^ y) ^ Bcc2(c)
  {
    Bcc2Concat(a + [y], c);
    Bcc2Snoc(a, y);
  }

  lemma Bcc2Replace(s: seq<Byte>, t: seq<Byte>, a: seq<Byte>, y: Byte, c: seq<Byte>, e: Byte)
    requires s == a + [y] + c && t == a + [y ^ e] + c
    ensures Bcc2(t) == Bcc2(s) ^ e
  {
    Bcc2Around(a, y, c);
    Bcc2Around(a, y ^ e, c);
  }

  lemma SplitAt(s: seq<Byte>, k: nat, v: Byte)
    requires k < |s|
    ensures s == s[..k] + [s[k]] + s[k + 1..]
    ensures s[k := v] == s[..k] + [v] + s[k + 1..]
  {
  }

  /** Corrupting one octet by an error pattern changes the parity by exactly that pattern. */
  lemma Bcc2OctetError(s: seq<Byte>, k: nat, e: Byte)
    requires k < |s|
    ensures Bcc2(s[k := s[k] ^ e]) == Bcc2(s) ^ e
  {
    SplitAt(s, k, s[k] ^ e);
    Bcc2Replace(s, s[k := s[k] ^ e], s[..k], s[k], s[k + 1..], e);
  }

  /** Hence a non-zero error pattern in one octet is always detected. */
  lemma Bcc2DetectsOctetError(s: seq<Byte>, k: nat, e: Byte)
    requires k < |s| && e != 0
    ensures Bcc2(s[k := s[k] ^ e]) != Bcc2(s)
  {
    Bcc2OctetError(s, k, e);
    XorNonZeroChanges(Bcc2(s), e);
  }

  lemma XorNonZeroChanges(a: Byte, e: Byte)
    requires e != 0
    ensures a ^ e != a
  {
  }

  /** In particular every single-bit error in one octet is detected. */
  lemma Bcc2DetectsBitFlip(s: seq<Byte>, k: nat, bit: nat)
    requires k < |s| && bit < 8
    ensures Bcc2(s[k := s[k] ^ (1 as Byte << bit)]) != Bcc2(s)
  {
    var e: Byte := 1 as Byte << bit;
    assert e != 0 by {
      assert bit == 0 || bit == 1 || bit == 2 || bit == 3 || bit == 4 || bit == 5 || bit == 6 || bit == 7;
    }
    Bcc2DetectsOctetError(s, k, e);
  }

  /** The frames the link layer sends for SET and UA. */
  lemma PrepSuExamples()
    ensures SuFrame(AddrTx, CtrlSet) == [0x7E, 0x03, 0x03, 0x00, 0x7E]
    ensures SuFrame(AddrTx, CtrlUa) == [0x7E, 0x03, 0x07, 0x04, 0x7E]
  {
  }
}
