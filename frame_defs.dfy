/**
 * Frame constants, field macros and receiver states of the link layer
 * (include/frame_utils.h).
 *
 * Octets are `bv8`, so the header's `^` is Dafny's bit-vector XOR.
 */
module FrameDefs {

  type Byte = bv8

  /** SU_BUF_SIZE: supervision and unnumbered frames are five octets long. */
  const SuBufSize: nat := 5

  /** I_BUF_SIZE(n): room for a stuffed I frame carrying an n-octet payload. */
  function IBufSize(n: int): int { 2 * n + 6 }

  // Delimiter and addresses of supervision and unnumbered frames (SU_Flag, SU_Addr_*).
  const Flag: Byte := 0x7E
  const AddrTx: Byte := 0x03
  const AddrRx: Byte := 0x01

  // Delimiter and addresses of information frames (I_Flag, I_Addr_*).
  const IFlag: Byte := 0x7E
  const IAddrTx: Byte := 0x03
  const IAddrRx: Byte := 0x01

  // Control field of supervision and unnumbered frames.
  const CtrlSet: Byte := 0x03
  const CtrlUa: Byte := 0x07
  const CtrlRr0: Byte := 0xAA
  const CtrlRr1: Byte := 0xAB
  const CtrlRej0: Byte := 0x54
  const CtrlRej1: Byte := 0x55
  const CtrlDisc: Byte := 0x0B

  // Control field of information frames.
  const CtrlI0: Byte := 0x00
  const CtrlI1: Byte := 0x80

  /** Octet-stuffing escape (STUFF_ESC). */
  const StuffEsc: Byte := 0x7D

  /** The seven control codes of supervision and unnumbered frames, in header order. */
  const SuControls: seq<Byte> := [CtrlSet, CtrlUa, CtrlRr0, CtrlRr1, CtrlRej0, CtrlRej1, CtrlDisc]

  /** SU_BCC1(a, c): header protection octet of an S/U frame. */
  function SuBcc1(a: Byte, c: Byte): Byte { a ^ c }

  /** I_BCC1(a, c): header protection octet of an I frame. */
  function IBcc1(a: Byte, c: Byte): Byte { a ^ c }

  /** I_C(n): control octet of an I frame for frame count n. */
  function IC(n: nat): Byte { if n % 2 == 0 then CtrlI0 else CtrlI1 }

  /** STUFF_MASK(b): the value sent after an escape octet. */
  function StuffMask(b: Byte): Byte { b ^ 0x20 }

  /** The two octets that may not travel unescaped inside a payload. */
  predicate Reserved(b: Byte) { b == IFlag || b == StuffEsc }

  /** SU_State: the states of the supervision-frame receiver. */
  datatype SuState = SuStart | SuFlagRcv | SuARcv | SuCRcv | SuBccOk | SuDone

  /** I_C alternates with the parity of the frame count. */
  lemma IcAlternates(n: nat)
    ensures IC(n) == CtrlI0 <==> n % 2 == 0
    ensures IC(n) == CtrlI1 <==> n % 2 == 1
    ensures IC(n) != IC(n + 1) && IC(n + 2) == IC(n)
  {
  }

  /** STUFF_MASK undoes itself. */
  lemma StuffMaskInvolution(b: Byte)
    ensures StuffMask(StuffMask(b)) == b
  {
  }

  /** Masking a reserved octet yields a harmless one. */
  lemma StuffMaskClearsReserved(b: Byte)
    ensures StuffMask(IFlag) == 0x5E && StuffMask(StuffEsc) == 0x5D
    ensures Reserved(b) ==> !Reserved(StuffMask(b))
  {
  }

  /** Either BCC1 octet together with one header field gives back the other field. */
  lemma Bcc1Recovers(a: Byte, c: Byte)
    ensures SuBcc1(SuBcc1(a, c), c) == a && SuBcc1(a, SuBcc1(a, c)) == c
    ensures IBcc1(a, c) == SuBcc1(a, c)
  {
  }

  /**
   * With the transmitter address every defined control code gives a BCC1
   * that is not a flag, so the header of a well-formed S/U frame holds the
   * delimiter only at its two ends.
   */
  lemma SuHeadersAvoidFlag()
    ensures [SuBcc1(AddrTx, CtrlSet), SuBcc1(AddrTx, CtrlUa), SuBcc1(AddrTx, CtrlRr0),
             SuBcc1(AddrTx, CtrlRr1), SuBcc1(AddrTx, CtrlRej0), SuBcc1(AddrTx, CtrlRej1),
             SuBcc1(AddrTx, CtrlDisc)] == [0x00, 0x04, 0xA9, 0xA8, 0x57, 0x56, 0x08]
    ensures forall i :: 0 <= i < |SuControls| ==>
              SuControls[i] != Flag && SuBcc1(AddrTx, SuControls[i]) != Flag
  {
  }

  /** The S/U control codes are pairwise distinct. */
  lemma SuControlsDistinct()
    ensures forall i, j :: 0 <= i < j < |SuControls| ==> SuControls[i] != SuControls[j]
  {
  }
}
