/**
 * The second constant set of include/ll_macros.h and its variadic XOR
 * helper xor_all. The arguments of xor_all travel through `...` as
 * `unsigned int`, so they are `bv32` here; the argument list is a sequence.
 */
module LlMacros {
  import opened FrameDefs
  import FrameUtils

  /** BUF_SIZE */
  const BufSize: nat := 256

  // SU_FRM_*: the fields of supervision and unnumbered frames under the names of this header.
  const FrmFlag: Byte := 0x7E
  const FrmAddrTx: Byte := 0x03
  const FrmAddrRx: Byte := 0x01
  const FrmCtrlSet: Byte := 0x03
  const FrmCtrlUa: Byte := 0x07
  const FrmCtrlRr0: Byte := 0xAA
  const FrmCtrlRr1: Byte := 0xAB
  const FrmCtrlRej0: Byte := 0x54
  const FrmCtrlRej1: Byte := 0x55
  const FrmCtrlDisc: Byte := 0x0B

  // I_FRM_*: the fields of information frames.
  const IFrmFlag: Byte := 0x7E
  const IFrmAddrTx: Byte := 0x03
  const IFrmAddrRx: Byte := 0x01
  const FrmCtrlI0: Byte := 0x00
  const FrmCtrlI1: Byte := 0x80

  /** SU_FRM_BCC1 */
  function SuFrmBcc1(a: Byte, c: Byte): Byte { a ^ c }

  /** I_FRM_BCC1 */
  function IFrmBcc1(a: Byte, c: Byte): Byte { a ^ c }

  /** XOR of a list of `unsigned int` values, folded from the left. */
  function XorFold(s: seq<bv32>): bv32
  {
    if s == [] then 0 else XorFold(s[..|s| - 1]) ^ s[|s| - 1]
  }

  /** Octets widened to `unsigned int`, as the default argument promotions do. */
  function Widen(s: seq<Byte>): seq<bv32>
  {
    if s == [] then [] else Widen(s[..|s| - 1]) + [s[|s| - 1] as bv32]
  }

  /**
   * xor_all(count, ...): XOR of the first `count` variadic arguments. The
   * caller must pass at least `count` of them (reading more is undefined
   * behaviour in C); a count of zero or less yields 0.
   */
  method XorAll(count: int, args: seq<bv32>) returns (res: bv32)
    requires count <= |args|
    ensures count <= 0 ==> res == 0
    ensures 0 <= count ==> res == XorFold(args[..count])
  {
    res := 0;
    var i := 0;
    while i < count
      invariant 0 <= i && (0 <= count ==> i <= count)
      invariant count <= 0 ==> i == 0
      invariant res == XorFold(args[..i])
    {
      assert args[..i + 1][..i] == args[..i];
      res := res ^ args[i];
      i := i + 1;
    }
  }

  /** No arguments: the fold is zero. */
  lemma XorFoldEmpty()
    ensures XorFold([]) == 0
  {
  }

  lemma XorFoldSnoc(p: seq<bv32>, x: bv32)
    ensures XorFold(p + [x]) == XorFold(p) ^ x
  {
    assert (p + [x])[..|p|] == p;
  }

  /** Fold of a concatenation. */
  lemma {:induction false} XorFoldConcat(s: seq<bv32>, t: seq<bv32>)
    ensures XorFold(s + t) == XorFold(s) ^ XorFold(t)
  {
    if t == [] {
      assert s + t == s;
    } else {
      var t' := t[..|t| - 1];
      assert (s + t)[..|s + t| - 1] == s + t';
      XorFoldConcat(s, t');
    }
  }

  lemma XorFoldAround(a: seq<bv32>, y: bv32, c: seq<bv32>)
    ensures XorFold(a + [y] + c) == (XorFold(a) ^ y) ^ XorFold(c)
  {
    XorFoldConcat(a + [y], c);
    XorFoldSnoc(a, y);
  }

  lemma XorFoldMoveLast(a: seq<bv32>, y: bv32, c: seq<bv32>, p: seq<bv32>)
    requires XorFold(p) == XorFold(a + c)
    ensures XorFold(p + [y]) == XorFold(a + [y] + c)
  {
    XorFoldSnoc(p, y);
    XorFoldAround(a, y, c);
    XorFoldConcat(a, c);
  }

  /** xor_all does not depend on the order of its arguments. */
  lemma {:induction false} XorFoldPermutation(s: seq<bv32>, t: seq<bv32>)
    requires multiset(s) == multiset(t)
    ensures XorFold(s) == XorFold(t)
    decreases |s|
  {
    if s == [] {
      assert |t| == |multiset(t)| == 0;
    } else {
      var y := s[|s| - 1];
      var p := s[..|s| - 1];
      assert s == p + [y];
      var a, c := SplitAtOccurrence(t, y, s);
      RemoveOccurrence(p, y, a, c, t);
      XorFoldPermutation(p, a + c);
      XorFoldMoveLast(a, y, c, p);
    }
  }

  /** A value that occurs in t splits t around one of its occurrences. */
  lemma SplitAtOccurrence(t: seq<bv32>, y: bv32, s: seq<bv32>) returns (a: seq<bv32>, c: seq<bv32>)
    requires s != [] && y == s[|s| - 1] && multiset(s) == multiset(t)
    ensures t == a + [y] + c
  {
    assert y in multiset(s);
    assert y in multiset(t);
    var k :| 0 <= k < |t| && t[k] == y;
    a, c := t[..k], t[k + 1..];
    assert t == a + [y] + c;
  }

  /** Taking the same value out of two permutations of each other leaves permutations. */
  lemma RemoveOccurrence(p: seq<bv32>, y: bv32, a: seq<bv32>, c: seq<bv32>, t: seq<bv32>)
    requires t == a + [y] + c && multiset(p + [y]) == multiset(t)
    ensures multiset(p) == multiset(a + c)
  {
    assert multiset(t) == multiset(a) + multiset{y} + multiset(c);
    assert multiset(p + [y]) == multiset(p) + multiset{y};
    assert multiset(a + c) == multiset(a) + multiset(c);
    assert multiset(p) == multiset(p + [y]) - multiset{y};
    assert multiset(a + c) == multiset(t) - multiset{y};
  }

  /** XOR of values below 256 is below 256. */
  lemma {:induction false} XorFoldOfOctets(s: seq<bv32>)
    requires forall i :: 0 <= i < |s| ==> s[i] < 256
    ensures XorFold(s) < 256
  {
    if s != [] {
      XorFoldOfOctets(s[..|s| - 1]);
      OctetXor(XorFold(s[..|s| - 1]), s[|s| - 1]);
    }
  }

  lemma OctetXor(a: bv32, b: bv32)
    requires a < 256 && b < 256
    ensures a ^ b < 256
  {
  }

  /** On widened octets xor_all agrees with funcI_BCC2's parity octet. */
  lemma {:induction false} XorFoldWidened(s: seq<Byte>)
    ensures XorFold(Widen(s)) == FrameUtils.Bcc2(s) as bv32
  {
    if s != [] {
      var p := s[..|s| - 1];
      XorFoldWidened(p);
      XorFoldSnoc(Widen(p), s[|s| - 1] as bv32);
      WidenXor(FrameUtils.Bcc2(p), s[|s| - 1]);
    }
  }

  lemma WidenXor(a: Byte, b: Byte)
    ensures (a ^ b) as bv32 == a as bv32 ^ b as bv32
  {
  }

  /** The two headers give every field the same value. */
  lemma ConstantsAgree(a: Byte, c: Byte)
    ensures FrmFlag == Flag && FrmAddrTx == AddrTx && FrmAddrRx == AddrRx
    ensures [FrmCtrlSet, FrmCtrlUa, FrmCtrlRr0, FrmCtrlRr1, FrmCtrlRej0, FrmCtrlRej1, FrmCtrlDisc] == SuControls
    ensures IFrmFlag == IFlag && IFrmAddrTx == IAddrTx && IFrmAddrRx == IAddrRx
    ensures FrmCtrlI0 == CtrlI0 && FrmCtrlI1 == CtrlI1
    ensures SuFrmBcc1(a, c) == SuBcc1(a, c) && IFrmBcc1(a, c) == IBcc1(a, c)
  {
  }
}
