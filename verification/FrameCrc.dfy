/**
 The header checksum of protocol frames: the reflected CRC-32 of section 8 of RFC 1952,
 computed bit by bit, and which changes of a message it detects.
 */
module FrameCrc {
  import opened Common
  import opened BitWords

  function Ones(): Word
  {
    WordOf(0xFFFF_FFFF)
  }

  function Polynomial(): Word
  {
    WordOf(0xEDB8_8320)
  }

  // ---------------------------------------------------------------- the checksum

  /** One bit: shift right, and add the polynomial when a one falls out. */
  function StepWith(p: Word, w: Word): Word
  {
    if w[0] then Xor(ShiftRight(w), p) else ShiftRight(w)
  }

  function BitStep(w: Word): Word
  {
    StepWith(Polynomial(), w)
  }

  function Iterate(f: Word -> Word, w: Word, k: nat): Word
  {
    if k == 0 then w else f(Iterate(f, w, k - 1))
  }

  function Steps(w: Word, k: nat): Word
  {
    Iterate(BitStep, w, k)
  }

  function Widen(o: Octet): Word
  {
    o + Zeros(24)
  }

  function ByteStep(w: Word, o: Octet): Word
  {
    Steps(Xor(w, Widen(o)), 8)
  }

  function State(start: Word, bytes: seq<Octet>): Word
  {
    if bytes == [] then start else ByteStep(State(start, bytes[..|bytes| - 1]), bytes[|bytes| - 1])
  }

  function Crc32(bytes: seq<Octet>): Word
  {
    Xor(State(Ones(), bytes), Ones())
  }

  method RpcFrameCrc32(payload: seq<Octet>) returns (crc: Word)
    ensures crc == Crc32(payload)
  {
    var state: Word := Ones();
    for i := 0 to |payload|
      invariant state == State(Ones(), payload[..i])
    {
      assert payload[..i + 1][..i] == payload[..i];
      state := Xor(state, Widen(payload[i]));
      ghost var mixed := state;
      for k := 0 to 8
        invariant state == Steps(mixed, k)
      {
        var mask: Word := seq(32, _ => state[0]);
        MaskedStep(state, mask);
        state := Xor(ShiftRight(state), And(Polynomial(), mask));
      }
    }
    assert payload[..|payload|] == payload;
    return Xor(state, Ones());
  }

  // ---------------------------------------------------------------- algebra of the steps

  /** The mask of low bits selects the polynomial or nothing. */
  lemma MaskedStep(w: Word, mask: Word)
    requires forall i :: 0 <= i < 32 ==> mask[i] == w[0]
    ensures Xor(ShiftRight(w), And(Polynomial(), mask)) == BitStep(w)
  {
  }

  /** The polynomial of the standard: its exponents below 32, the constant term in the highest bit. */
  lemma PolynomialBits(i: nat)
    requires i < 32
    ensures Polynomial()[i] <==> 31 - i in {26, 23, 22, 16, 12, 11, 10, 8, 7, 5, 4, 2, 1, 0}
  {
    assert Mask(0) == 0x1 && Mask(1) == 0x2 && Mask(2) == 0x4 && Mask(3) == 0x8;
    assert Mask(4) == 0x10 && Mask(5) == 0x20 && Mask(6) == 0x40 && Mask(7) == 0x80;
    assert Mask(8) == 0x100 && Mask(9) == 0x200 && Mask(10) == 0x400 && Mask(11) == 0x800;
    assert Mask(12) == 0x1000 && Mask(13) == 0x2000 && Mask(14) == 0x4000 && Mask(15) == 0x8000;
    assert Mask(16) == 0x1_0000 && Mask(17) == 0x2_0000 && Mask(18) == 0x4_0000 && Mask(19) == 0x8_0000;
    assert Mask(20) == 0x10_0000 && Mask(21) == 0x20_0000 && Mask(22) == 0x40_0000 && Mask(23) == 0x80_0000;
    assert Mask(24) == 0x100_0000 && Mask(25) == 0x200_0000 && Mask(26) == 0x400_0000 && Mask(27) == 0x800_0000;
    assert Mask(28) == 0x1000_0000 && Mask(29) == 0x2000_0000 && Mask(30) == 0x4000_0000 && Mask(31) == 0x8000_0000;
  }

  /** With the top bit of `p` set, the bit that fell out can be read off the result. */
  lemma StepIsInjective(p: Word, a: Word, b: Word)
    requires p[31] && StepWith(p, a) == StepWith(p, b)
    ensures a == b
  {
    assert StepWith(p, a)[31] == a[0] && StepWith(p, b)[31] == b[0];
    forall i | 0 <= i < 32 ensures a[i] == b[i] {
      if i > 0 {
        assert ShiftRight(a)[i - 1] == a[i] && ShiftRight(b)[i - 1] == b[i];
        assert StepWith(p, a)[i - 1] == StepWith(p, b)[i - 1];
      }
    }
  }

  lemma BitStepIsInjective(a: Word, b: Word)
    requires BitStep(a) == BitStep(b)
    ensures a == b
  {
    PolynomialBits(31);
    StepIsInjective(Polynomial(), a, b);
  }

  lemma StepIsLinear(p: Word, a: Word, b: Word)
    ensures StepWith(p, Xor(a, b)) == Xor(StepWith(p, a), StepWith(p, b))
  {
  }

  lemma BitStepIsLinear(a: Word, b: Word)
    ensures BitStep(Xor(a, b)) == Xor(BitStep(a), BitStep(b))
  {
    StepIsLinear(Polynomial(), a, b);
  }

  lemma {:induction false} IterateIsInjective(f: Word -> Word, a: Word, b: Word, k: nat)
    requires forall x: Word, y: Word :: f(x) == f(y) ==> x == y
    requires Iterate(f, a, k) == Iterate(f, b, k)
    ensures a == b
  {
    if k > 0 {
      IterateIsInjective(f, a, b, k - 1);
    }
  }

  lemma StepsAreInjective(a: Word, b: Word, k: nat)
    requires Steps(a, k) == Steps(b, k)
    ensures a == b
  {
    forall x: Word, y: Word | BitStep(x) == BitStep(y) ensures x == y {
      BitStepIsInjective(x, y);
    }
    IterateIsInjective(BitStep, a, b, k);
  }

  lemma {:induction false} IterateIsLinear(f: Word -> Word, a: Word, b: Word, k: nat)
    requires forall x: Word, y: Word :: f(Xor(x, y)) == Xor(f(x), f(y))
    ensures Iterate(f, Xor(a, b), k) == Xor(Iterate(f, a, k), Iterate(f, b, k))
  {
    if k > 0 {
      IterateIsLinear(f, a, b, k - 1);
      assert f(Xor(Iterate(f, a, k - 1), Iterate(f, b, k - 1))) ==
             Xor(f(Iterate(f, a, k - 1)), f(Iterate(f, b, k - 1)));
    }
  }

  lemma StepsAreLinear(a: Word, b: Word, k: nat)
    ensures Steps(Xor(a, b), k) == Xor(Steps(a, k), Steps(b, k))
  {
    forall x: Word, y: Word ensures BitStep(Xor(x, y)) == Xor(BitStep(x), BitStep(y)) {
      BitStepIsLinear(x, y);
    }
    IterateIsLinear(BitStep, a, b, k);
  }

  lemma {:induction false} IterateAdds(f: Word -> Word, a: Word, j: nat, k: nat)
    ensures Iterate(f, Iterate(f, a, j), k) == Iterate(f, a, j + k)
  {
    if k > 0 {
      IterateAdds(f, a, j, k - 1);
    }
  }

  /** As long as zeroes fall out, the polynomial is not touched. */
  lemma {:induction false} ZerosFallOut(w: Word, k: nat)
    requires k <= 32 && forall i :: 0 <= i < k ==> !w[i]
    ensures Steps(w, k) == w[k..] + Zeros(k)
  {
    if k == 0 {
      assert w[0..] + Zeros(0) == w;
    } else {
      ZerosFallOut(w, k - 1);
      assert Steps(w, k - 1)[0] == w[k - 1];
      assert ShiftRight(w[k - 1..] + Zeros(k - 1)) == w[k..] + Zeros(k);
    }
  }

  // ---------------------------------------------------------------- detection

  lemma {:induction false} StateKeepsDifference(x: Word, y: Word, bytes: seq<Octet>)
    requires State(x, bytes) == State(y, bytes)
    ensures x == y
  {
    if bytes != [] {
      var front, last := bytes[..|bytes| - 1], Widen(bytes[|bytes| - 1]);
      StepsAreInjective(Xor(State(x, front), last), Xor(State(y, front), last), 8);
      XorCancel(State(x, front), State(y, front), last);
      StateKeepsDifference(x, y, front);
    }
  }

  lemma XorCancel(a: Word, b: Word, c: Word)
    requires Xor(a, c) == Xor(b, c)
    ensures a == b
  {
    forall i | 0 <= i < 32 ensures a[i] == b[i] {
      assert Xor(a, c)[i] == Xor(b, c)[i];
    }
  }

  lemma XorCancelLeft(a: Word, b: Word, c: Word)
    requires Xor(c, a) == Xor(c, b)
    ensures a == b
  {
    forall i | 0 <= i < 32 ensures a[i] == b[i] {
      assert Xor(c, a)[i] == Xor(c, b)[i];
    }
  }

  lemma XorAssociative(a: Word, b: Word, c: Word)
    ensures Xor(Xor(a, b), c) == Xor(a, Xor(b, c))
  {
  }

  lemma {:induction false} StateConcat(start: Word, a: seq<Octet>, b: seq<Octet>)
    ensures State(start, a + b) == State(State(start, a), b)
  {
    if b == [] {
      assert a + b == a;
    } else {
      StateConcat(start, a, b[..|b| - 1]);
      assert (a + b)[..|a + b| - 1] == a + b[..|b| - 1];
    }
  }

  /** The bits of a window of octets, first octet first. */
  function Flat(bytes: seq<Octet>): (b: Bits)
    ensures |b| == 8 * |bytes|
  {
    if bytes == [] then [] else Flat(bytes[..|bytes| - 1]) + bytes[|bytes| - 1]
  }

  function Padded(bytes: seq<Octet>): Word
    requires |bytes| <= 4
  {
    Flat(bytes) + Zeros(32 - 8 * |bytes|)
  }

  /** Octet `o` placed behind `m` octets of zeroes. */
  function Placed(m: nat, o: Octet): Word
    requires m < 4
  {
    Zeros(8 * m) + o + Zeros(24 - 8 * m)
  }

  lemma PlacedFallsDown(m: nat, o: Octet)
    requires m < 4
    ensures Steps(Placed(m, o), 8 * m) == Widen(o)
  {
    ZerosFallOut(Placed(m, o), 8 * m);
    ZerosMoveUp(8 * m, o);
  }

  lemma ZerosMoveUp(k: nat, o: Octet)
    requires k <= 24
    ensures (Zeros(k) + o + Zeros(24 - k))[k..] + Zeros(k) == o + Zeros(24)
  {
    assert (Zeros(k) + o + Zeros(24 - k))[k..] == o + Zeros(24 - k);
    assert Zeros(24 - k) + Zeros(k) == Zeros(24);
  }

  lemma PaddedAppend(bytes: seq<Octet>, o: Octet)
    requires |bytes| < 4
    ensures Padded(bytes + [o]) == Xor(Padded(bytes), Placed(|bytes|, o))
  {
    assert (bytes + [o])[..|bytes|] == bytes;
  }

  /** An octet that comes after `m` others acts as if it had been there, `m` octets up, from the start. */
  lemma OctetActsEarly(w: Word, m: nat, o: Octet)
    requires m < 4
    ensures ByteStep(Steps(w, 8 * m), o) == Steps(Xor(w, Placed(m, o)), 8 * m + 8)
  {
    PlacedFallsDown(m, o);
    AddedEarly(w, Placed(m, o), 8 * m, 8);
  }

  /** Adding what `p` becomes after `j` steps is adding `p` before them. */
  lemma AddedEarly(w: Word, p: Word, j: nat, k: nat)
    ensures Steps(Xor(Steps(w, j), Steps(p, j)), k) == Steps(Xor(w, p), j + k)
  {
    StepsAreLinear(w, p, j);
    IterateAdds(BitStep, Xor(w, p), j, k);
  }

  /** Up to four octets act like one word that is added at once and then stepped through. */
  lemma {:induction false} WindowActsAsOneWord(start: Word, bytes: seq<Octet>)
    requires |bytes| <= 4
    ensures State(start, bytes) == Steps(Xor(start, Padded(bytes)), 8 * |bytes|)
  {
    if bytes == [] {
      EmptyWindow(start);
    } else {
      var m := |bytes| - 1;
      assert bytes == bytes[..m] + [bytes[m]];
      WindowActsAsOneWord(start, bytes[..m]);
      WindowExtended(start, bytes[..m], bytes[m]);
    }
  }

  lemma WindowExtended(start: Word, front: seq<Octet>, o: Octet)
    requires |front| < 4 && State(start, front) == Steps(Xor(start, Padded(front)), 8 * |front|)
    ensures State(start, front + [o]) == Steps(Xor(start, Padded(front + [o])), 8 * |front + [o]|)
  {
    PaddedAppend(front, o);
    WindowStep(start, front, Padded(front), o);
  }

  lemma EmptyWindow(start: Word)
    ensures Xor(start, Padded([])) == start
  {
  }

  lemma WindowStep(start: Word, front: seq<Octet>, p: Word, o: Octet)
    requires |front| < 4 && State(start, front) == Steps(Xor(start, p), 8 * |front|)
    ensures State(start, front + [o]) == Steps(Xor(start, Xor(p, Placed(|front|, o))), 8 * |front| + 8)
  {
    WindowGrows(start, p, |front|, o);
    StateAppend(start, front, o);
  }

  lemma StateAppend(start: Word, front: seq<Octet>, o: Octet)
    ensures State(start, front + [o]) == ByteStep(State(start, front), o)
  {
    assert (front + [o])[..|front|] == front;
  }

  lemma WindowGrows(start: Word, p: Word, m: nat, o: Octet)
    requires m < 4
    ensures ByteStep(Steps(Xor(start, p), 8 * m), o) == Steps(Xor(start, Xor(p, Placed(m, o))), 8 * m + 8)
  {
    OctetActsEarly(Xor(start, p), m, o);
    XorAssociative(start, p, Placed(m, o));
  }

  lemma {:induction false} FlatIsInjective(a: seq<Octet>, b: seq<Octet>)
    requires |a| == |b| && Flat(a) == Flat(b)
    ensures a == b
  {
    if a != [] {
      var m := |a| - 1;
      assert Flat(a)[..8 * m] == Flat(a[..m]) && Flat(b)[..8 * m] == Flat(b[..m]);
      assert Flat(a)[8 * m..] == a[m] && Flat(b)[8 * m..] == b[m];
      FlatIsInjective(a[..m], b[..m]);
      assert a == a[..m] + [a[m]] && b == b[..m] + [b[m]];
    }
  }

  /** Burst detection: any change confined to four neighbouring octets changes the checksum. */
  lemma BurstChangesCrc(front: seq<Octet>, a: seq<Octet>, b: seq<Octet>, back: seq<Octet>)
    requires |a| == |b| <= 4 && a != b
    ensures Crc32(front + a + back) != Crc32(front + b + back)
  {
    if Crc32(front + a + back) == Crc32(front + b + back) {
      XorCancel(State(Ones(), front + a + back), State(Ones(), front + b + back), Ones());
      var s := State(Ones(), front);
      StateConcat(Ones(), front + a, back);
      StateConcat(Ones(), front + b, back);
      StateConcat(Ones(), front, a);
      StateConcat(Ones(), front, b);
      StateKeepsDifference(State(s, a), State(s, b), back);
      WindowActsAsOneWord(s, a);
      WindowActsAsOneWord(s, b);
      StepsAreInjective(Xor(s, Padded(a)), Xor(s, Padded(b)), 8 * |a|);
      XorCancelLeft(Padded(a), Padded(b), s);
      assert Flat(a) == Padded(a)[..8 * |a|] && Flat(b) == Padded(b)[..8 * |a|];
      FlatIsInjective(a, b);
    }
  }

  // ---------------------------------------------------------------- the residue

  /** One bit, on a machine word. */
  function Stepped(b: bv32): bv32
  {
    if b & 1 != 0 then (b >> 1) ^ 0xEDB8_8320 else b >> 1
  }

  lemma StepOfWord(b: bv32)
    ensures BitStep(WordOf(b)) == WordOf(Stepped(b))
  {
    assert Mask(0) == 1;
    ShiftOfWord(b);
    XorOfWords(b >> 1, 0xEDB8_8320);
  }

  lemma StepsTo(b: bv32, c: bv32, k: nat)
    requires Steps(Ones(), k) == WordOf(b) && Stepped(b) == c
    ensures Steps(Ones(), k + 1) == WordOf(c)
  {
    StepOfWord(b);
  }

  lemma OnesAfter8()
    ensures Steps(Ones(), 8) == WordOf(0x2DFD_1072)
  {
    StepsTo(0xFFFF_FFFF, 0x9247_7CDF, 0);
    StepsTo(0x9247_7CDF, 0xA49B_3D4F, 1);
    StepsTo(0xA49B_3D4F, 0xBFF5_1D87, 2);
    StepsTo(0xBFF5_1D87, 0xB242_0DE3, 3);
    StepsTo(0xB242_0DE3, 0xB499_85D1, 4);
    StepsTo(0xB499_85D1, 0xB7F4_41C8, 5);
    StepsTo(0xB7F4_41C8, 0x5BFA_20E4, 6);
    StepsTo(0x5BFA_20E4, 0x2DFD_1072, 7);
  }

  lemma OnesAfter16()
    ensures Steps(Ones(), 16) == WordOf(0xBE26_ED00)
  {
    OnesAfter8();
    StepsTo(0x2DFD_1072, 0x16FE_8839, 8);
    StepsTo(0x16FE_8839, 0xE6C7_C73C, 9);
    StepsTo(0xE6C7_C73C, 0x7363_E39E, 10);
    StepsTo(0x7363_E39E, 0x39B1_F1CF, 11);
    StepsTo(0x39B1_F1CF, 0xF160_7BC7, 12);
    StepsTo(0xF160_7BC7, 0x9508_BEC3, 13);
    StepsTo(0x9508_BEC3, 0xA73C_DC41, 14);
    StepsTo(0xA73C_DC41, 0xBE26_ED00, 15);
  }

  lemma OnesAfter24()
    ensures Steps(Ones(), 24) == WordOf(0x00BE_26ED)
  {
    OnesAfter16();
    StepsTo(0xBE26_ED00, 0x5F13_7680, 16);
    StepsTo(0x5F13_7680, 0x2F89_BB40, 17);
    StepsTo(0x2F89_BB40, 0x17C4_DDA0, 18);
    StepsTo(0x17C4_DDA0, 0x0BE2_6ED0, 19);
    StepsTo(0x0BE2_6ED0, 0x05F1_3768, 20);
    StepsTo(0x05F1_3768, 0x02F8_9BB4, 21);
    StepsTo(0x02F8_9BB4, 0x017C_4DDA, 22);
    StepsTo(0x017C_4DDA, 0x00BE_26ED, 23);
  }

  lemma OnesAfter32()
    ensures Steps(Ones(), 32) == WordOf(0xDEBB_20E3)
  {
    OnesAfter24();
    StepsTo(0x00BE_26ED, 0xEDE7_9056, 24);
    StepsTo(0xEDE7_9056, 0x76F3_C82B, 25);
    StepsTo(0x76F3_C82B, 0xD6C1_6735, 26);
    StepsTo(0xD6C1_6735, 0x86D8_30BA, 27);
    StepsTo(0x86D8_30BA, 0x436C_185D, 28);
    StepsTo(0x436C_185D, 0xCC0E_8F0E, 29);
    StepsTo(0xCC0E_8F0E, 0x6607_4787, 30);
    StepsTo(0x6607_4787, 0xDEBB_20E3, 31);
  }

  /** The octets of a word, low octet first. */
  function LowFirst(w: Word): (bytes: seq<Octet>)
    ensures |bytes| == 4
  {
    [w[0..8], w[8..16], w[16..24], w[24..32]]
  }

  lemma PaddedLowFirst(w: Word)
    ensures Padded(LowFirst(w)) == w
  {
    var bytes := LowFirst(w);
    assert bytes[..3] == [w[0..8], w[8..16], w[16..24]] && bytes[..3][..2] == [w[0..8], w[8..16]];
    assert bytes[..3][..2][..1] == [w[0..8]] && bytes[..3][..2][..1][..0] == [];
    assert Flat(bytes[..3][..2][..1]) == w[0..8];
    assert Flat(bytes[..3][..2]) == w[0..8] + w[8..16];
    assert Flat(bytes[..3]) == w[0..8] + w[8..16] + w[16..24];
    assert Flat(bytes) == w[0..8] + w[8..16] + w[16..24] + w[24..32];
  }

  lemma XorTwice(s: Word, c: Word)
    ensures Xor(s, Xor(s, c)) == c
  {
  }

  /**
   Every message followed by its checksum, low octet first, leaves the same state, which only
   this polynomial, this start and this final complement give.
   */
  lemma ResidueIsFixed(message: seq<Octet>)
    ensures State(WordOf(0xFFFF_FFFF), message + LowFirst(Crc32(message))) == WordOf(0xDEBB_20E3)
  {
    var s, c := State(Ones(), message), Crc32(message);
    StateConcat(Ones(), message, LowFirst(c));
    WindowActsAsOneWord(s, LowFirst(c));
    PaddedLowFirst(c);
    XorTwice(s, Ones());
    OnesAfter32();
  }
}
