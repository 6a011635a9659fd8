/**
 Machine words as their bits, least significant first, so that shifting drops the
 first bit, and what the operators of the machine do to them.
 */
module BitWords {
  import opened Common

  type Bits = seq<bool>
  type Octet = b: Bits | |b| == 8 witness Zeros(8)
  type Word = w: Bits | |w| == 32 witness Zeros(32)

  function Zeros(n: nat): (z: Bits)
    ensures |z| == n
  {
    seq(n, _ => false)
  }

  /** The low `k` bits of a number. */
  function BitsOf(n: nat, k: nat): (b: Bits)
    ensures |b| == k
  {
    if k == 0 then [] else [n % 2 == 1] + BitsOf(n / 2, k - 1)
  }

  /** The number whose bits these are. */
  function NumberOf(b: Bits): (n: nat)
    ensures n < Pow2(|b|)
  {
    if b == [] then 0 else (if b[0] then 1 else 0) + 2 * NumberOf(b[1..])
  }

  lemma {:induction false} NumberOfBitsOf(n: nat, k: nat)
    requires n < Pow2(k)
    ensures NumberOf(BitsOf(n, k)) == n
  {
    if k > 0 {
      assert BitsOf(n, k)[1..] == BitsOf(n / 2, k - 1);
      NumberOfBitsOf(n / 2, k - 1);
    }
  }

  lemma {:induction false} BitsOfNumberOf(b: Bits)
    ensures BitsOf(NumberOf(b), |b|) == b
  {
    if b != [] {
      BitsOfNumberOf(b[1..]);
    }
  }

  function Xor(a: Bits, b: Bits): (c: Bits)
    requires |a| == |b|
    ensures |c| == |a|
  {
    seq(|a|, i requires 0 <= i < |a| => a[i] != b[i])
  }

  function And(a: Bits, b: Bits): (c: Bits)
    requires |a| == |b|
    ensures |c| == |a|
  {
    seq(|a|, i requires 0 <= i < |a| => a[i] && b[i])
  }

  function ShiftRight(w: Word): Word
  {
    w[1..] + [false]
  }

  // ---------------------------------------------------------------- words of the machine

  /** The word in which only bit `i` is set. */
  function Mask(i: nat): bv32
  {
    if i == 0 then 1 else Mask(i - 1) << 1
  }

  predicate Meets(b: bv32, mask: bv32)
  {
    b & mask != 0
  }

  predicate Bit(b: bv32, i: nat)
  {
    Meets(b, Mask(i))
  }

  function WordOf(b: bv32): Word
  {
    seq(32, i requires 0 <= i < 32 => Bit(b, i))
  }

  predicate IsOneBit(mask: bv32)
  {
    mask & (mask - 1) == 0
  }

  lemma Doubled(mask: bv32)
    requires IsOneBit(mask)
    ensures IsOneBit(mask << 1)
  {
  }

  lemma {:induction false} MaskIsOneBit(i: nat)
    ensures IsOneBit(Mask(i))
  {
    if i > 0 {
      MaskIsOneBit(i - 1);
      Doubled(Mask(i - 1));
    }
  }

  lemma XorAt(x: bv32, y: bv32, mask: bv32)
    requires IsOneBit(mask)
    ensures Meets(x ^ y, mask) <==> Meets(x, mask) != Meets(y, mask)
  {
  }

  lemma ShiftAt(b: bv32, mask: bv32, next: bv32)
    requires next == mask << 1
    ensures Meets(b >> 1, mask) <==> Meets(b, next)
  {
  }

  lemma NextMask(i: nat)
    ensures Mask(i + 1) == Mask(i) << 1
  {
  }

  lemma MaskEnds()
    ensures Mask(32) == 0
  {
    assert Mask(8) == 0x100;
    assert Mask(16) == 0x1_0000;
    assert Mask(24) == 0x100_0000;
  }

  /** Adding bits without carry is what the machine's exclusive or does. */
  lemma XorOfWords(x: bv32, y: bv32)
    ensures WordOf(x ^ y) == Xor(WordOf(x), WordOf(y))
  {
    forall i | 0 <= i < 32 ensures Bit(x ^ y, i) <==> Bit(x, i) != Bit(y, i) {
      MaskIsOneBit(i);
      XorAt(x, y, Mask(i));
    }
  }

  lemma ShiftPointwise(v: Word, w: Word)
    requires (forall i :: 0 <= i < 31 ==> w[i] == v[i + 1]) && !w[31]
    ensures ShiftRight(v) == w
  {
  }

  predicate Moves(b: bv32, i: nat)
  {
    Bit(b >> 1, i) <==> Bit(b, i + 1)
  }

  lemma BitMoves(b: bv32, i: nat)
    ensures Moves(b, i)
  {
    NextMask(i);
    ShiftAt(b, Mask(i), Mask(i + 1));
  }

  /** Dropping the first bit is what the machine's shift does. */
  lemma ShiftOfWord(b: bv32)
    ensures ShiftRight(WordOf(b)) == WordOf(b >> 1)
  {
    var v, w := WordOf(b), WordOf(b >> 1);
    forall i | 0 <= i < 31 ensures w[i] == v[i + 1] {
      BitMoves(b, i);
    }
    MaskEnds();
    BitMoves(b, 31);
    ShiftPointwise(v, w);
  }

  // ---------------------------------------------------------------- bits of a number

  lemma Multiples(d: int, e: int)
    requires d >= 0
    ensures (e >= 1 ==> d * e >= d) && (e <= -1 ==> d * e <= -d)
  {
  }

  lemma Quotient(n: nat, d: nat, q: nat, r: nat)
    requires d > 0 && r < d && n == d * q + r
    ensures n / d == q
  {
    var x := n / d;
    assert n == d * x + n % d;
    assert d * (x - q) == r - n % d;
    Multiples(d, x - q);
  }

  lemma TwoRemainders(c: nat, d: nat, m: nat, q: nat, r: nat, s: nat)
    requires m == d * q + r && r < d && s < c
    ensures c * m + s == (c * d) * q + (c * r + s) && c * r + s < c * d
  {
    assert c * m == (c * d) * q + c * r;
    assert c * (r + 1) <= c * d;
  }

  lemma Parts(n: nat, d: nat)
    requires d > 0
    ensures n == d * (n / d) + n % d && n % d < d
  {
  }

  lemma DividedTwice(n: nat, c: nat, d: nat)
    requires c > 0 && d > 0
    ensures c * d > 0 && n / (c * d) == n / c / d
  {
    Parts(n, c);
    Parts(n / c, d);
    Nested(n, c, d, n / c, n / c / d, n / c % d, n % c);
  }

  lemma Nested(n: nat, c: nat, d: nat, m: nat, q: nat, r: nat, s: nat)
    requires n == c * m + s && m == d * q + r && r < d && s < c
    ensures c * d > 0 && n / (c * d) == q
  {
    TwoRemainders(c, d, m, q, r, s);
    Quotient(n, c * d, q, c * r + s);
  }

  /** Bit `i` of a number is its quotient by the power of two, up to multiples of two. */
  lemma {:induction false} BitAt(n: nat, k: nat, i: nat)
    requires i < k
    ensures BitsOf(n, k)[i] <==> (n / Pow2(i)) % 2 == 1
  {
    if i > 0 {
      BitAt(n / 2, k - 1, i - 1);
      DividedTwice(n, 2, Pow2(i - 1));
    }
  }

  /** Byte `i` of a little-endian field is the number's quotient by the power of 256, up to multiples of 256. */
  lemma {:induction false} LeByteAt(n: nat, k: nat, i: nat)
    requires i < k
    ensures LeBytes(n, k)[i] == n / Pow256(i) % 256
    decreases k
  {
    if i > 0 {
      LeByteAt(n / 256, k - 1, i - 1);
      DividedTwice(n, 256, Pow256(i - 1));
    }
  }
}
