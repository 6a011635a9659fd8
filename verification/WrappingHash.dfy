/**
 Polynomial hashing with wrap-around, shared by the backup resume checksum (multiplier 31
 in 32 bits) and the compaction evidence of the audit log (multiplier 1099511628211 in 64
 bits). The multiplier has an inverse, so a single changed term always shows.
 */
module WrappingHash {

  /** A multiplier, a modulus, and the evidence that the multiplier has an inverse. */
  datatype Hash = Hash(multiplier: nat, modulus: nat, inverse: nat, excess: nat)
  {
    predicate Valid()
    {
      modulus > 0 && multiplier * inverse == 1 + excess * modulus
    }
  }

  const CHECKSUM31 := Hash(31, 0x1_0000_0000, 3186588639, 23)
  const EVIDENCE64 := Hash(1_099_511_628_211, 0x1_0000_0000_0000_0000, 14886173955864302971, 887285111055)

  /** One step: multiply the state and add a term, keeping the low bits. */
  function Step(h: Hash, state: nat, term: nat): (next: nat)
    requires h.Valid()
    ensures next < h.modulus
  {
    (state * h.multiplier + term) % h.modulus
  }

  function Fold(h: Hash, state: nat, terms: seq<nat>): nat
    requires h.Valid()
  {
    if terms == [] then state
    else Step(h, Fold(h, state, terms[..|terms| - 1]), terms[|terms| - 1])
  }

  /** The multiplier's inverse undoes a step: equal results come from equal states. */
  lemma StepIsInjective(h: Hash, x: nat, y: nat, term: nat)
    requires h.Valid() && x < h.modulus && y < h.modulus
    requires Step(h, x, term) == Step(h, y, term)
    ensures x == y
  {
    var m, n, inv, q := h.multiplier, h.modulus, h.inverse, h.excess;
    var d: int := x - y;
    var k: int := (x * m + term) / n - (y * m + term) / n;
    Difference(x * m + term, y * m + term, n);
    assert d * m == n * k;
    Cancel(d, m, inv, q, n, k);
    MultipleBelowModulus(d, n, k * inv - d * q);
  }

  lemma Difference(a: nat, b: nat, n: nat)
    requires n > 0 && a % n == b % n
    ensures a - b == n * (a / n - b / n)
  {
    assert a == n * (a / n) + a % n && b == n * (b / n) + b % n;
  }

  lemma Cancel(d: int, m: int, inv: int, q: int, n: int, k: int)
    requires d * m == n * k && m * inv == 1 + q * n
    ensures d == n * (k * inv - d * q)
  {
    calc {
      d;
      d * (m * inv - q * n);
      (d * m) * inv - d * q * n;
      (n * k) * inv - d * q * n;
      n * (k * inv - d * q);
    }
  }

  lemma MultipleBelowModulus(d: int, n: int, k: int)
    requires d == n * k && -n < d < n
    ensures d == 0
  {
    assert k >= 1 ==> n * k >= n;
    assert k <= -1 ==> n * k <= -n;
  }

  /** Two terms have the same effect exactly when they agree modulo the modulus. */
  lemma StepSeesTerm(h: Hash, state: nat, a: nat, b: nat)
    requires h.Valid()
    ensures Step(h, state, a) == Step(h, state, b) <==> a % h.modulus == b % h.modulus
  {
    var s, n := state * h.multiplier, h.modulus;
    if Step(h, state, a) == Step(h, state, b) {
      Difference(s + a, s + b, n);
      SameResidue(a, b, n, (s + a) / n - (s + b) / n);
    }
    if a % n == b % n {
      Difference(a, b, n);
      SameResidue(s + a, s + b, n, a / n - b / n);
    }
  }

  lemma SameResidue(a: nat, b: nat, n: nat, k: int)
    requires n > 0 && a - b == n * k
    ensures a % n == b % n
  {
    var d: int := a % n - b % n;
    assert a == n * (a / n) + a % n && b == n * (b / n) + b % n;
    assert d == n * (k - a / n + b / n);
    MultipleBelowModulus(d, n, k - a / n + b / n);
  }

  /** Wrapping early or late gives the same sum. */
  lemma WrapEarly(a: nat, b: nat, n: nat)
    requires n > 0
    ensures (a % n + b % n) % n == (a + b) % n
    ensures (a % n + b) % n == (a + b) % n
  {
    assert a == n * (a / n) + a % n && b == n * (b / n) + b % n;
    assert n * (a / n) + n * (b / n) == n * (a / n + b / n);
    SameResidue(a + b, a % n + b % n, n, a / n + b / n);
    SameResidue(a + b, a % n + b, n, a / n);
  }

  /** Later steps never hide a difference. */
  lemma {:induction false} FoldKeepsDifference(h: Hash, x: nat, y: nat, terms: seq<nat>)
    requires h.Valid() && x < h.modulus && y < h.modulus
    ensures Fold(h, x, terms) < h.modulus && Fold(h, y, terms) < h.modulus
    ensures Fold(h, x, terms) == Fold(h, y, terms) <==> x == y
  {
    if terms != [] {
      var front, last := terms[..|terms| - 1], terms[|terms| - 1];
      FoldKeepsDifference(h, x, y, front);
      if Fold(h, x, terms) == Fold(h, y, terms) {
        StepIsInjective(h, Fold(h, x, front), Fold(h, y, front), last);
      }
    }
  }

  lemma {:induction false} FoldConcat(h: Hash, state: nat, a: seq<nat>, b: seq<nat>)
    requires h.Valid()
    ensures Fold(h, state, a + b) == Fold(h, Fold(h, state, a), b)
  {
    if b == [] {
      assert a + b == a;
    } else {
      FoldConcat(h, state, a, b[..|b| - 1]);
      assert (a + b)[..|a + b| - 1] == a + b[..|b| - 1];
    }
  }

  /** Replacing one term changes the hash exactly when the two terms differ modulo the modulus. */
  lemma OneTermChanged(h: Hash, state: nat, terms: seq<nat>, i: nat, term: nat)
    requires h.Valid() && i < |terms|
    ensures Fold(h, state, terms) == Fold(h, state, terms[i := term]) <==> terms[i] % h.modulus == term % h.modulus
  {
    var before, after := terms[..i], terms[i + 1..];
    var s := Fold(h, state, before);
    assert terms == before + ([terms[i]] + after);
    assert terms[i := term] == before + ([term] + after);
    FoldConcat(h, state, before, [terms[i]] + after);
    FoldConcat(h, state, before, [term] + after);
    FoldConcat(h, s, [terms[i]], after);
    FoldConcat(h, s, [term], after);
    FoldOne(h, s, terms[i]);
    FoldOne(h, s, term);
    FoldKeepsDifference(h, Step(h, s, terms[i]), Step(h, s, term), after);
    StepSeesTerm(h, s, terms[i], term);
  }

  lemma FoldOne(h: Hash, state: nat, term: nat)
    requires h.Valid()
    ensures Fold(h, state, [term]) == Step(h, state, term)
  {
    assert [term][..0] == [];
  }

  function Power(m: nat, k: nat): nat
  {
    if k == 0 then 1 else m * Power(m, k - 1)
  }

  /** The unbounded polynomial: each term times a power of the multiplier, the last one times one. */
  function PowerSum(m: nat, terms: seq<nat>): nat
  {
    if terms == [] then 0 else terms[0] * Power(m, |terms| - 1) + PowerSum(m, terms[1..])
  }

  lemma {:induction false} PowerSumAppend(h: Hash, terms: seq<nat>, term: nat)
    ensures PowerSum(h.multiplier, terms + [term]) == PowerSum(h.multiplier, terms) * h.multiplier + term
  {
    if terms == [] {
      assert ([] + [term])[1..] == [];
    } else {
      PowerSumAppend(h, terms[1..], term);
      assert (terms + [term])[1..] == terms[1..] + [term];
      Multiplied(terms[0], h.multiplier, Power(h.multiplier, |terms| - 1), PowerSum(h.multiplier, terms[1..]));
    }
  }

  lemma Multiplied(a: nat, m: nat, p: nat, rest: nat)
    ensures a * (m * p) + rest * m == (a * p + rest) * m
  {
    assert a * (m * p) == (a * p) * m;
    assert (a * p + rest) * m == (a * p) * m + rest * m;
  }

  lemma StepOfResidue(h: Hash, p: nat, term: nat)
    requires h.Valid()
    ensures Step(h, p % h.modulus, term) == (p * h.multiplier + term) % h.modulus
  {
    var n, m := h.modulus, h.multiplier;
    var k := p / n;
    assert p == n * k + p % n;
    assert (n * k + p % n) * m == n * (k * m) + (p % n) * m;
    SameResidue(p * m + term, (p % n) * m + term, n, k * m);
  }

  /** Wrapping at every step computes the residue of the polynomial, the start state being its leading term. */
  lemma {:induction false} FoldIsPolynomial(h: Hash, state: nat, terms: seq<nat>)
    requires h.Valid() && state < h.modulus
    ensures Fold(h, state, terms) == PowerSum(h.multiplier, [state] + terms) % h.modulus
  {
    if terms == [] {
      PowerSumOne(h, state);
      assert [state] + terms == [state];
    } else {
      var front, last := terms[..|terms| - 1], terms[|terms| - 1];
      FoldIsPolynomial(h, state, front);
      assert [state] + terms == ([state] + front) + [last];
      PowerSumAppend(h, [state] + front, last);
      StepOfResidue(h, PowerSum(h.multiplier, [state] + front), last);
    }
  }

  lemma PowerSumOne(h: Hash, term: nat)
    requires h.Valid()
    ensures PowerSum(h.multiplier, [term]) == term
    ensures term < h.modulus ==> term % h.modulus == term
  {
    assert PowerSum(h.multiplier, [term][1..]) == 0;
  }
}
