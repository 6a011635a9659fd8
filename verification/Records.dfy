/**
 Records one behind the other in a buffer, for any relation between octets and records that is
 self-delimiting: no record is empty, and none is the beginning of another. Then a buffer splits into
 records in at most one way, and a loop that takes one record off the front at a time finds that way.
 */
module Records {
  import opened Common

  /** No record is empty, and of two records one is not the beginning of the other. */
  ghost predicate IsCode<T(!new), F(!new)>(holds: (seq<T>, F) -> bool)
  {
    && (forall a, f :: holds(a, f) ==> a != [])
    && (forall a, f, b, g :: holds(a, f) && holds(b, g) && a <= b ==> a == b && f == g)
  }

  /** The octets are the records `fs`, one behind the other, and nothing else. */
  ghost predicate Splits<T, F>(holds: (seq<T>, F) -> bool, bytes: seq<T>, fs: seq<F>)
    decreases |fs|, 1
  {
    if fs == [] then bytes == [] else exists n: nat :: StartsAt(holds, bytes, fs, n)
  }

  /** The first record of `fs` is the first `n` octets, and the others are the rest. */
  ghost predicate StartsAt<T, F>(holds: (seq<T>, F) -> bool, bytes: seq<T>, fs: seq<F>, n: nat)
    requires fs != []
    decreases |fs|, 0
  {
    n <= |bytes| && holds(bytes[..n], fs[0]) && Splits(holds, bytes[n..], fs[1..])
  }

  /** The first `n` octets are `max` records, and more octets follow. */
  ghost predicate Exceeds<T, F>(holds: (seq<T>, F) -> bool, bytes: seq<T>, max: nat, fs: seq<F>, n: nat)
  {
    |fs| == max && n < |bytes| && Splits(holds, bytes[..n], fs)
  }

  /** No record starts at the front. */
  ghost predicate NoneStarts<T, F(!new)>(holds: (seq<T>, F) -> bool, bytes: seq<T>)
  {
    forall f, n: nat :: n <= |bytes| ==> !holds(bytes[..n], f)
  }

  lemma {:induction false} SplitsJoin<T, F>(holds: (seq<T>, F) -> bool, a: seq<T>, fs: seq<F>, b: seq<T>, gs: seq<F>)
    requires Splits(holds, a, fs) && Splits(holds, b, gs)
    ensures Splits(holds, a + b, fs + gs)
    decreases |fs|
  {
    if fs == [] {
      assert a + b == b && fs + gs == gs;
    } else {
      var n: nat :| StartsAt(holds, a, fs, n);
      SplitsJoin(holds, a[n..], fs[1..], b, gs);
      assert StartsAt(holds, a + b, fs + gs, n) by {
        assert (a + b)[..n] == a[..n] && (a + b)[n..] == a[n..] + b;
        assert (fs + gs)[1..] == fs[1..] + gs;
      }
    }
  }

  lemma OneSplits<T, F>(holds: (seq<T>, F) -> bool, bytes: seq<T>, f: F)
    requires holds(bytes, f)
    ensures Splits(holds, bytes, [f])
  {
    assert bytes[..|bytes|] == bytes && bytes[|bytes|..] == [];
    assert Splits(holds, bytes[|bytes|..], [f][1..]);
    assert StartsAt(holds, bytes, [f], |bytes|);
  }

  /** One record more. */
  lemma SplitsMore<T, F>(holds: (seq<T>, F) -> bool, bytes: seq<T>, fs: seq<F>, offset: nat, f: F, n: nat)
    requires offset + n <= |bytes| && Splits(holds, bytes[..offset], fs) && holds(bytes[offset..][..n], f)
    ensures Splits(holds, bytes[..offset + n], fs + [f])
  {
    var one := bytes[offset..][..n];
    OneSplits(holds, one, f);
    SplitsJoin(holds, bytes[..offset], fs, one, [f]);
    assert bytes[..offset] + one == bytes[..offset + n];
  }

  /** Of two lists of records that start a buffer, the shorter one starts the longer one. */
  lemma {:induction false} SplitsAgree<T(!new), F(!new)>(holds: (seq<T>, F) -> bool, bytes: seq<T>,
                                                         fs: seq<F>, m: nat, gs: seq<F>, n: nat)
    requires IsCode(holds) && m <= |bytes| && n <= |bytes| && |fs| <= |gs|
    requires Splits(holds, bytes[..m], fs) && Splits(holds, bytes[..n], gs)
    ensures fs == gs[..|fs|] && m <= n && Splits(holds, bytes[m..n], gs[|fs|..])
    decreases |fs|
  {
    if fs == [] {
      assert bytes[m..n] == bytes[..n] && gs[0..] == gs;
    } else {
      var j := FirstRecord(holds, bytes, m, fs);
      var k := FirstRecord(holds, bytes, n, gs);
      SameFirst(holds, bytes, j, fs[0], k, gs[0]);
      SplitsAgree(holds, bytes[j..], fs[1..], m - j, gs[1..], n - j);
      AgreeBehind(holds, bytes, fs, m, gs, n, j);
    }
  }

  lemma AgreeBehind<T, F>(holds: (seq<T>, F) -> bool, bytes: seq<T>, fs: seq<F>, m: nat, gs: seq<F>, n: nat, j: nat)
    requires j <= m <= n <= |bytes| && 0 < |fs| <= |gs| && fs[0] == gs[0] && fs[1..] == gs[1..][..|fs| - 1]
    requires Splits(holds, bytes[j..][m - j..n - j], gs[1..][|fs| - 1..])
    ensures fs == gs[..|fs|] && Splits(holds, bytes[m..n], gs[|fs|..])
  {
    SliceOfRest(bytes, j, m, n);
    FirstAndRest(fs, gs);
  }

  lemma SameFirst<T(!new), F(!new)>(holds: (seq<T>, F) -> bool, bytes: seq<T>, j: nat, f: F, k: nat, g: F)
    requires IsCode(holds) && j <= |bytes| && k <= |bytes| && holds(bytes[..j], f) && holds(bytes[..k], g)
    ensures j == k && f == g
  {
    var a, b := bytes[..j], bytes[..k];
    assert a <= b || b <= a;
  }

  lemma SliceOfRest<T>(bytes: seq<T>, j: nat, m: nat, n: nat)
    requires j <= m <= n <= |bytes|
    ensures bytes[j..][m - j..n - j] == bytes[m..n]
  {
  }

  lemma FirstAndRest<F>(fs: seq<F>, gs: seq<F>)
    requires 0 < |fs| <= |gs|
    ensures gs[1..][|fs| - 1..] == gs[|fs|..]
    ensures fs[0] == gs[0] && fs[1..] == gs[1..][..|fs| - 1] ==> fs == gs[..|fs|]
  {
    assert fs == [fs[0]] + fs[1..] && gs[..|fs|] == [gs[0]] + gs[1..][..|fs| - 1];
  }

  lemma FirstRecord<T, F>(holds: (seq<T>, F) -> bool, bytes: seq<T>, m: nat, fs: seq<F>) returns (j: nat)
    requires m <= |bytes| && fs != [] && Splits(holds, bytes[..m], fs)
    ensures j <= m && holds(bytes[..j], fs[0]) && Splits(holds, bytes[j..][..m - j], fs[1..])
  {
    j :| StartsAt(holds, bytes[..m], fs, j);
    assert bytes[..m][..j] == bytes[..j] && bytes[..m][j..] == bytes[j..][..m - j];
  }

  /** A buffer that splits into `fs` splits into nothing else, and has no more than `max` records if `fs` has not. */
  lemma OnlySplit<T(!new), F(!new)>(holds: (seq<T>, F) -> bool, bytes: seq<T>, fs: seq<F>, max: nat)
    requires IsCode(holds) && Splits(holds, bytes, fs) && |fs| <= max
    ensures forall gs :: Splits(holds, bytes, gs) <==> gs == fs
    ensures forall gs, n :: !Exceeds(holds, bytes, max, gs, n)
  {
    assert bytes[..|bytes|] == bytes;
    forall gs | Splits(holds, bytes, gs) ensures gs == fs {
      if |fs| <= |gs| {
        SplitsAgree(holds, bytes, fs, |bytes|, gs, |bytes|);
        NothingLeft(holds, bytes[|bytes|..|bytes|], gs[|fs|..]);
      } else {
        SplitsAgree(holds, bytes, gs, |bytes|, fs, |bytes|);
        NothingLeft(holds, bytes[|bytes|..|bytes|], fs[|gs|..]);
      }
    }
    forall gs, n | Exceeds(holds, bytes, max, gs, n) ensures false {
      SplitsAgree(holds, bytes, fs, |bytes|, gs, n);
    }
  }

  lemma NothingLeft<T(!new), F(!new)>(holds: (seq<T>, F) -> bool, bytes: seq<T>, fs: seq<F>)
    requires IsCode(holds) && bytes == [] && Splits(holds, bytes, fs)
    ensures fs == []
  {
  }

  /** With `max` records and more octets, the buffer does not split into `max` records or fewer. */
  lemma TooMany<T(!new), F(!new)>(holds: (seq<T>, F) -> bool, bytes: seq<T>, fs: seq<F>, n: nat)
    requires IsCode(holds) && n < |bytes| && Splits(holds, bytes[..n], fs)
    ensures forall gs :: Splits(holds, bytes, gs) ==> |gs| > |fs|
  {
    assert bytes[..|bytes|] == bytes;
    forall gs | Splits(holds, bytes, gs) ensures |gs| > |fs| {
      if |gs| <= |fs| {
        SplitsAgree(holds, bytes, gs, |bytes|, fs, n);
      }
    }
  }

  /** Behind `fs` no record starts, so no longer list of records starts the buffer. */
  lemma NoLonger<T(!new), F(!new)>(holds: (seq<T>, F) -> bool, bytes: seq<T>, fs: seq<F>, offset: nat,
                                   gs: seq<F>, n: nat)
    requires IsCode(holds) && offset <= |bytes| && n <= |bytes| && NoneStarts(holds, bytes[offset..])
    requires Splits(holds, bytes[..offset], fs) && Splits(holds, bytes[..n], gs)
    ensures |gs| <= |fs| && n <= offset
  {
    if |gs| <= |fs| {
      SplitsAgree(holds, bytes, gs, n, fs, offset);
    } else {
      OneMoreStarts(holds, bytes, fs, offset, gs, n);
    }
  }

  lemma OneMoreStarts<T(!new), F(!new)>(holds: (seq<T>, F) -> bool, bytes: seq<T>, fs: seq<F>, offset: nat,
                                        gs: seq<F>, n: nat)
    requires IsCode(holds) && offset <= |bytes| && n <= |bytes| && |fs| < |gs|
    requires Splits(holds, bytes[..offset], fs) && Splits(holds, bytes[..n], gs)
    ensures !NoneStarts(holds, bytes[offset..])
  {
    SplitsAgree(holds, bytes, fs, offset, gs, n);
    MiddleOf(bytes, offset, n);
    OneStarts(holds, bytes[offset..], bytes[offset..n], gs[|fs|..]);
  }

  lemma MiddleOf<T>(bytes: seq<T>, offset: nat, n: nat)
    requires offset <= n <= |bytes|
    ensures bytes[offset..n] <= bytes[offset..]
  {
  }

  lemma OneStarts<T(!new), F(!new)>(holds: (seq<T>, F) -> bool, bytes: seq<T>, part: seq<T>, fs: seq<F>)
    requires part <= bytes && fs != [] && Splits(holds, part, fs)
    ensures !NoneStarts(holds, bytes)
  {
    var k: nat :| StartsAt(holds, part, fs, k);
    assert bytes[..k] == part[..k];
  }

  /** So the buffer does not split at all, and it does not start with `max` records either. */
  lemma NoSplit<T(!new), F(!new)>(holds: (seq<T>, F) -> bool, bytes: seq<T>, fs: seq<F>, offset: nat, max: nat)
    requires IsCode(holds) && offset < |bytes| && |fs| < max && Splits(holds, bytes[..offset], fs)
    requires NoneStarts(holds, bytes[offset..])
    ensures forall gs :: !Splits(holds, bytes, gs)
    ensures forall gs, n :: !Exceeds(holds, bytes, max, gs, n)
  {
    assert bytes[..|bytes|] == bytes;
    forall gs | Splits(holds, bytes, gs) ensures false {
      NoLonger(holds, bytes, fs, offset, gs, |bytes|);
    }
    forall gs, n | Exceeds(holds, bytes, max, gs, n) ensures false {
      NoLonger(holds, bytes, fs, offset, gs, n);
    }
  }

  /** The first `k` records of a buffer. */
  lemma {:induction false} SplitsFront<T(!new), F(!new)>(holds: (seq<T>, F) -> bool, bytes: seq<T>, fs: seq<F>, k: nat)
    returns (n: nat)
    requires IsCode(holds) && Splits(holds, bytes, fs) && k <= |fs|
    ensures n <= |bytes| && Splits(holds, bytes[..n], fs[..k]) && (k < |fs| ==> n < |bytes|)
    decreases k
  {
    if k == 0 {
      n := 0;
    } else {
      var m: nat :| StartsAt(holds, bytes, fs, m);
      var rest := SplitsFront(holds, bytes[m..], fs[1..], k - 1);
      n := m + rest;
      assert StartsAt(holds, bytes[..n], fs[..k], m) by {
        assert bytes[..n][..m] == bytes[..m] && bytes[..n][m..] == bytes[m..][..rest];
        assert fs[..k][1..] == fs[1..][..k - 1];
      }
    }
  }

  lemma LongerExceeds<T(!new), F(!new)>(holds: (seq<T>, F) -> bool, bytes: seq<T>, fs: seq<F>, max: nat)
    requires IsCode(holds) && Splits(holds, bytes, fs) && max < |fs|
    ensures exists gs, n :: Exceeds(holds, bytes, max, gs, n)
  {
    var n := SplitsFront(holds, bytes, fs, max);
    assert Exceeds(holds, bytes, max, fs[..max], n);
  }

  /** What a scanner has to do: find the record at the front exactly if there is one. */
  ghost predicate IsScanner<T(!new), F(!new)>(scan: seq<T> -> Option<(F, nat)>, holds: (seq<T>, F) -> bool)
  {
    forall bytes, f, n: nat :: scan(bytes) == Some((f, n)) <==> n <= |bytes| && holds(bytes[..n], f)
  }

  datatype ScanError = Protocol | Resource

  /**
   Take all records off a buffer, with any scanner. The answer is `fs` exactly when the buffer is those records
   and there are at most `max`, and resources run out exactly when `max` records are followed by more octets.
   */
  method ScanRecords<T(!new), F(!new)>(scan: seq<T> -> Option<(F, nat)>, ghost holds: (seq<T>, F) -> bool, max: nat,
                                       bytes: seq<T>) returns (r: Result<seq<F>, ScanError>)
    requires IsCode(holds) && IsScanner(scan, holds)
    ensures forall fs :: r == Ok(fs) <==> Splits(holds, bytes, fs) && |fs| <= max
    ensures r == Err(Resource) <==> exists fs, n :: Exceeds(holds, bytes, max, fs, n)
  {
    var records, offset := [], 0;
    while offset < |bytes|
      invariant offset <= |bytes| && |records| <= max && Splits(holds, bytes[..offset], records)
    {
      if |records| >= max {
        assert Exceeds(holds, bytes, max, records, offset);
        TooMany(holds, bytes, records, offset);
        return Err(Resource);
      }
      var one := scan(bytes[offset..]);
      if one.None? {
        NoSplit(holds, bytes, records, offset, max);
        return Err(Protocol);
      }
      var (f, n) := one.value;
      assert n <= |bytes[offset..]| && holds(bytes[offset..][..n], f);
      SplitsMore(holds, bytes, records, offset, f, n);
      records, offset := records + [f], offset + n;
    }
    assert bytes[..offset] == bytes;
    OnlySplit(holds, bytes, records, max);
    return Ok(records);
  }

  /** The codes of records, one behind the other. */
  function Joined<T, F>(code: F -> seq<T>, fs: seq<F>): seq<T>
  {
    if fs == [] then [] else code(fs[0]) + Joined(code, fs[1..])
  }

  lemma {:induction false} JoinedSplits<T, F>(code: F -> seq<T>, holds: (seq<T>, F) -> bool, fs: seq<F>)
    requires forall i :: 0 <= i < |fs| ==> holds(code(fs[i]), fs[i])
    ensures Splits(holds, Joined(code, fs), fs)
  {
    if fs != [] {
      JoinedSplits(code, holds, fs[1..]);
      OneSplits(holds, code(fs[0]), fs[0]);
      SplitsJoin(holds, code(fs[0]), [fs[0]], Joined(code, fs[1..]), fs[1..]);
      assert fs == [fs[0]] + fs[1..];
    }
  }
}
