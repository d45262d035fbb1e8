/** Zero-padded exclusive or of payloads, and what undoing it gives back. */
module FecParity {
  import opened FecPacket

  function Xor(a: bv8, b: bv8): bv8 { a ^ b }

  /** Byte i of a payload padded with zeros. */
  function At(p: Bytes, i: nat): bv8 {
    if i < |p| then p[i] else 0
  }

  function MaxLen(ps: seq<Bytes>): nat {
    if ps == [] then 0
    else var m := MaxLen(ps[..|ps| - 1]); if m < |ps[|ps| - 1]| then |ps[|ps| - 1]| else m
  }

  function ParityAt(ps: seq<Bytes>, i: nat): bv8 {
    if ps == [] then 0 else Xor(ParityAt(ps[..|ps| - 1], i), At(ps[|ps| - 1], i))
  }

  /** The parity payload of a group: as long as its longest payload. */
  function Parity(ps: seq<Bytes>): (r: Bytes)
    ensures |r| == MaxLen(ps)
    ensures forall i :: 0 <= i < |r| ==> r[i] == ParityAt(ps, i)
  {
    seq(MaxLen(ps), i requires 0 <= i => ParityAt(ps, i))
  }

  /** bytes.rstrip(b"\x00") */
  function StripZeros(p: Bytes): (r: Bytes)
    ensures |r| <= |p| && r == p[..|r|]
    ensures forall i :: |r| <= i < |p| ==> p[i] == 0
    ensures r == [] || r[|r| - 1] != 0
  {
    if p != [] && p[|p| - 1] == 0 then StripZeros(p[..|p| - 1]) else p
  }

  /** Payloads that survive stripping; every JSON text qualifies, since it ends in '}'. */
  predicate NoTrailingZero(p: Bytes) {
    p == [] || p[|p| - 1] != 0
  }

  lemma StripKeepsExactly(p: Bytes)
    ensures StripZeros(p) == p <==> NoTrailingZero(p)
  {
  }

  /** Stripping ignores how much zero padding a payload has. */
  lemma StripPadding(p: Bytes, padded: Bytes)
    requires |p| <= |padded| && forall i :: 0 <= i < |padded| ==> padded[i] == At(p, i)
    ensures StripZeros(padded) == StripZeros(p)
  {
    var a, b := StripZeros(padded), StripZeros(p);
    if |a| < |b| {
      assert b[|b| - 1] == padded[|b| - 1] == 0;
    }
    assert |a| > 0 ==> a[|a| - 1] == At(p, |a| - 1);
  }

  lemma {:induction false} MaxLenBounds(ps: seq<Bytes>, k: nat)
    requires k < |ps|
    ensures |ps[k]| <= MaxLen(ps)
  {
    if k < |ps| - 1 {
      MaxLenBounds(ps[..|ps| - 1], k);
    }
  }

  lemma {:induction false} MaxLenAttained(ps: seq<Bytes>, bound: nat)
    requires forall k :: 0 <= k < |ps| ==> |ps[k]| <= bound
    ensures MaxLen(ps) <= bound
  {
    if ps != [] {
      MaxLenAttained(ps[..|ps| - 1], bound);
    }
  }

  /** The exclusive or, at byte i, of the payloads present among indices 0..n. */
  function XorPresent(data: map<nat, Bytes>, n: nat, i: nat): bv8
    decreases n
  {
    if n == 0 then 0
    else Xor(XorPresent(data, n - 1, i), if n - 1 in data then At(data[n - 1], i) else 0)
  }

  lemma AtPadded(p: Bytes, i: nat)
    ensures At(p, i) == if i < |p| then p[i] else 0
  {
  }

  lemma XorZero(a: bv8)
    ensures Xor(a, 0) == a && Xor(0, a) == a && Xor(a, a) == 0
  {
  }

  lemma XorSwapLast(a: bv8, b: bv8, c: bv8)
    ensures Xor(Xor(a, b), c) == Xor(Xor(a, c), b)
  {
  }

  lemma XorCancelLast(a: bv8, b: bv8, p: bv8)
    ensures Xor(Xor(a, p), Xor(b, p)) == Xor(a, b)
  {
  }

  /** Folding in one more payload, in any order. */
  lemma {:induction false} XorPresentAdd(data: map<nat, Bytes>, k: nat, p: Bytes, n: nat, i: nat)
    requires k !in data
    ensures XorPresent(data[k := p], n, i)
         == (if k < n then Xor(XorPresent(data, n, i), At(p, i)) else XorPresent(data, n, i))
    decreases n
  {
    hide Xor, At;
    if n > 0 {
      XorPresentAdd(data, k, p, n - 1, i);
      var rest := XorPresent(data, n - 1, i);
      var last := if n - 1 in data then At(data[n - 1], i) else 0;
      XorSwapLast(rest, At(p, i), last);
      XorZero(rest);
    }
  }

  lemma {:induction false} XorPresentPast(data: map<nat, Bytes>, m: nat, n: nat, i: nat)
    requires m <= n && forall k :: k in data ==> k < m
    ensures XorPresent(data, n, i) == XorPresent(data, m, i)
    decreases n
  {
    hide Xor, At;
    if m < n {
      XorPresentPast(data, m, n - 1, i);
      XorZero(XorPresent(data, n - 1, i));
    }
  }

  /** data holds exactly the payloads of ps but number m. */
  predicate AllBut(data: map<nat, Bytes>, ps: seq<Bytes>, m: nat) {
    && m < |ps|
    && (forall k :: k in data ==> k < |ps| && k != m && data[k] == ps[k])
    && (forall k :: 0 <= k < |ps| && k != m ==> k in data)
  }

  lemma {:induction false} ParityMinusPresent(data: map<nat, Bytes>, ps: seq<Bytes>, m: nat, n: nat, i: nat)
    requires AllBut(data, ps, m) && n <= |ps|
    ensures Xor(ParityAt(ps[..n], i), XorPresent(data, n, i)) == (if m < n then At(ps[m], i) else 0)
    decreases n
  {
    hide Xor, At;
    if n == 0 {
      XorZero(0);
    } else {
      ParityMinusPresent(data, ps, m, n - 1, i);
      assert ps[..n][..n - 1] == ps[..n - 1];
      var a, b, p := ParityAt(ps[..n - 1], i), XorPresent(data, n - 1, i), At(ps[n - 1], i);
      if n - 1 == m {
        XorZero(b);
        XorSwapLast(a, p, b);
        XorZero(p);
      } else {
        XorCancelLast(a, b, p);
      }
    }
  }

  /** What the receiver computes from the parity and the payloads it holds. */
  function Rebuilt(parity: Bytes, data: map<nat, Bytes>): (r: Bytes)
    ensures |r| == |parity|
  {
    seq(|parity|, i requires 0 <= i < |parity| => Xor(parity[i], XorPresent(data, 256, i)))
  }

  /** MAIN: with one payload of the group missing, the receiver's exclusive or is that
      payload, up to its trailing zeros. */
  lemma RebuiltIsMissing(data: map<nat, Bytes>, ps: seq<Bytes>, m: nat)
    requires |ps| <= 256 && AllBut(data, ps, m)
    ensures StripZeros(Rebuilt(Parity(ps), data)) == StripZeros(ps[m])
  {
    hide Xor, StripZeros, ParityAt;
    var r := Rebuilt(Parity(ps), data);
    MaxLenBounds(ps, m);
    forall i | 0 <= i < |r|
      ensures r[i] == At(ps[m], i)
    {
      XorPresentPast(data, |ps|, 256, i);
      assert ps[..|ps|] == ps;
      ParityMinusPresent(data, ps, m, |ps|, i);
    }
    StripPadding(ps[m], r);
  }
}
