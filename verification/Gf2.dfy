/** CRC-32 over bit sequences: the 32-bit shift register written as the list of its bits,
    and the polynomial arithmetic over GF(2) that it performs.

    A register is a sequence of 32 booleans, bit 0 first. Bit i is the coefficient of
    x^(31 - i), so a register is also a polynomial of degree below 32, highest power first.
*/
module Gf2 {

  // ----- Bit sequences -----

  function Xor(a: seq<bool>, b: seq<bool>): (r: seq<bool>)
    requires |a| == |b|
    ensures |r| == |a|
    ensures forall i :: 0 <= i < |a| ==> r[i] == (a[i] != b[i])
  {
    seq(|a|, i requires 0 <= i < |a| => a[i] != b[i])
  }

  function Zeros(n: nat): (r: seq<bool>)
    ensures |r| == n
    ensures forall i :: 0 <= i < n ==> !r[i]
  {
    seq(n, _ => false)
  }

  // ----- The generator of section 8 of RFC 1952 -----

  /** Powers of x below 32 in the CRC-32 generator (its leading power is 32). */
  predicate IsPower(e: int) {
    || e == 26 || e == 23 || e == 22 || e == 16 || e == 12 || e == 11 || e == 10
    || e == 8 || e == 7 || e == 5 || e == 4 || e == 2 || e == 1 || e == 0
  }

  function Tail(): (r: seq<bool>)
    ensures |r| == 32
    ensures forall i :: 0 <= i < 32 ==> r[i] == IsPower(31 - i)
  {
    seq(32, i => IsPower(31 - i))
  }

  /** The generator, all 33 coefficients, highest power first. */
  function Generator(): (g: seq<bool>)
    ensures |g| == 33
  {
    [true] + Tail()
  }

  // ----- The register, one bit at a time -----

  function Feed(r: seq<bool>, bit: bool): (r': seq<bool>)
    requires |r| == 32
    ensures |r'| == 32
  {
    Xor(r[1..] + [false], if r[0] != bit then Tail() else Zeros(32))
  }

  function FeedAll(r: seq<bool>, bits: seq<bool>): (r': seq<bool>)
    requires |r| == 32
    ensures |r'| == 32
    decreases |bits|
  {
    if bits == [] then r else Feed(FeedAll(r, bits[..|bits| - 1]), bits[|bits| - 1])
  }

  lemma {:induction false} FeedAllConcat(r: seq<bool>, a: seq<bool>, b: seq<bool>)
    requires |r| == 32
    ensures FeedAll(r, a + b) == FeedAll(FeedAll(r, a), b)
    decreases |b|
  {
    if b == [] {
      assert a + b == a;
    } else {
      var k := |b| - 1;
      assert (a + b)[..|a + b| - 1] == a + b[..k];
      FeedAllConcat(r, a, b[..k]);
    }
  }

  lemma {:induction false} FeedAllCons(r: seq<bool>, bit: bool, rest: seq<bool>)
    requires |r| == 32
    ensures FeedAll(r, [bit] + rest) == FeedAll(Feed(r, bit), rest)
  {
    assert [bit][..0] == [];
    FeedAllConcat(r, [bit], rest);
  }

  // ----- Linearity -----

  lemma FeedLinear(r: seq<bool>, s: seq<bool>, a: bool, b: bool)
    requires |r| == |s| == 32
    ensures Feed(Xor(r, s), a != b) == Xor(Feed(r, a), Feed(s, b))
  {
    var lhs, rhs := Feed(Xor(r, s), a != b), Xor(Feed(r, a), Feed(s, b));
    forall i | 0 <= i < 32 ensures lhs[i] == rhs[i] {
      if i < 31 {
        assert Xor(r, s)[1..][i] == (r[1..][i] != s[1..][i]);
      }
    }
  }

  lemma {:induction false} FeedAllLinear(r: seq<bool>, s: seq<bool>, u: seq<bool>, v: seq<bool>)
    requires |r| == |s| == 32 && |u| == |v|
    ensures FeedAll(Xor(r, s), Xor(u, v)) == Xor(FeedAll(r, u), FeedAll(s, v))
    decreases |u|
  {
    if u != [] {
      var k := |u| - 1;
      assert Xor(u, v)[..k] == Xor(u[..k], v[..k]);
      FeedAllLinear(r, s, u[..k], v[..k]);
      FeedLinear(FeedAll(r, u[..k]), FeedAll(s, v[..k]), u[k], v[k]);
    }
  }

  lemma XorZero(a: seq<bool>)
    ensures Xor(a, Zeros(|a|)) == a
    ensures Xor(Zeros(|a|), a) == a
    ensures Xor(a, a) == Zeros(|a|)
  {
  }

  lemma XorUndo(a: seq<bool>, b: seq<bool>)
    requires |a| == |b|
    ensures Xor(Xor(a, b), b) == a
    ensures Xor(a, Xor(a, b)) == b
  {
  }

  /** A register fed its own first bit is only shifted. */
  lemma FeedFirst(r: seq<bool>)
    requires |r| == 32
    ensures Feed(r, r[0]) == r[1..] + [false]
  {
    XorZero(r[1..] + [false]);
  }

  lemma ShiftPadded(v: seq<bool>)
    requires 0 < |v| <= 32
    ensures (v + Zeros(32 - |v|))[1..] + [false] == v[1..] + Zeros(32 - |v[1..]|)
  {
  }

  /** A register fed its own leading bits is emptied. */
  lemma {:induction false} FeedSelf(v: seq<bool>)
    requires |v| <= 32
    ensures FeedAll(v + Zeros(32 - |v|), v) == Zeros(32)
    decreases |v|
  {
    if v == [] {
      assert v + Zeros(32) == Zeros(32);
    } else {
      var r := v + Zeros(32 - |v|);
      assert v == [v[0]] + v[1..];
      FeedAllCons(r, v[0], v[1..]);
      FeedFirst(r);
      ShiftPadded(v);
      FeedSelf(v[1..]);
    }
  }

  /** Feeding a register its own bits under a mask leaves what the mask alone would. */
  lemma {:induction false} FeedMasked(c: seq<bool>, mask: seq<bool>)
    requires |c| == |mask| == 32
    ensures FeedAll(c, Xor(c, mask)) == FeedAll(Zeros(32), mask)
  {
    XorZero(c);
    FeedAllLinear(c, Zeros(32), c, mask);
    FeedSelf(c);
    assert c + Zeros(0) == c;
    XorZero(FeedAll(Zeros(32), mask));
  }

  /** Bits fed one by one, or xored into the register up front and clocked through:
      the same register results. */
  lemma {:induction false} FeedIsFreeRun(r: seq<bool>, v: seq<bool>)
    requires |r| == 32 && |v| <= 32
    ensures FeedAll(r, v) == FeedAll(Xor(r, v + Zeros(32 - |v|)), Zeros(|v|))
  {
    var w := v + Zeros(32 - |v|);
    FeedAllLinear(r, w, v, v);
    FeedSelf(v);
    XorZero(v);
    XorZero(FeedAll(r, v));
  }

  lemma ShiftZeros(w: seq<bool>, n: nat)
    requires n > 0
    ensures (Zeros(n) + w)[1..] + [false] == Zeros(n - 1) + (w + [false])
    ensures w + [false] + Zeros(n - 1) == w + Zeros(n)
  {
    assert (Zeros(n) + w)[1..] == Zeros(n - 1) + w;
  }

  /** Clocking n leading zero bits out of a register only shifts it. */
  lemma {:induction false} FreeRunShifts(w: seq<bool>, n: nat)
    requires |w| + n == 32
    ensures FeedAll(Zeros(n) + w, Zeros(n)) == w + Zeros(n)
    decreases n
  {
    if n == 0 {
      assert Zeros(0) + w == w == w + Zeros(0);
    } else {
      var r := Zeros(n) + w;
      assert Zeros(n) == [false] + Zeros(n - 1);
      FeedAllCons(r, false, Zeros(n - 1));
      FeedFirst(r);
      ShiftZeros(w, n);
      FreeRunShifts(w + [false], n - 1);
    }
  }

  /** One table lookup does the work of eight bits: the register after byte b is the
      entry of (low byte xor b), xored with the register shifted down by eight. */
  lemma {:induction false} LookupFeedsByte(r: seq<bool>, b: seq<bool>)
    requires |r| == 32 && |b| == 8
    ensures FeedAll(r, b) == Xor(FeedAll(Zeros(32), Xor(r[..8], b)), r[8..] + Zeros(8))
  {
    var low, high := r[..8], r[8..];
    var idx := Xor(low, b);
    var lowReg, highReg := low + Zeros(24), Zeros(8) + high;
    assert r == Xor(lowReg, highReg);
    XorUndo(low, b);
    FeedAllLinear(lowReg, highReg, low, idx);
    FeedSelf(low);
    XorZero(FeedAll(highReg, idx));
    // split the table entry from the shift
    XorZero(highReg);
    XorZero(idx);
    FeedAllLinear(Zeros(32), highReg, idx, Zeros(8));
    FreeRunShifts(high, 8);
  }

  // ----- Reversibility and burst detection -----

  lemma FeedInjective(r: seq<bool>, s: seq<bool>, bit: bool)
    requires |r| == |s| == 32
    requires Feed(r, bit) == Feed(s, bit)
    ensures r == s
  {
    var r', s' := Feed(r, bit), Feed(s, bit);
    assert r'[31] == (r[0] != bit) && s'[31] == (s[0] != bit);
    forall i | 0 <= i < 32 ensures r[i] == s[i] {
      if i > 0 {
        assert r'[i - 1] == s'[i - 1];
        assert r[1..][i - 1] == r[i] && s[1..][i - 1] == s[i];
      }
    }
  }

  lemma {:induction false} FeedAllInjective(r: seq<bool>, s: seq<bool>, bits: seq<bool>)
    requires |r| == |s| == 32
    requires FeedAll(r, bits) == FeedAll(s, bits)
    ensures r == s
    decreases |bits|
  {
    if bits != [] {
      var k := |bits| - 1;
      FeedInjective(FeedAll(r, bits[..k]), FeedAll(s, bits[..k]), bits[k]);
      FeedAllInjective(r, s, bits[..k]);
    }
  }

  /** The register before a bit was fed. */
  function Unfeed(r: seq<bool>, bit: bool): (s: seq<bool>)
    requires |r| == 32
    ensures |s| == 32
  {
    var shifted := Xor(r, if r[31] then Tail() else Zeros(32));
    [r[31] != bit] + shifted[..31]
  }

  lemma FeedUndoesUnfeed(r: seq<bool>, bit: bool)
    requires |r| == 32
    ensures Feed(Unfeed(r, bit), bit) == r
  {
    var t := if r[31] then Tail() else Zeros(32);
    var shifted := Xor(r, t);
    assert !shifted[31];
    assert Unfeed(r, bit)[1..] + [false] == shifted;
    XorUndo(r, t);
  }

  /** With the data fixed, every register is reached from exactly one register: the update is
      a bijection. */
  lemma {:induction false} FeedAllBijective(r: seq<bool>, bits: seq<bool>) returns (s: seq<bool>)
    requires |r| == 32
    ensures |s| == 32 && FeedAll(s, bits) == r
    ensures forall s': seq<bool> :: |s'| == 32 && FeedAll(s', bits) == r ==> s' == s
    decreases |bits|
  {
    if bits == [] {
      s := r;
    } else {
      var k := |bits| - 1;
      s := FeedAllBijective(Unfeed(r, bits[k]), bits[..k]);
      FeedUndoesUnfeed(r, bits[k]);
    }
    forall s': seq<bool> | |s'| == 32 && FeedAll(s', bits) == r ensures s' == s {
      FeedAllInjective(s', s, bits);
    }
  }

  lemma {:induction false} FeedZeros(n: nat)
    ensures FeedAll(Zeros(32), Zeros(n)) == Zeros(32)
  {
    if n > 0 {
      assert Zeros(n)[..n - 1] == Zeros(n - 1);
      FeedZeros(n - 1);
    }
  }

  /** Two different bit strings of one length, at most 32, take a register to
      different registers. */
  lemma {:induction false} FeedDistinguishes(r: seq<bool>, x: seq<bool>, y: seq<bool>)
    requires |r| == 32
    requires |x| == |y| <= 32
    requires FeedAll(r, x) == FeedAll(r, y)
    ensures x == y
  {
    var d := Xor(x, y);
    var w := d + Zeros(32 - |d|);
    FeedAllLinear(r, r, x, y);
    XorZero(r);
    XorZero(FeedAll(r, x));
    FeedIsFreeRun(Zeros(32), d);
    XorZero(w);
    FeedZeros(|d|);
    FeedAllInjective(w, Zeros(32), Zeros(|d|));
    forall i | 0 <= i < |x| ensures x[i] == y[i] {
      assert !w[i];
    }
  }

  // ----- Polynomial division -----

  /** q times the generator: |q| coefficients times 33 coefficients. */
  function TimesGenerator(q: seq<bool>): (p: seq<bool>)
    ensures |p| == |q| + 32
    decreases |q|
  {
    if q == [] then Zeros(32) else
      var k := |q| - 1;
      Xor(TimesGenerator(q[..k]) + [false], Zeros(k) + (if q[k] then Generator() else Zeros(33)))
  }

  /** m(x) * x^32 + r(x) * x^|m|: the message extended by 32 zero bits, with the initial
      register added to its first 32 bits. */
  function Dividend(r: seq<bool>, m: seq<bool>): (p: seq<bool>)
    requires |r| == 32
    ensures |p| == |m| + 32
  {
    Xor(m + Zeros(32), r + Zeros(|m|))
  }

  /** rem is the remainder of p on division by the generator: p == q * generator + rem. */
  ghost predicate IsRemainder(p: seq<bool>, rem: seq<bool>)
    requires |p| >= 32 && |rem| == 32
  {
    exists q: seq<bool> :: |q| == |p| - 32 && p == Xor(TimesGenerator(q), Zeros(|q|) + rem)
  }

  /** The quotient bits a register run produces. */
  function Quotient(r: seq<bool>, m: seq<bool>): (q: seq<bool>)
    requires |r| == 32
    ensures |q| == |m|
    decreases |m|
  {
    if m == [] then [] else
      var k := |m| - 1;
      Quotient(r, m[..k]) + [FeedAll(r, m[..k])[0] != m[k]]
  }

  lemma {:induction false} TimesGeneratorAt(q: seq<bool>, i: nat)
    requires q != [] && i < |q| + 32
    ensures var k := |q| - 1;
            var low := if i < k + 32 then TimesGenerator(q[..k])[i] else false;
            TimesGenerator(q)[i] == (low != (i >= k && q[k] && Generator()[i - k]))
  {
    var k := |q| - 1;
    var shifted := TimesGenerator(q[..k]) + [false];
    var top := Zeros(k) + (if q[k] then Generator() else Zeros(33));
    assert TimesGenerator(q) == Xor(shifted, top);
    assert TimesGenerator(q)[i] == (shifted[i] != top[i]);
    assert top[i] == (i >= k && q[k] && Generator()[i - k]);
  }

  lemma DividendAt(r: seq<bool>, m: seq<bool>, i: nat)
    requires |r| == 32 && i < |m| + 32
    ensures Dividend(r, m)[i] == ((i < |m| && m[i]) != (i < 32 && r[i]))
  {
  }

  lemma FeedAt(s: seq<bool>, bit: bool, i: nat)
    requires |s| == 32 && i < 32
    ensures Feed(s, bit)[i] == ((i < 31 && s[i + 1]) != ((s[0] != bit) && Generator()[i + 1]))
  {
  }

  lemma {:induction false} DivisionIdentity(r: seq<bool>, m: seq<bool>)
    requires |r| == 32
    ensures Dividend(r, m) == Xor(TimesGenerator(Quotient(r, m)), Zeros(|m|) + FeedAll(r, m))
    decreases |m|
  {
    if m == [] {
      assert Dividend(r, m) == r;
      assert Zeros(0) + r == r;
      XorZero(r);
    } else {
      var k := |m| - 1;
      DivisionIdentity(r, m[..k]);
      var s := FeedAll(r, m[..k]);
      DivisionStep(Dividend(r, m[..k]), Quotient(r, m[..k]), s, m[k], Dividend(r, m)) by {
        forall i | 0 <= i < k + 33
          ensures Dividend(r, m)[i] == ((i < k + 32 && Dividend(r, m[..k])[i]) != (i == k && m[k]))
        {
          DividendAt(r, m, i);
          if i < k + 32 {
            DividendAt(r, m[..k], i);
          }
        }
      }
    }
  }

  lemma PaddedAt(a: seq<bool>, r: seq<bool>, k: nat, i: nat)
    requires |a| == k + |r| && i < |a|
    ensures Xor(a, Zeros(k) + r)[i] == (a[i] != (i >= k && r[i - k]))
  {
  }

  /** One step of long division: appending a bit to the dividend appends the leading bit
      of the register to the quotient and clocks the register. */
  lemma {:induction false} DivisionStep(p: seq<bool>, q: seq<bool>, s: seq<bool>, bit: bool, p': seq<bool>)
    requires |s| == 32 && |p| == |q| + 32 && |p'| == |p| + 1
    requires p == Xor(TimesGenerator(q), Zeros(|q|) + s)
    requires forall i :: 0 <= i < |p'| ==> p'[i] == ((i < |p| && p[i]) != (i == |q| && bit))
    ensures p' == Xor(TimesGenerator(q + [s[0] != bit]), Zeros(|q| + 1) + Feed(s, bit))
  {
    var rhs := Xor(TimesGenerator(q + [s[0] != bit]), Zeros(|q| + 1) + Feed(s, bit));
    forall i | 0 <= i < |p'| ensures p'[i] == rhs[i] {
      DivisionStepAt(p, q, s, bit, i);
    }
  }

  lemma DivisionStepAt(p: seq<bool>, q: seq<bool>, s: seq<bool>, bit: bool, i: nat)
    requires |s| == 32 && |p| == |q| + 32 && i <= |p|
    requires p == Xor(TimesGenerator(q), Zeros(|q|) + s)
    ensures Xor(TimesGenerator(q + [s[0] != bit]), Zeros(|q| + 1) + Feed(s, bit))[i]
         == ((i < |p| && p[i]) != (i == |q| && bit))
  {
    var k := |q|;
    var q' := q + [s[0] != bit];
    assert q'[..k] == q;
    PaddedAt(TimesGenerator(q'), Feed(s, bit), k + 1, i);
    TimesGeneratorAt(q', i);
    if i < |p| {
      PaddedAt(TimesGenerator(q), s, k, i);
    }
    if i > k {
      FeedAt(s, bit, i - k - 1);
    }
  }

  /** The register is the remainder of the extended message modulo the generator. */
  lemma {:induction false} RegisterIsRemainder(r: seq<bool>, m: seq<bool>)
    requires |r| == 32
    ensures IsRemainder(Dividend(r, m), FeedAll(r, m))
  {
    DivisionIdentity(r, m);
    var q := Quotient(r, m);
    assert |q| == |Dividend(r, m)| - 32;
  }

  lemma {:induction false} QuotientUnique(q: seq<bool>, q': seq<bool>, rem: seq<bool>, rem': seq<bool>)
    requires |q| == |q'| && |rem| == |rem'| == 32
    requires Xor(TimesGenerator(q), Zeros(|q|) + rem) == Xor(TimesGenerator(q'), Zeros(|q'|) + rem')
    ensures q == q' && rem == rem'
  {
    var n := |q|;
    forall i | 0 <= i < n ensures TimesGenerator(q)[i] == TimesGenerator(q')[i] {
      assert Xor(TimesGenerator(q), Zeros(n) + rem)[i] == TimesGenerator(q)[i];
      assert Xor(TimesGenerator(q'), Zeros(n) + rem')[i] == TimesGenerator(q')[i];
    }
    LeadingCoefficients(q, q');
    forall i | 0 <= i < 32 ensures rem[i] == rem'[i] {
      assert Xor(TimesGenerator(q), Zeros(n) + rem)[n + i] == (TimesGenerator(q)[n + i] != rem[i]);
      assert Xor(TimesGenerator(q'), Zeros(n) + rem')[n + i] == (TimesGenerator(q')[n + i] != rem'[i]);
    }
  }

  lemma {:induction false} LeadingCoefficients(q: seq<bool>, q': seq<bool>)
    requires |q| == |q'|
    requires forall i :: 0 <= i < |q| ==> TimesGenerator(q)[i] == TimesGenerator(q')[i]
    ensures q == q'
    decreases |q|
  {
    if q != [] {
      var k := |q| - 1;
      forall i | 0 <= i < k ensures TimesGenerator(q[..k])[i] == TimesGenerator(q'[..k])[i] {
        TimesGeneratorAt(q, i);
        TimesGeneratorAt(q', i);
      }
      LeadingCoefficients(q[..k], q'[..k]);
      TimesGeneratorAt(q, k);
      TimesGeneratorAt(q', k);
    }
  }

  /** A dividend has only one remainder, so being the remainder fixes the register. */
  lemma {:induction false} RemainderUnique(p: seq<bool>, rem: seq<bool>, rem': seq<bool>)
    requires |p| >= 32 && |rem| == |rem'| == 32
    requires IsRemainder(p, rem) && IsRemainder(p, rem')
    ensures rem == rem'
  {
    var q: seq<bool> :| |q| == |p| - 32 && p == Xor(TimesGenerator(q), Zeros(|q|) + rem);
    var q': seq<bool> :| |q'| == |p| - 32 && p == Xor(TimesGenerator(q'), Zeros(|q'|) + rem');
    QuotientUnique(q, q', rem, rem');
  }
}
