/** The bit-serial CRC register is the remainder of long division by the CRC polynomial, and what
    follows from that for errors. */
module CrcRegister {
  import opened CrcBits

  /** Schoolbook remainder: cancel the leading coefficient until 32 are left. */
  function Remainder(d: Poly): (r: Poly)
    requires |d| >= 32
    ensures |r| == 32
    decreases |d|
  {
    if |d| == 32 then d
    else if d[0] then Remainder(AddFront(d, DIVISOR)[1..])
    else Remainder(d[1..])
  }

  /** Message times x^32, with a register added to its 32 leading coefficients. */
  function Dividend(r: Poly, m: Poly): (d: Poly)
    requires |r| == 32
    ensures |d| == |m| + 32
  {
    AddFront(m + Zeros(32), r)
  }

  function Step(r: Poly, b: bool): (next: Poly)
    requires |r| == 32
    ensures |next| == 32
  {
    var lead := r[0] != b;
    seq(32, i requires 0 <= i < 32 => (i < 31 && r[i + 1]) != (lead && LOWER[i]))
  }

  function Run(r: Poly, bits: Poly): (next: Poly)
    requires |r| == 32
    ensures |next| == 32
    decreases |bits|
  {
    if bits == [] then r else Run(Step(r, bits[0]), bits[1..])
  }

  /** One division step on the dividend is one step of the register. */
  lemma DivisionStep(r: Poly, m: Poly)
    requires |r| == 32 && m != []
    ensures var d := Dividend(r, m);
            (if d[0] then AddFront(d, DIVISOR)[1..] else d[1..]) == Dividend(Step(r, m[0]), m[1..])
  {
    var d := Dividend(r, m);
    assert m[1..] + Zeros(32) == (m + Zeros(32))[1..];
  }

  lemma {:induction false} RunIsRemainder(r: Poly, m: Poly)
    requires |r| == 32
    ensures Run(r, m) == Remainder(Dividend(r, m))
    decreases |m|
  {
    if m == [] {
      assert Dividend(r, m) == r;
    } else {
      DivisionStep(r, m);
      RunIsRemainder(Step(r, m[0]), m[1..]);
    }
  }

  lemma {:induction false} RunConcat(r: Poly, a: Poly, b: Poly)
    requires |r| == 32
    ensures Run(r, a + b) == Run(Run(r, a), b)
    decreases |a|
  {
    if a == [] {
      assert a + b == b;
    } else {
      assert (a + b)[1..] == a[1..] + b;
      RunConcat(Step(r, a[0]), a[1..], b);
    }
  }

  lemma StepInjective(r: Poly, q: Poly, b: bool)
    requires |r| == |q| == 32 && Step(r, b) == Step(q, b)
    ensures r == q
  {
    LowerEndsInOne();
    assert Step(r, b)[31] == Step(q, b)[31];
    forall i | 1 <= i < 32
      ensures r[i] == q[i]
    {
      assert Step(r, b)[i - 1] == Step(q, b)[i - 1];
    }
  }

  lemma {:induction false} RunInjective(r: Poly, q: Poly, bits: Poly)
    requires |r| == |q| == 32 && Run(r, bits) == Run(q, bits)
    ensures r == q
    decreases |bits|
  {
    if bits != [] {
      RunInjective(Step(r, bits[0]), Step(q, bits[0]), bits[1..]);
      StepInjective(r, q, bits[0]);
    }
  }

  /** The register is linear: adding two runs is the run of the sums. */
  lemma {:induction false} RunLinear(r: Poly, q: Poly, a: Poly, b: Poly)
    requires |r| == |q| == 32 && |a| == |b|
    ensures AddFront(Run(r, a), Run(q, b)) == Run(AddFront(r, q), AddFront(a, b))
    decreases |a|
  {
    if a != [] {
      assert AddFront(Step(r, a[0]), Step(q, b[0])) == Step(AddFront(r, q), a[0] != b[0]);
      assert AddFront(a, b)[1..] == AddFront(a[1..], b[1..]);
      RunLinear(Step(r, a[0]), Step(q, b[0]), a[1..], b[1..]);
    }
  }

  /** Up to 32 message bits may be added to the register beforehand. */
  lemma {:induction false} RunPreloaded(r: Poly, w: Poly)
    requires |r| == 32 && |w| <= 32
    ensures Run(r, w) == Run(AddFront(r, w), Zeros(|w|))
    decreases |w|
  {
    if w == [] {
      assert AddFront(r, w) == r;
    } else {
      assert AddFront(Step(r, w[0]), w[1..]) == Step(AddFront(r, w), false);
      assert Zeros(|w|)[1..] == Zeros(|w| - 1);
      RunPreloaded(Step(r, w[0]), w[1..]);
    }
  }

  lemma AddFrontInjective(r: Poly, a: Poly, b: Poly)
    requires |a| == |b| <= |r| && AddFront(r, a) == AddFront(r, b)
    ensures a == b
  {
    forall i | 0 <= i < |a|
      ensures a[i] == b[i]
    {
      assert AddFront(r, a)[i] == AddFront(r, b)[i];
    }
  }

  lemma ShortRunInjective(r: Poly, a: Poly, b: Poly)
    requires |r| == 32 && |a| == |b| <= 32 && Run(r, a) == Run(r, b)
    ensures a == b
  {
    RunPreloaded(r, a);
    RunPreloaded(r, b);
    RunInjective(AddFront(r, a), AddFront(r, b), Zeros(|a|));
    AddFrontInjective(r, a, b);
  }

  /** Two bit strings that differ only inside 32 consecutive bits leave different
      register values, whatever precedes and follows. */
  lemma BurstOfBits(r: Poly, pre: Poly, a: Poly, b: Poly, post: Poly)
    requires |r| == 32 && |a| == |b| <= 32 && a != b
    ensures Run(r, pre + a + post) != Run(r, pre + b + post)
  {
    var s := Run(r, pre);
    RunConcat(r, pre + a, post);
    RunConcat(r, pre + b, post);
    RunConcat(r, pre, a);
    RunConcat(r, pre, b);
    if Run(Run(s, a), post) == Run(Run(s, b), post) {
      RunInjective(Run(s, a), Run(s, b), post);
      ShortRunInjective(s, a, b);
    }
  }

  lemma ComplementInjective(p: Poly, q: Poly)
    requires |p| == |q| == 32 && AddFront(p, Ones(32)) == AddFront(q, Ones(32))
    ensures p == q
  {
    forall i | 0 <= i < 32
      ensures p[i] == q[i]
    {
      assert AddFront(p, Ones(32))[i] == AddFront(q, Ones(32))[i];
    }
  }

  lemma SumIsZero(p: Poly, q: Poly)
    requires |p| == |q|
    ensures AddFront(p, q) == Zeros(|p|) <==> p == q
  {
    if AddFront(p, q) == Zeros(|p|) {
      forall i | 0 <= i < |p|
        ensures p[i] == q[i]
      {
        assert AddFront(p, q)[i] == Zeros(|p|)[i];
      }
    }
  }
}
