/** Polynomials over the two-element field, written as bit strings with the highest power first,
    and their division by a fixed generator of degree sixteen.

    A generator is given by its sixteen low coefficients; the leading one is implied. */
module Gf2 {

  type bits = seq<bool>

  /** A remainder, a register, or the low part of a generator. */
  type word16 = w: bits | |w| == 16 witness Zero(16)

  function Zero(n: nat): (z: bits)
    ensures |z| == n && forall i :: 0 <= i < n ==> !z[i]
  {
    seq(n, _ => false)
  }

  predicate IsZero(a: bits) {
    forall i :: 0 <= i < |a| ==> !a[i]
  }

  /** Sum, which is also difference. */
  function Xor(a: bits, b: bits): (c: bits)
    requires |a| == |b|
    ensures |c| == |a| && forall i :: 0 <= i < |a| ==> c[i] == (a[i] != b[i])
  {
    seq(|a|, i requires 0 <= i < |a| => a[i] != b[i])
  }

  // ---------------------------------------------------------------- the register

  function Shift(w: word16): word16 {
    w[1..] + [false]
  }

  /** Multiply the remainder by x and reduce it. */
  function Step(g: word16, w: word16): word16 {
    if w[0] then Xor(Shift(w), g) else Shift(w)
  }

  function Steps(g: word16, w: word16, n: nat): word16
    decreases n
  {
    if n == 0 then w else Steps(g, Step(g, w), n - 1)
  }

  function ToggleTop(w: word16, b: bool): word16 {
    w[0 := w[0] != b]
  }

  /** The bit-serial register: the incoming bit meets the outgoing one. */
  function Feed(g: word16, w: word16, message: bits): word16
    decreases message
  {
    if message == [] then w else Feed(g, Step(g, ToggleTop(w, message[0])), message[1..])
  }

  lemma StepLinear(g: word16, a: word16, b: word16)
    ensures Step(g, Xor(a, b)) == Xor(Step(g, a), Step(g, b))
  {
  }

  lemma {:induction false} StepsLinear(g: word16, a: word16, b: word16, n: nat)
    ensures Steps(g, Xor(a, b), n) == Xor(Steps(g, a, n), Steps(g, b, n))
    decreases n
  {
    if n != 0 {
      StepLinear(g, a, b);
      StepsLinear(g, Step(g, a), Step(g, b), n - 1);
    }
  }

  lemma {:induction false} StepsAdd(g: word16, w: word16, m: nat, n: nat)
    ensures Steps(g, w, m + n) == Steps(g, Steps(g, w, m), n)
    decreases m
  {
    if m != 0 {
      StepsAdd(g, Step(g, w), m - 1, n);
    }
  }

  lemma {:induction false} FeedConcat(g: word16, w: word16, a: bits, b: bits)
    ensures Feed(g, w, a + b) == Feed(g, Feed(g, w, a), b)
    decreases a
  {
    if a == [] {
      assert a + b == b;
    } else {
      assert (a + b)[1..] == a[1..] + b;
      FeedConcat(g, Step(g, ToggleTop(w, a[0])), a[1..], b);
    }
  }

  /** Superposition: the register is linear in its start value and in its message together. */
  lemma {:induction false} FeedLinear(g: word16, v: word16, w: word16, a: bits, b: bits)
    requires |a| == |b|
    ensures Feed(g, Xor(v, w), Xor(a, b)) == Xor(Feed(g, v, a), Feed(g, w, b))
    decreases a
  {
    if a != [] {
      var v', w' := ToggleTop(v, a[0]), ToggleTop(w, b[0]);
      assert ToggleTop(Xor(v, w), Xor(a, b)[0]) == Xor(v', w');
      StepLinear(g, v', w');
      assert Xor(a, b)[1..] == Xor(a[1..], b[1..]);
      FeedLinear(g, Step(g, v'), Step(g, w'), a[1..], b[1..]);
    }
  }

  /** Feeding zeros only multiplies by x. */
  lemma {:induction false} FeedZeros(g: word16, w: word16, n: nat)
    ensures Feed(g, w, Zero(n)) == Steps(g, w, n)
    decreases n
  {
    if n != 0 {
      assert ToggleTop(w, false) == w;
      assert Zero(n)[1..] == Zero(n - 1);
      FeedZeros(g, Step(g, w), n - 1);
    }
  }

  /** While the bits that fall out are zeros, a step is a plain shift. */
  lemma {:induction false} StepsOfLow(g: word16, w: word16, n: nat)
    requires n <= 16 && IsZero(w[..n])
    ensures Steps(g, w, n) == w[n..] + Zero(n)
    decreases n
  {
    if n != 0 {
      assert !w[..n][0];
      assert forall i :: 0 <= i < n - 1 ==> Step(g, w)[i] == w[..n][i + 1];
      StepsOfLow(g, Step(g, w), n - 1);
      assert Step(g, w)[n - 1..] + Zero(n - 1) == w[n..] + Zero(n);
    }
  }

  /** Feeding at most sixteen bits is mixing them into the top of the register first. */
  lemma {:induction false} FeedIsMix(g: word16, w: word16, m: bits)
    requires |m| <= 16
    ensures Feed(g, w, m) == Steps(g, Xor(w, m + Zero(16 - |m|)), |m|)
    decreases m
  {
    if m == [] {
      assert Xor(w, m + Zero(16)) == w;
    } else {
      var top, rest := ToggleTop(w, m[0]), [false] + m[1..] + Zero(16 - |m|);
      assert Xor(w, m + Zero(16 - |m|)) == Xor(top, rest);
      StepLinear(g, top, rest);
      assert Step(g, rest) == m[1..] + Zero(17 - |m|);
      FeedIsMix(g, Step(g, top), m[1..]);
    }
  }

  // ---------------------------------------------------------------- long division

  /** Cancel the leading term of the dividend and drop it. */
  function Cancel(g: word16, p: bits): (next: bits)
    requires |p| > 16
    ensures |next| == |p| - 1
  {
    if p[0] then Xor(p[1..17], g) + p[17..] else p[1..]
  }

  /** Schoolbook modulo-2 division by the generator. */
  function Remainder(g: word16, p: bits): word16
    requires |p| >= 16
    decreases |p|
  {
    if |p| == 16 then p else Remainder(g, Cancel(g, p))
  }

  /** The quotient of the same division. */
  function Quotient(g: word16, p: bits): (q: bits)
    requires |p| >= 16
    ensures |q| == |p| - 16
    decreases |p|
  {
    if |p| == 16 then [] else [p[0]] + Quotient(g, Cancel(g, p))
  }

  /** The product of `q` and the full generator, leading term included. */
  function TimesGenerator(g: word16, q: bits): (p: bits)
    ensures |p| == |q| + 16
  {
    if q == [] then Zero(16)
    else
      var rest := [false] + TimesGenerator(g, q[1..]);
      if q[0] then Xor(rest, [true] + g + Zero(|q| - 1)) else rest
  }

  /** quotient * generator + remainder. */
  function Recompose(g: word16, q: bits, r: word16): (p: bits)
    ensures |p| == |q| + 16
  {
    Xor(TimesGenerator(g, q), Zero(|q|) + r)
  }

  lemma RecomposeCons(g: word16, p: bits, q: bits, r: word16)
    requires |p| == |q| + 17 && Cancel(g, p) == Recompose(g, q, r)
    ensures p == Recompose(g, [p[0]] + q, r)
  {
  }

  /** Division is division: the dividend is quotient * generator + remainder. */
  lemma {:induction false} DivisionIdentity(g: word16, p: bits)
    requires |p| >= 16
    ensures p == Recompose(g, Quotient(g, p), Remainder(g, p))
    decreases |p|
  {
    if |p| == 16 {
      assert Xor(Zero(16), Zero(0) + p) == p;
    } else {
      DivisionIdentity(g, Cancel(g, p));
      RecomposeCons(g, p, Quotient(g, Cancel(g, p)), Remainder(g, p));
    }
  }

  /** A multiple of the generator leaves no remainder. */
  lemma {:induction false} MultiplesHaveNoRemainder(g: word16, q: bits)
    ensures IsZero(Remainder(g, TimesGenerator(g, q)))
    decreases |q|
  {
    if q != [] {
      var p, rest := TimesGenerator(g, q), TimesGenerator(g, q[1..]);
      MultiplesHaveNoRemainder(g, q[1..]);
      assert Cancel(g, p) == rest;
    }
  }

  // ---------------------------------------------------------------- the register divides

  /** Long division brings the dividend in at the bottom of the register. */
  function Divide(g: word16, w: word16, m: bits): word16
    decreases m
  {
    if m == [] then w else Divide(g, Xor(Step(g, w), Zero(15) + [m[0]]), m[1..])
  }

  lemma {:induction false} DivideIsRemainder(g: word16, w: word16, m: bits)
    ensures Divide(g, w, m) == Remainder(g, w + m)
    decreases m
  {
    if m == [] {
      assert w + m == w;
    } else {
      var p, next := w + m, Xor(Step(g, w), Zero(15) + [m[0]]);
      DivideIsRemainder(g, next, m[1..]);
      assert next + m[1..] == Cancel(g, p);
    }
  }

  /** A bit brought in at the bottom reaches the top after fifteen steps. */
  lemma BottomReachesTop(g: word16, b: bool)
    ensures Steps(g, Zero(15) + [b], 16) == Step(g, [b] + Zero(15))
  {
    var low := Zero(15) + [b];
    StepsOfLow(g, low, 15);
    assert low[15..] + Zero(15) == [b] + Zero(15);
    StepsAdd(g, low, 15, 1);
  }

  lemma StayAhead(g: word16, w: word16, b: bool)
    ensures Step(g, ToggleTop(Steps(g, w, 16), b)) == Steps(g, Xor(Step(g, w), Zero(15) + [b]), 16)
  {
    var up := Steps(g, w, 16);
    assert Xor(up, [b] + Zero(15)) == ToggleTop(up, b);
    StepLinear(g, up, [b] + Zero(15));
    BottomReachesTop(g, b);
    StepsAdd(g, w, 16, 1);
    StepsLinear(g, Step(g, w), Zero(15) + [b], 16);
  }

  /** The register that meets its message at the top is sixteen multiplications ahead of the one
      that takes it in at the bottom. */
  lemma {:induction false} FeedIsDivideAhead(g: word16, w: word16, m: bits)
    ensures Feed(g, Steps(g, w, 16), m) == Steps(g, Divide(g, w, m), 16)
    decreases m
  {
    if m != [] {
      StayAhead(g, w, m[0]);
      FeedIsDivideAhead(g, Xor(Step(g, w), Zero(15) + [m[0]]), m[1..]);
    }
  }

  lemma {:induction false} DivideZeros(g: word16, w: word16, n: nat)
    ensures Divide(g, w, Zero(n)) == Steps(g, w, n)
    decreases n
  {
    if n != 0 {
      assert Xor(Step(g, w), Zero(15) + [false]) == Step(g, w);
      assert Zero(n)[1..] == Zero(n - 1);
      DivideZeros(g, Step(g, w), n - 1);
    }
  }

  lemma {:induction false} DivideConcat(g: word16, w: word16, a: bits, b: bits)
    ensures Divide(g, w, a + b) == Divide(g, Divide(g, w, a), b)
    decreases a
  {
    if a == [] {
      assert a + b == b;
    } else {
      assert (a + b)[1..] == a[1..] + b;
      DivideConcat(g, Xor(Step(g, w), Zero(15) + [a[0]]), a[1..], b);
    }
  }

  lemma {:induction false} LeadingZeros(g: word16, n: nat, p: bits)
    requires |p| >= 16
    ensures Remainder(g, Zero(n) + p) == Remainder(g, p)
    decreases n
  {
    if n == 0 {
      assert Zero(0) + p == p;
    } else {
      assert Cancel(g, Zero(n) + p) == Zero(n - 1) + p;
      LeadingZeros(g, n - 1, p);
    }
  }

  /** A register cleared at the start holds the remainder of message * x^16. */
  lemma FeedIsRemainder(g: word16, m: bits)
    ensures Feed(g, Zero(16), m) == Remainder(g, m + Zero(16))
  {
    StepsOfLow(g, Zero(16), 16);
    assert Steps(g, Zero(16), 16) == Zero(16);
    FeedIsDivideAhead(g, Zero(16), m);
    DivideZeros(g, Divide(g, Zero(16), m), 16);
    DivideConcat(g, Zero(16), m, Zero(16));
    DivideIsRemainder(g, Zero(16), m + Zero(16));
    LeadingZeros(g, 16, m + Zero(16));
  }

  /** Superposition of long divisions of equal length. */
  lemma {:induction false} DivideLinear(g: word16, v: word16, w: word16, a: bits, b: bits)
    requires |a| == |b|
    ensures Divide(g, Xor(v, w), Xor(a, b)) == Xor(Divide(g, v, a), Divide(g, w, b))
    decreases a
  {
    if a != [] {
      var v', w' := Xor(Step(g, v), Zero(15) + [a[0]]), Xor(Step(g, w), Zero(15) + [b[0]]);
      StepLinear(g, v, w);
      assert Xor(Step(g, Xor(v, w)), Zero(15) + [Xor(a, b)[0]]) == Xor(v', w');
      assert Xor(a, b)[1..] == Xor(a[1..], b[1..]);
      DivideLinear(g, v', w', a[1..], b[1..]);
    }
  }

  /** With a start value, it is the remainder of message * x^16 with the start value mixed into its
      first sixteen bits, for messages of any length. */
  lemma FeedIsStartedRemainder(g: word16, w: word16, p: bits)
    ensures Feed(g, w, p) == Remainder(g, Xor(p + Zero(16), w + Zero(|p|)))
  {
    var padded, start := p + Zero(16), w + Zero(|p|);
    var head, tail := padded[..16], padded[16..];
    assert padded == head + tail && Xor(padded, start) == Xor(head, w) + Xor(tail, Zero(|p|));
    DivideIsRemainder(g, Xor(head, w), Xor(tail, Zero(|p|)));
    DivideLinear(g, head, w, tail, Zero(|p|));
    DivideIsRemainder(g, head, tail);
    FeedIsRemainder(g, p);
    DivideZeros(g, w, |p|);
    FeedZeros(g, w, |p|);
    FeedLinear(g, Zero(16), w, p, Zero(|p|));
    assert Xor(Zero(16), w) == w && Xor(p, Zero(|p|)) == p;
  }

  // ---------------------------------------------------------------- what the register can tell

  /** With an odd generator no information is lost in a step. */
  lemma StepKeepsNonZero(g: word16, w: word16)
    requires g[15] && !IsZero(w)
    ensures !IsZero(Step(g, w))
  {
    if w[0] {
      assert Step(g, w)[15];
    } else {
      var i :| 0 <= i < 16 && w[i];
      assert Step(g, w)[i - 1];
    }
  }

  lemma {:induction false} StepsKeepNonZero(g: word16, w: word16, n: nat)
    requires g[15]
    ensures IsZero(Steps(g, w, n)) <==> IsZero(w)
    decreases n
  {
    if n != 0 {
      StepsKeepNonZero(g, Step(g, w), n - 1);
      if IsZero(w) {
        assert Step(g, w) == w;
      } else {
        StepKeepsNonZero(g, w);
      }
    }
  }

  /** A cleared register is clear again after exactly the multiples of the generator. */
  lemma ClearsOnMultiples(g: word16, e: bits)
    requires g[15] && |e| >= 16
    ensures IsZero(Feed(g, Zero(16), e)) <==> exists q :: |q| == |e| - 16 && e == TimesGenerator(g, q)
  {
    StepsOfLow(g, Zero(16), 16);
    assert Steps(g, Zero(16), 16) == Zero(16);
    FeedIsDivideAhead(g, Zero(16), e);
    StepsKeepNonZero(g, Divide(g, Zero(16), e), 16);
    DivideIsRemainder(g, Zero(16), e);
    LeadingZeros(g, 16, e);
    if IsZero(Remainder(g, e)) {
      DivisionIdentity(g, e);
      assert e == TimesGenerator(g, Quotient(g, e));
    }
    forall q | e == TimesGenerator(g, q)
      ensures IsZero(Remainder(g, e))
    {
      MultiplesHaveNoRemainder(g, q);
    }
  }

  /** Feeding a register its own content clears it, and nothing else of that length does. */
  lemma OwnRemainderClears(g: word16, w: word16, m: bits, c: word16)
    requires g[15]
    ensures IsZero(Feed(g, w, m + c)) <==> c == Feed(g, w, m)
  {
    var r := Feed(g, w, m);
    FeedConcat(g, w, m, c);
    FeedIsMix(g, r, c);
    var x := Xor(r, c + Zero(0));
    StepsKeepNonZero(g, x, 16);
    assert forall i :: 0 <= i < 16 ==> x[i] == (r[i] != c[i]);
    if IsZero(x) {
      assert r == c;
    }
  }

  /** Of two messages of equal length, one of which clears the register, the other does so exactly
      when their difference clears a cleared register. */
  lemma DifferenceClears(g: word16, w: word16, a: bits, b: bits)
    requires |a| == |b| && IsZero(Feed(g, w, a))
    ensures IsZero(Feed(g, w, b)) <==> IsZero(Feed(g, Zero(16), Xor(a, b)))
  {
    assert Xor(w, Zero(16)) == w;
    assert Xor(a, Xor(a, b)) == b;
    FeedLinear(g, w, Zero(16), a, Xor(a, b));
    assert Xor(Feed(g, w, a), Feed(g, Zero(16), Xor(a, b))) == Feed(g, Zero(16), Xor(a, b));
  }

  /** A nonzero pattern that spans at most sixteen positions never clears the register. */
  lemma BurstDoesNotClear(g: word16, e: bits, start: nat)
    requires g[15] && start + 16 <= |e| && !IsZero(e)
    requires forall i :: 0 <= i < |e| && e[i] ==> start <= i < start + 16
    ensures !IsZero(Feed(g, Zero(16), e))
  {
    var burst, after := e[start..start + 16], |e| - start - 16;
    assert e == Zero(start) + (burst + Zero(after));
    FeedConcat(g, Zero(16), Zero(start), burst + Zero(after));
    FeedZeros(g, Zero(16), start);
    StepsKeepNonZero(g, Zero(16), start);
    assert Feed(g, Zero(16), Zero(start)) == Zero(16);
    FeedConcat(g, Zero(16), burst, Zero(after));
    FeedIsMix(g, Zero(16), burst);
    assert Xor(Zero(16), burst + Zero(0)) == burst;
    var i :| 0 <= i < |e| && e[i];
    assert burst[i - start];
    StepsKeepNonZero(g, burst, 16);
    FeedZeros(g, Steps(g, burst, 16), after);
    StepsKeepNonZero(g, Steps(g, burst, 16), after);
  }

  /** Whether an odd number of bits are set. */
  predicate Odd(a: bits) {
    if a == [] then false else a[0] != Odd(a[1..])
  }

  lemma {:induction false} OddOfXor(a: bits, b: bits)
    requires |a| == |b|
    ensures Odd(Xor(a, b)) == (Odd(a) != Odd(b))
  {
    if a != [] {
      assert Xor(a, b)[1..] == Xor(a[1..], b[1..]);
      OddOfXor(a[1..], b[1..]);
    }
  }

  lemma {:induction false} OddOfConcat(a: bits, b: bits)
    ensures Odd(a + b) == (Odd(a) != Odd(b))
  {
    if a == [] {
      assert a + b == b;
    } else {
      assert (a + b)[1..] == a[1..] + b;
      OddOfConcat(a[1..], b);
    }
  }

  lemma OddOfFour(a: bool, b: bool, c: bool, d: bool)
    ensures Odd([a, b, c, d]) == (a != (b != (c != d)))
  {
    assert [a, b, c, d][1..] == [b, c, d] && [b, c, d][1..] == [c, d] && [c, d][1..] == [d];
    assert [d][1..] == [];
    assert Odd([d]) == d;
    assert Odd([c, d]) == (c != d);
    assert Odd([b, c, d]) == (b != (c != d));
  }

  lemma OddOfStep(g: word16, w: word16)
    requires Odd(g)
    ensures Odd(Step(g, w)) == Odd(w)
  {
    OddOfConcat(w[1..], [false]);
    OddOfXor(Shift(w), g);
  }

  /** A generator with an even number of terms keeps the parity of everything fed to it. */
  lemma {:induction false} OddOfFeed(g: word16, w: word16, m: bits)
    requires Odd(g)
    ensures Odd(Feed(g, w, m)) == (Odd(w) != Odd(m))
    decreases m
  {
    if m != [] {
      var top := ToggleTop(w, m[0]);
      assert top[1..] == w[1..];
      OddOfStep(g, top);
      OddOfFeed(g, Step(g, top), m[1..]);
    }
  }

  lemma {:induction false} OddIsNonZero(a: bits)
    requires Odd(a)
    ensures !IsZero(a)
  {
    if !a[0] {
      OddIsNonZero(a[1..]);
      var i :| 0 <= i < |a| - 1 && a[1..][i];
      assert a[i + 1];
    }
  }
}
