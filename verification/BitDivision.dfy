/**
 Division with remainder over bits, one bit or one table entry at a time, for any word
 type with addition without carry.
 */
module BitDivision {
  /**
   Words with addition without carry, the multiple of the divisor that a division step
   adds, the shift towards the lowest bit, the split into lowest bit and rest, and the
   restriction to the `k` lowest bits.
   */
  datatype Words<!W> = Words(
    add: (W, W) -> W, zero: W, multiple: W -> W, half: W -> W, low: W -> W, high: W -> W,
    keep: (nat, W) -> W)
  {
    /** One division step on a remainder. */
    function Step(x: W): W {
      add(multiple(x), half(x))
    }

    // The laws, each for given words, so that proofs name the instances they use.

    ghost predicate Associative(x: W, y: W, z: W) {
      add(add(x, y), z) == add(x, add(y, z))
    }

    ghost predicate Commutative(x: W, y: W) {
      add(x, y) == add(y, x)
    }

    ghost predicate Neutral(x: W) {
      add(x, zero) == x && add(zero, x) == x
    }

    ghost predicate MultipleLinear(x: W, y: W) {
      multiple(add(x, y)) == add(multiple(x), multiple(y))
    }

    ghost predicate HalfLinear(x: W, y: W) {
      half(add(x, y)) == add(half(x), half(y))
    }

    ghost predicate Splits(x: W) {
      add(low(x), high(x)) == x
    }

    ghost predicate HighIsEven(x: W) {
      multiple(high(x)) == zero
    }

    ghost predicate HighShifts(x: W) {
      half(high(x)) == half(x)
    }

    ghost predicate KeepsNone(x: W) {
      keep(0, x) == zero
    }

    ghost predicate Keeps(k: nat, x: W)
      requires 0 < k
    {
      low(keep(k, x)) == low(x) && half(keep(k, x)) == keep(k - 1, half(x))
    }
  }

  ghost predicate Lawful<W(!new)>(g: Words<W>, width: nat) {
    && (forall x, y, z :: g.Associative(x, y, z))
    && (forall x, y :: g.Commutative(x, y))
    && (forall x :: g.Neutral(x))
    && (forall x, y :: g.MultipleLinear(x, y))
    && (forall x, y :: g.HalfLinear(x, y))
    && (forall x :: g.Splits(x))
    && (forall x :: g.HighIsEven(x))
    && (forall x :: g.HighShifts(x))
    && (forall x :: g.KeepsNone(x))
    && (forall k: nat, x :: 0 < k <= width ==> g.Keeps(k, x))
  }

  function Steps<W>(g: Words<W>, k: nat, x: W): W {
    if k == 0 then x else Steps(g, k - 1, g.Step(x))
  }

  function Eight<W>(f: W -> W, x: W): W {
    f(f(f(f(f(f(f(f(x))))))))
  }

  lemma OneOfSteps<W>(g: Words<W>, f: W -> W, k: nat, x: W) returns (y: W)
    requires k > 0 && g.Step(x) == f(x)
    ensures y == f(x) && Steps(g, k, x) == Steps(g, k - 1, y)
  {
    y := f(x);
  }

  lemma EightIsSteps<W(!new)>(g: Words<W>, f: W -> W, x: W)
    requires forall y :: g.Step(y) == f(y)
    ensures Steps(g, 8, x) == Eight(f, x)
  {
    var y := OneOfSteps(g, f, 8, x);
    y := OneOfSteps(g, f, 7, y);
    y := OneOfSteps(g, f, 6, y);
    y := OneOfSteps(g, f, 5, y);
    y := OneOfSteps(g, f, 4, y);
    y := OneOfSteps(g, f, 3, y);
    y := OneOfSteps(g, f, 2, y);
    y := OneOfSteps(g, f, 1, y);
  }

  function Halves<W>(g: Words<W>, k: nat, x: W): W {
    if k == 0 then x else Halves(g, k - 1, g.half(x))
  }

  /** Divides on with the `k` lowest bits of `b`, lowest first. */
  function Feed<W>(g: Words<W>, k: nat, c: W, b: W): W {
    if k == 0 then c else Feed(g, k - 1, g.Step(g.add(c, g.low(b))), g.half(b))
  }

  lemma Interchange<W(!new)>(g: Words<W>, width: nat, a: W, b: W, c: W, d: W)
    requires Lawful(g, width)
    ensures g.add(g.add(a, b), g.add(c, d)) == g.add(g.add(a, c), g.add(b, d))
  {
    assert g.Associative(a, b, g.add(c, d)) && g.Associative(b, c, d) && g.Commutative(b, c);
    assert g.Associative(c, b, d) && g.Associative(a, c, g.add(b, d));
  }

  lemma StepLinear<W(!new)>(g: Words<W>, width: nat, x: W, y: W)
    requires Lawful(g, width)
    ensures g.Step(g.add(x, y)) == g.add(g.Step(x), g.Step(y))
  {
    assert g.MultipleLinear(x, y) && g.HalfLinear(x, y);
    Interchange(g, width, g.multiple(x), g.multiple(y), g.half(x), g.half(y));
  }

  lemma OneStep<W(!new)>(g: Words<W>, width: nat, c: W, b: W)
    requires Lawful(g, width)
    ensures g.Step(g.add(c, b)) == g.add(g.Step(g.add(c, g.low(b))), g.half(b))
  {
    var l, h := g.low(b), g.high(b);
    assert g.Splits(b) && g.Associative(c, l, h) && g.HighIsEven(b) && g.HighShifts(b);
    assert g.Neutral(g.half(h));
    StepLinear(g, width, g.add(c, l), h);
  }

  /** Bits may be added to the remainder in advance; those not used up stay added, shifted. */
  lemma {:induction false} StepsFeed<W(!new)>(g: Words<W>, width: nat, k: nat, c: W, b: W)
    requires Lawful(g, width)
    ensures Steps(g, k, g.add(c, b)) == g.add(Feed(g, k, c, b), Halves(g, k, b))
    decreases k
  {
    if k > 0 {
      OneStep(g, width, c, b);
      StepsFeed(g, width, k - 1, g.Step(g.add(c, g.low(b))), g.half(b));
    }
  }

  /** The `k` lowest bits of two words are the same. */
  ghost predicate Agree<W>(g: Words<W>, k: nat, x: W, y: W) {
    k == 0 || (g.low(x) == g.low(y) && Agree(g, k - 1, g.half(x), g.half(y)))
  }

  lemma {:induction false} FeedAgree<W>(g: Words<W>, k: nat, c: W, x: W, y: W)
    requires Agree(g, k, x, y)
    ensures Feed(g, k, c, x) == Feed(g, k, c, y)
  {
    if k > 0 {
      FeedAgree(g, k - 1, g.Step(g.add(c, g.low(x))), g.half(x), g.half(y));
    }
  }

  lemma {:induction false} KeptBits<W(!new)>(g: Words<W>, width: nat, k: nat, x: W)
    requires Lawful(g, width) && k <= width
    ensures Agree(g, k, x, g.keep(k, x)) && Halves(g, k, g.keep(k, x)) == g.zero
    decreases k
  {
    if k == 0 {
      assert g.KeepsNone(x);
    } else {
      assert g.Keeps(k, x);
      KeptBits(g, width, k - 1, g.half(x));
    }
  }

  /**
   A table of `k`-step remainders replaces `k` bit steps: only the `k` lowest bits of the
   remainder decide what is added to the rest of it.
   */
  lemma TableStep<W(!new)>(g: Words<W>, k: nat, x: W)
    requires Lawful(g, k)
    ensures Steps(g, k, x) == g.add(Steps(g, k, g.keep(k, x)), Halves(g, k, x))
  {
    var y := g.keep(k, x);
    KeptBits(g, k, k, x);
    StepsFeed(g, k, k, g.zero, x);
    StepsFeed(g, k, k, g.zero, y);
    FeedAgree(g, k, g.zero, x, y);
    assert g.Neutral(x) && g.Neutral(y) && g.Neutral(Feed(g, k, g.zero, y));
  }

  /** Bits added to the remainder and then divided out are bits divided one by one. */
  lemma FeedIsSteps<W(!new)>(g: Words<W>, k: nat, c: W, b: W)
    requires Lawful(g, k) && g.keep(k, b) == b
    ensures Feed(g, k, c, b) == Steps(g, k, g.add(c, b))
  {
    KeptBits(g, k, k, b);
    StepsFeed(g, k, k, c, b);
    assert g.Neutral(Feed(g, k, c, b));
  }

  /** The remainder after a message of `k`-bit digits, bit by bit. */
  function Divide<W>(g: Words<W>, k: nat, c: W, message: seq<W>): W
    decreases |message|
  {
    if message == [] then c else Divide(g, k, Feed(g, k, c, message[0]), message[1..])
  }

  /** Dividing a message in two parts is dividing it in one go. */
  lemma {:induction false} DivideAppend<W>(g: Words<W>, k: nat, c: W, m: seq<W>, n: seq<W>)
    ensures Divide(g, k, c, m + n) == Divide(g, k, Divide(g, k, c, m), n)
    decreases |m|
  {
    if m == [] {
      assert m + n == n;
    } else {
      assert (m + n)[1..] == m[1..] + n;
      DivideAppend(g, k, Feed(g, k, c, m[0]), m[1..], n);
    }
  }

  /** What the table has to hold for a table step to be a division by `k` bits. */
  ghost predicate TableFor<W(!new)>(g: Words<W>, k: nat, table: W -> W) {
    forall x :: table(g.keep(k, x)) == Steps(g, k, g.keep(k, x))
  }

  /** One table step divides on with one digit, bit by bit. */
  lemma TableFeeds<W(!new)>(g: Words<W>, k: nat, table: W -> W, c: W, digit: W)
    requires Lawful(g, k) && TableFor(g, k, table) && g.keep(k, digit) == digit
    ensures var x := g.add(c, digit);
      g.add(table(g.keep(k, x)), Halves(g, k, x)) == Feed(g, k, c, digit)
  {
    TableStep(g, k, g.add(c, digit));
    FeedIsSteps(g, k, c, digit);
  }
}
