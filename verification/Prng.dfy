/**
 The two mask-key generators and the full-period claim of the source: from any seed the 64-bit
 state of either generator visits all 2^64 values before it repeats.
 */
module Prng {
  import opened Arith
  import opened Bits
  import opened Seqs
  import opened Shifts

  const PCG_MULTIPLIER: nat := 6364136223846793005
  const PCG_INCREMENT: nat := 1442695040888963407
  const SPLIT_MIX_GAMMA: nat := 0x9E3779B97F4A7C15

  type u64 = x: nat | x < M64

  // ----- The generators -----

  function PcgStep(x: u64): (y: u64) { (x * PCG_MULTIPLIER + PCG_INCREMENT) % M64 }

  function SplitMixStep(x: u64): (y: u64) { (x + SPLIT_MIX_GAMMA) % M64 }

  /** The 32 bits of a state that are rotated: bits 27 to 58 of the state mixed with itself shifted by 18. */
  function Xorshifted(x: u64): (y: nat)
    ensures y < M32
  {
    High(Xor(x, High(x, 18)), 27) % M32
  }

  /** The key of a PCG state: those bits, rotated right by the number in the top five bits. */
  function PcgOutput(x: u64): nat { RotateRight(Xorshifted(x), High(x, 59) % 32) }

  const MIX_1: nat := 0xBF58476D1CE4E5B9
  const MIX_2: nat := 0x94D049BB133111EB

  /** The finalizer of SplitMix64 on 64-bit words. */
  function Mix(x: u64): u64
  {
    var a := (Xor(x, High(x, 30)) * MIX_1) % M64;
    var b := (Xor(a, High(a, 27)) * MIX_2) % M64;
    MixBound(b);
    Xor(b, High(b, 31))
  }

  lemma MixBound(b: u64)
    ensures Xor(b, High(b, 31)) < M64
  {
    Pow2Known();
    HighBound(b, 31);
    XorBound(b, High(b, 31), 64);
  }

  /** The key of a SplitMix64 state: the upper half of the mixed word. */
  function SplitMixOutput(x: u64): nat { Mix(x) / M32 }

  class PcgXshRr6432 {
    var state: u64

    constructor (seed: u64)
      ensures state == seed
    {
      state := seed;
    }

    /** The state advances and the key is a rotation of bits of the state before, which loses none of them. */
    method Next() returns (key: nat)
      modifies this
      ensures state == PcgStep(old(state))
      ensures key < M32 && key == RotateRight(Xorshifted(old(state)), High(old(state), 59) % 32)
    {
      hide Or, Shr, Shl32, RotateRight, Xor, High;
      var oldState := state;
      state := (oldState * PCG_MULTIPLIER + PCG_INCREMENT) % M64;
      ShrIsDivision(oldState, 18);
      XorComm(Shr(oldState, 18), oldState);
      ShrIsDivision(Xor(Shr(oldState, 18), oldState), 27);
      var xorshifted := Shr(Xor(Shr(oldState, 18), oldState), 27) % M32;
      assert xorshifted == Xorshifted(oldState);
      ShrIsDivision(oldState, 59);
      var rot := Shr(oldState, 59) % 32;
      OrRotates(xorshifted, rot);
      RotateBound(xorshifted, rot);
      key := Or(Shr(xorshifted, rot), Shl32(xorshifted, (32 - rot) % 32));
    }
  }

  class SplitMix64 {
    var state: u64

    constructor (seed: u64)
      ensures state == seed
    {
      state := seed;
    }

    /** The state advances and the key is the upper half of a word that determines it. */
    method Next() returns (key: nat)
      modifies this
      ensures state == SplitMixStep(old(state))
      ensures key < M32 && key == Mix(state) / M32
    {
      hide Xor, High, Shr;
      state := (state + SPLIT_MIX_GAMMA) % M64;
      ShrIsDivision(state, 30);
      var z: nat := (Xor(state, Shr(state, 30)) * MIX_1) % M64;
      ShrIsDivision(z, 27);
      z := (Xor(z, Shr(z, 27)) * MIX_2) % M64;
      ShrIsDivision(z, 31);
      MixBound(z);
      z := Xor(z, Shr(z, 31));
      UpperHalf(z);
      key := Shr(z, 32) % M32;
    }
  }

  lemma UpperHalf(z: u64)
    ensures Shr(z, 32) == z / M32 < M32
  {
    Pow2Known();
    ShrIsDivision(z, 32);
  }

  // ----- What the keys keep of the states -----

  /** Products with an odd number are different for different words. */
  lemma OddProductInjective(x: u64, y: u64, odd: nat)
    requires odd % 2 == 1 && (x * odd) % M64 == (y * odd) % M64
    ensures x == y
  {
    if x < y {
      DistinctCore(0, x, y, odd);
    } else if y < x {
      DistinctCore(0, y, x, odd);
    }
  }

  lemma XorHighInjective(x: nat, y: nat, k: nat)
    requires k > 0 && Xor(x, High(x, k)) == Xor(y, High(y, k))
    ensures x == y
  {
    hide Xor, High, Shr;
    ShrIsDivision(x, k);
    ShrIsDivision(y, k);
    XorShiftInjective(x, y, k);
  }

  /** The finalizer is one-to-one, so over a period every 64-bit word is mixed out once and every key comes up
      equally often. */
  lemma MixInjective(x: u64, y: u64)
    requires Mix(x) == Mix(y)
    ensures x == y
  {
    hide Xor, High;
    var a, b := (Xor(x, High(x, 30)) * MIX_1) % M64, (Xor(y, High(y, 30)) * MIX_1) % M64;
    var c, d := (Xor(a, High(a, 27)) * MIX_2) % M64, (Xor(b, High(b, 27)) * MIX_2) % M64;
    XorHighInjective(c, d, 31);
    WordBound(a, 27);
    WordBound(b, 27);
    OddProductInjective(Xor(a, High(a, 27)), Xor(b, High(b, 27)), MIX_2);
    XorHighInjective(a, b, 27);
    WordBound(x, 30);
    WordBound(y, 30);
    OddProductInjective(Xor(x, High(x, 30)), Xor(y, High(y, 30)), MIX_1);
    XorHighInjective(x, y, 30);
  }

  lemma WordBound(x: u64, k: nat)
    ensures Xor(x, High(x, k)) < M64
  {
    Pow2Known();
    HighBound(x, k);
    XorBound(x, High(x, k), 64);
  }

  /** Every 64-bit word is the mix of exactly one state, so each key is the upper half for 2^32 of them. */
  lemma MixOnto(y: u64)
    ensures exists x: u64 :: Mix(x) == y && forall x': u64 :: Mix(x') == y ==> x' == x
  {
    hide Mix;
    var words: seq<nat> := seq(M64, (i: nat) => if i < M64 then Mix(i) as nat else 0);
    forall i, j | 0 <= i < j < |words| ensures words[i] != words[j] {
      if Mix(i) == Mix(j) {
        MixInjective(i, j);
      }
    }
    Pigeonhole(words, y);
    var x :| 0 <= x < M64 && words[x] == y;
    forall x': u64 | Mix(x') == y ensures x' == x {
      MixInjective(x', x);
    }
  }

  /** A PCG state is determined by its key, its top five bits and its low 27 bits: for fixed such bits the output
      is one-to-one, so over a period every key comes up equally often. */
  lemma PcgOutputInjective(x: u64, y: u64)
    requires PcgOutput(x) == PcgOutput(y) && High(x, 59) == High(y, 59) && Low(x, 27) == Low(y, 27)
    ensures x == y
  {
    hide Xor, High, Low, Up, RotateRight;
    RotateInjective(Xorshifted(x), Xorshifted(y), High(x, 59) % 32);
    TopAndMiddle(x);
    TopAndMiddle(y);
    XorHighInjective(High(x, 27), High(y, 27), 18);
    LowAndHigh(x, 27);
    LowAndHigh(y, 27);
  }

  /** Key, top bits and low bits side by side. */
  function Code(x: u64): (c: nat)
    ensures c < M64
  {
    KeyBounds(x);
    (PcgOutput(x) * 32 + High(x, 59)) * 0x800_0000 + Low(x, 27)
  }

  lemma KeyBounds(x: u64)
    ensures PcgOutput(x) < M32 && High(x, 59) < 32 && Low(x, 27) < 0x800_0000
  {
    PowersUsed();
    hide Pow2, RotateRight, Xorshifted;
    RotateBound(Xorshifted(x), High(x, 59) % 32);
  }

  lemma PowersUsed()
    ensures Pow2(27) == 0x800_0000 && Pow2(59) == 0x800_0000_0000_0000
  {
    Pow2Known();
    Pow2Add(16, 11);
    assert Pow2(11) == 2048;
    Pow2Add(32, 27);
  }

  lemma Decode(key: nat, top: nat, low: nat, key': nat, top': nat, low': nat)
    requires top < 32 && low < 0x800_0000 && top' < 32 && low' < 0x800_0000
    requires (key * 32 + top) * 0x800_0000 + low == (key' * 32 + top') * 0x800_0000 + low'
    ensures key == key' && top == top' && low == low'
  {
  }

  /** Every key comes with every choice of top and low bits from exactly one state: 2^32 states for each key. */
  lemma PcgOutputOnto(key: nat, top: nat, low: nat)
    requires key < M32 && top < 32 && low < 0x800_0000
    ensures exists x: u64 :: PcgOutput(x) == key && High(x, 59) == top && Low(x, 27) == low
  {
    hide PcgOutput, High, Low;
    var codes: seq<nat> := seq(M64, (i: nat) => if i < M64 then Code(i) else 0);
    forall i, j | 0 <= i < j < |codes| ensures codes[i] != codes[j] {
      KeyBounds(i);
      KeyBounds(j);
      if Code(i) == Code(j) {
        Decode(PcgOutput(i), High(i, 59), Low(i, 27), PcgOutput(j), High(j, 59), Low(j, 27));
        PcgOutputInjective(i, j);
      }
    }
    var wanted := (key * 32 + top) * 0x800_0000 + low;
    Pigeonhole(codes, wanted);
    var x :| 0 <= x < M64 && codes[x] == wanted;
    KeyBounds(x);
    Decode(PcgOutput(x), High(x, 59), Low(x, 27), key, top, low);
  }

  /** The bits from 27 on, mixed with themselves shifted by 18, are the rotated bits below the top five. */
  lemma TopAndMiddle(x: u64)
    ensures Xor(High(x, 27), High(High(x, 27), 18)) == Up(High(x, 59), 32) + Xorshifted(x)
  {
    hide Xor, High, Up;
    var w := Xor(x, High(x, 18));
    var v := High(w, 27);
    MixHigh(x, 18, 27);
    HighOfHigh(w, 27, 32);
    Pow2Known();
    TopStays(x, 18, 59, 64);
    LowAndHigh(v, 32);
  }

  function PcgIter(n: nat, x: u64): u64
  {
    if n == 0 then x else PcgStep(PcgIter(n - 1, x))
  }

  function SplitMixIter(n: nat, x: u64): u64
  {
    if n == 0 then x else SplitMixStep(SplitMixIter(n - 1, x))
  }

  // ----- Divisibility by powers of two -----

  /** 2^k divides n, read off the bits of n. */
  ghost predicate Divides(k: nat, n: int)
  {
    k == 0 || (n % 2 == 0 && Divides(k - 1, n / 2))
  }

  lemma {:induction false} DividesMeansMod(k: nat, n: int)
    ensures Divides(k, n) <==> n % Pow2(k) == 0
    decreases k
  {
    if k > 0 {
      DividesMeansMod(k - 1, n / 2);
      ModTwice(n, Pow2(k - 1));
    }
  }

  lemma ModTwice(n: int, p: nat)
    requires p > 0
    ensures n % (2 * p) == 2 * ((n / 2) % p) + n % 2
  {
    var q, r := (n / 2) / p, (n / 2) % p;
    assert n / 2 == q * p + r;
    Associate(q, 2, p);
    Associate(2, q, p);
    assert n == q * (2 * p) + (2 * r + n % 2);
    DivModUnique(n, q, 2 * r + n % 2, 2 * p);
  }

  /** An odd factor does not matter to divisibility by a power of two. */
  lemma {:induction false} DividesOddFactor(k: nat, n: int, odd: int)
    requires odd % 2 == 1
    ensures Divides(k, n * odd) <==> Divides(k, n)
    decreases k
  {
    if k > 0 {
      OddTimes(n, odd);
      if n % 2 == 0 {
        HalfTimes(n, odd);
        DividesOddFactor(k - 1, n / 2, odd);
      }
    }
  }

  lemma OddTimes(n: int, odd: int)
    requires odd % 2 == 1
    ensures (n * odd) % 2 == n % 2
  {
    MulExpand(n, odd / 2);
    EvenPlus(n * (odd / 2), n);
  }

  lemma HalfTimes(n: int, m: int)
    requires n % 2 == 0
    ensures (n * m) / 2 == (n / 2) * m
  {
    Associate(2, n / 2, m);
    EvenPlus((n / 2) * m, 0);
  }

  lemma MulExpand(n: int, h: int)
    ensures n * (2 * h + 1) == 2 * (n * h) + n
  {
  }

  lemma EvenPlus(t: int, n: int)
    ensures (2 * t + n) % 2 == n % 2 && (2 * t) / 2 == t
  {
  }

  // ----- The geometric sum 1 + a + ... + a^(n-1) -----

  function Geo(a: nat, n: nat): nat
  {
    if n == 0 then 0 else a * Geo(a, n - 1) + 1
  }

  lemma {:induction false} GeoAdd(a: nat, m: nat, n: nat)
    ensures Geo(a, m + n) == Geo(a, n) + Geo(a, m) * (1 + (a - 1) * Geo(a, n))
    decreases m
  {
    if m > 0 {
      GeoAdd(a, m - 1, n);
      var x, y := Geo(a, m - 1), Geo(a, n);
      GeoStep(a, x, y);
    }
  }

  lemma GeoStep(a: int, x: int, y: int)
    ensures a * (y + x * (1 + (a - 1) * y)) + 1 == y + (a * x + 1) * (1 + (a - 1) * y)
  {
    var t := 1 + (a - 1) * y;
    assert a * (y + x * t) + 1 == a * y + a * (x * t) + 1;
    Associate(a, x, t);
    assert y + (a * x + 1) * t == y + (a * x) * t + t;
    assert y + t == a * y + 1;
  }

  lemma {:induction false} GeoParity(a: nat, n: nat)
    requires a % 2 == 1
    ensures Geo(a, n) % 2 == n % 2
    decreases n
  {
    if n > 0 {
      GeoParity(a, n - 1);
      OddTimesPlus(Geo(a, n - 1), a);
      NextParity(Geo(a, n - 1), n);
    }
  }

  lemma NextParity(g: nat, n: nat)
    requires n > 0 && g % 2 == (n - 1) % 2
    ensures (g + 1) % 2 == n % 2
  {
  }

  lemma OddTimesPlus(g: nat, a: nat)
    requires a % 2 == 1
    ensures (a * g + 1) % 2 == (g + 1) % 2
  {
    OddTimes(g, a);
  }

  lemma GeoDouble(a: nat, m: nat)
    requires a % 4 == 1
    ensures exists odd: int :: odd % 2 == 1 && Geo(a, 2 * m) == 2 * (Geo(a, m) * odd)
  {
    GeoAdd(a, m, m);
    var g, h := Geo(a, m), a / 4;
    DoubleForm(a, h, g);
    var odd := 1 + 2 * (h * g);
    EvenPlus(h * g, 1);
    assert odd % 2 == 1 && Geo(a, 2 * m) == 2 * (g * odd);
  }

  lemma DoubleForm(a: int, h: int, g: int)
    requires a == 4 * h + 1
    ensures g + g * (1 + (a - 1) * g) == 2 * (g * (1 + 2 * (h * g)))
  {
    var t := h * g;
    Associate(4, h, g);
    assert (a - 1) * g == 4 * t;
    assert g * (1 + 4 * t) == g + 4 * (g * t);
    assert g * (1 + 2 * t) == g + 2 * (g * t);
  }

  /** With a multiplier of the form 4h+1 the sum has exactly the factors of two of its length. */
  lemma {:induction false} GeoDivides(a: nat, k: nat, n: nat)
    requires a % 4 == 1
    ensures Divides(k, Geo(a, n)) <==> Divides(k, n)
    decreases k
  {
    if k > 0 {
      GeoParity(a, n);
      if n % 2 == 0 {
        var m := n / 2;
        GeoDouble(a, m);
        var odd: int :| odd % 2 == 1 && Geo(a, 2 * m) == 2 * (Geo(a, m) * odd);
        EvenPlus(Geo(a, m) * odd, 0);
        DividesOddFactor(k - 1, Geo(a, m), odd);
        GeoDivides(a, k - 1, m);
      }
    }
  }

  // ----- The PCG state sequence -----

  /** The state after `n` steps before reduction: the seed plus a fixed odd number times the sum. */
  lemma {:induction false} PcgClosedForm(n: nat, x: u64)
    ensures PcgIter(n, x) == (x + ((PCG_MULTIPLIER - 1) * x + PCG_INCREMENT) * Geo(PCG_MULTIPLIER, n)) % M64
    decreases n
  {
    if n > 0 {
      PcgClosedForm(n - 1, x);
      AffineStep(x, PCG_MULTIPLIER, PCG_INCREMENT, Geo(PCG_MULTIPLIER, n - 1));
    }
  }

  lemma AffineStep(x: nat, a: nat, c: nat, g: nat)
    requires a > 0
    ensures var k := (a - 1) * x + c;
      (((x + k * g) % M64) * a + c) % M64 == (x + k * (a * g + 1)) % M64
  {
    var k := (a - 1) * x + c;
    ModStep(x + k * g, a, c);
    ClosedStep(x, a, c, k, g);
  }

  lemma ModStep(y: nat, a: nat, c: nat)
    ensures ((y % M64) * a + c) % M64 == (y * a + c) % M64
  {
    var q, r := y / M64, y % M64;
    Distribute(q * M64, r, a);
    Associate(q, M64, a);
    Associate(q, a, M64);
    ModOfMultiple(q * a, M64);
    ModEqualIff(y * a + c, r * a + c, M64);
  }

  lemma ClosedStep(x: nat, a: nat, c: nat, k: nat, g: nat)
    requires a > 0 && k == (a - 1) * x + c
    ensures (x + k * g) * a + c == x + k * (a * g + 1)
  {
    Associate(k, a, g);
    Associate(a, k, g);
    Distribute(x, k * g, a);
    Distribute(a, 1, x);
    assert k * (a * g + 1) == k * (a * g) + k;
  }

  /** The state returns to its seed after exactly the multiples of 2^64. */
  lemma PcgReturnsIff(n: nat, x: u64)
    ensures PcgIter(n, x) == x <==> n % M64 == 0
  {
    PcgClosedForm(n, x);
    var odd := (PCG_MULTIPLIER - 1) * x + PCG_INCREMENT;
    OddCoefficient(x);
    ReturnsCore(x, odd, Geo(PCG_MULTIPLIER, n));
    GeoDivides(PCG_MULTIPLIER, 64, n);
    DividesMeansMod(64, n);
    Pow2Known();
  }

  lemma OddCoefficient(x: nat)
    ensures ((PCG_MULTIPLIER - 1) * x + PCG_INCREMENT) % 2 == 1
  {
    EvenPlus(((PCG_MULTIPLIER - 1) / 2) * x, PCG_INCREMENT);
  }

  /** Adding an odd multiple of `g` comes back to `x` exactly when 2^64 divides `g`. */
  lemma ReturnsCore(x: u64, odd: nat, g: nat)
    requires odd % 2 == 1
    ensures (x + odd * g) % M64 == x <==> Divides(64, g)
  {
    var t := g * odd;
    assert odd * g == t;
    ReturnsIffMultiple(x, t);
    DividesOddFactor(64, g, odd);
  }

  lemma ReturnsIffMultiple(x: u64, t: nat)
    ensures (x + t) % M64 == x <==> Divides(64, t)
  {
    ModEqualIff(x + t, x, M64);
    DividesMeansMod(64, t);
    Pow2Known();
  }

  lemma SmallNotMultiple(d: nat)
    requires 0 < d < M64
    ensures d % M64 != 0
  {
  }

  lemma {:induction false} PcgIterAdd(m: nat, n: nat, x: u64)
    ensures PcgIter(m + n, x) == PcgIter(m, PcgIter(n, x))
    decreases m
  {
    if m > 0 {
      PcgIterAdd(m - 1, n, x);
    }
  }

  lemma PcgStatesDistinct(i: nat, j: nat, x: u64)
    requires i < j < M64
    ensures PcgIter(i, x) != PcgIter(j, x)
  {
    PcgIterAdd(j - i, i, x);
    PcgReturnsIff(j - i, PcgIter(i, x));
    SmallNotMultiple(j - i);
  }

  /** Full period: from every seed, every state is reached within 2^64 steps, no state is repeated
      before, and step 2^64 is back at the seed. */
  lemma PcgFullPeriod(x: u64, y: u64)
    ensures exists n: nat :: n < M64 && PcgIter(n, x) == y
    ensures forall i, j :: 0 <= i < j < M64 ==> PcgIter(i, x) != PcgIter(j, x)
    ensures PcgIter(M64, x) == x
  {
    forall i, j | 0 <= i < j < M64 ensures PcgIter(i, x) != PcgIter(j, x) {
      PcgStatesDistinct(i, j, x);
    }
    PcgReturnsIff(M64, x);
    var states: seq<nat> := seq(M64, (i: nat) => PcgIter(i, x) as nat);
    Pigeonhole(states, y);
    var n :| 0 <= n < M64 && states[n] == y;
    assert PcgIter(n, x) == y;
  }

  // ----- The SplitMix64 state sequence -----

  /** `n` steps of `gamma` at once. */
  function Advance(x: u64, n: nat, gamma: nat): u64 { (x + n * gamma) % M64 }

  lemma {:induction false} SplitMixClosedForm(n: nat, x: u64)
    ensures SplitMixIter(n, x) == Advance(x, n, SPLIT_MIX_GAMMA)
    decreases n
  {
    if n > 0 {
      SplitMixClosedForm(n - 1, x);
      ModAdd(x + (n - 1) * SPLIT_MIX_GAMMA, SPLIT_MIX_GAMMA, M64);
    }
  }

  lemma SplitMixStatesDistinct(i: nat, j: nat, x: u64)
    requires i < j < M64
    ensures SplitMixIter(i, x) != SplitMixIter(j, x)
  {
    hide SplitMixIter, Advance;
    SplitMixClosedForm(i, x);
    SplitMixClosedForm(j, x);
    DistinctCore(x, i, j, SPLIT_MIX_GAMMA);
  }

  lemma DistinctCore(x: u64, i: nat, j: nat, odd: nat)
    requires i < j < M64 && odd % 2 == 1
    ensures Advance(x, i, odd) != Advance(x, j, odd)
  {
    var d := j - i;
    Distribute(j, i, odd);
    ModEqualIff(x + j * odd, x + i * odd, M64);
    DividesOddFactor(64, d, odd);
    DividesMeansMod(64, d);
    DividesMeansMod(64, d * odd);
    Pow2Known();
    SmallNotMultiple(d);
  }

  lemma SplitMixReturns(x: u64)
    ensures SplitMixIter(M64, x) == x
  {
    SplitMixClosedForm(M64, x);
    ModOfMultiple(SPLIT_MIX_GAMMA, M64);
    ModEqualIff(x + M64 * SPLIT_MIX_GAMMA, x, M64);
  }

  lemma SplitMixFullPeriod(x: u64, y: u64)
    ensures exists n: nat :: n < M64 && SplitMixIter(n, x) == y
    ensures forall i, j :: 0 <= i < j < M64 ==> SplitMixIter(i, x) != SplitMixIter(j, x)
    ensures SplitMixIter(M64, x) == x
  {
    forall i, j | 0 <= i < j < M64 ensures SplitMixIter(i, x) != SplitMixIter(j, x) {
      SplitMixStatesDistinct(i, j, x);
    }
    SplitMixReturns(x);
    var states: seq<nat> := seq(M64, (i: nat) => SplitMixIter(i, x) as nat);
    Pigeonhole(states, y);
    var n :| 0 <= n < M64 && states[n] == y;
    assert SplitMixIter(n, x) == y;
  }
}
