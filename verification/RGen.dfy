/** The lagged Fibonacci generator, scaled by 2^24 so that every value is an exact integer (RGen.cc). */
module RandomGenerator {
  const ONE := 16777216
  const RING := 97
  const CARRY_START := 362436
  const CARRY_STEP := 7654321
  const CARRY_MODULUS := 16777213

  // ---------------------------------------------------------------- seeding

  /** C's division and remainder, which truncate toward zero. */
  function TruncDiv(x: int, y: int): int
    requires y > 0
  {
    if x >= 0 then x / y else -(-x / y)
  }

  function TruncMod(x: int, y: int): int
    requires y > 0
  {
    x - TruncDiv(x, y) * y
  }

  datatype Seed = Seed(i: int, j: int, k: int, l: int)

  function Product(s: Seed): int {
    TruncMod(TruncMod(s.i * s.j, 179) * s.k, 179)
  }

  /** The two seed generators advanced by one step. */
  function StepSeed(s: Seed): Seed {
    Seed(s.j, s.k, Product(s), TruncMod(53 * s.l + 1, 169))
  }

  function SeedBit(s: Seed): (b: nat)
    ensures b < 2
  {
    if TruncMod(StepSeed(s).l * Product(s), 64) >= 32 then 1 else 0
  }

  function SeedAfter(s: Seed, n: nat): Seed {
    if n == 0 then s else StepSeed(SeedAfter(s, n - 1))
  }

  /** The first n bits from s on, most significant first. */
  function Bits(s: Seed, n: nat): (b: nat)
    ensures b < Power(n)
  {
    if n == 0 then 0 else 2 * Bits(s, n - 1) + SeedBit(SeedAfter(s, n - 1))
  }

  function Power(n: nat): (p: nat)
    ensures p >= 1
  {
    if n == 0 then 1 else 2 * Power(n - 1)
  }

  lemma {:induction false} SeedAfterSplit(s: Seed, m: nat, n: nat)
    ensures SeedAfter(SeedAfter(s, m), n) == SeedAfter(s, m + n)
  {
    if n > 0 {
      SeedAfterSplit(s, m, n - 1);
    }
  }

  /** The ring set_seed fills: 24 fresh bits for each slot. */
  function SeededRing(s: Seed): (u: seq<int>)
    ensures |u| == RING
  {
    seq(RING, q requires 0 <= q < RING => Bits(SeedAfter(s, 24 * q), 24))
  }

  /** set_seed(int): the four generator seeds taken from one number. */
  function SplitSeed(seed: int): Seed {
    var ij := TruncDiv(seed, 30082);
    var kl := seed - 30082 * ij;
    Seed(TruncMod(TruncDiv(ij, 177), 177) + 2, TruncMod(ij, 177) + 2,
         TruncMod(TruncDiv(kl, 169), 178) + 1, TruncMod(kl, 169))
  }

  /** Non-negative seeds give generator seeds in the ranges the published method asks for. */
  lemma SplitSeedRanges(seed: nat)
    ensures var s := SplitSeed(seed); 2 <= s.i <= 178 && 2 <= s.j <= 178 && 1 <= s.k <= 178 && 0 <= s.l <= 168
  {
    var ij := TruncDiv(seed, 30082);
    var kl := seed - 30082 * ij;
    assert kl == TruncMod(seed, 30082);
  }

  /** How many seeds there are that the generator can tell apart. */
  const SEEDS := 30082 * 177 * 177

  function JoinSeed(s: Seed): int {
    30082 * (177 * (s.i - 2) + (s.j - 2)) + 169 * (s.k - 1) + s.l
  }

  /** No part of the number is lost: it can be put together again from the four seeds, up to the number of seeds. */
  lemma SeedIsRecovered(seed: nat)
    ensures JoinSeed(SplitSeed(seed)) == seed % SEEDS
  {
    hide SplitSeed;
    SplitParts(seed);
    var top, rest, lo, a, b := Digits(seed);
    SmallRest(seed, SEEDS, top, 30082 * (177 * rest + lo) + 169 * a + b);
  }

  /** The digits of a seed in the mixed base that the split uses. */
  lemma Digits(seed: nat) returns (top: int, rest: int, lo: int, a: int, b: int)
    ensures seed == SEEDS * top + (30082 * (177 * rest + lo) + 169 * a + b)
    ensures 0 <= rest < 177 && 0 <= lo < 177 && 0 <= a < 178 && 0 <= b < 169 && 169 * a + b < 30082
    ensures var ij, kl := seed / 30082, seed % 30082; rest == ij / 177 % 177 && lo == ij % 177 && a == kl / 169 % 178 && b == kl % 169
  {
    var ij, kl := seed / 30082, seed % 30082;
    WholePart(seed, 30082);
    WholePart(ij, 177);
    WholePart(kl, 169);
    var hi := ij / 177;
    WholePart(hi, 177);
    top, rest, lo, a, b := hi / 177, hi % 177, ij % 177, kl / 169, kl % 169;
    SmallRest(a, 178, 0, a);
  }

  lemma SplitParts(seed: nat)
    ensures var ij, kl := seed / 30082, seed % 30082;
            SplitSeed(seed) == Seed(ij / 177 % 177 + 2, ij % 177 + 2, kl / 169 % 178 + 1, kl % 169)
  {
    var ij, kl := TruncDiv(seed, 30082), seed % 30082;
    assert kl == seed - 30082 * ij;
    TruncModIsMod(ij / 177, 177);
    TruncModIsMod(ij, 177);
    TruncModIsMod(kl / 169, 178);
    TruncModIsMod(kl, 169);
  }

  lemma TruncModIsMod(x: nat, y: nat)
    requires y > 0
    ensures TruncDiv(x, y) == x / y && TruncMod(x, y) == x % y
  {
  }

  lemma SmallRest(x: int, m: int, q: int, r: int)
    requires m > 0 && x == m * q + r && 0 <= r < m
    ensures x % m == r && x / m == q
  {
    var q', r' := x / m, x % m;
    WholePart(x, m);
    assert m * (q' - q) == m * q' - m * q;
    SmallMultiple(m, q' - q, r - r');
  }

  lemma WholePart(x: int, m: int)
    requires m > 0
    ensures m * (x / m) + x % m == x && 0 <= x % m < m
  {
  }

  lemma SmallMultiple(m: int, d: int, e: int)
    requires m > 0 && m * d == e && -m < e < m
    ensures d == 0 && e == 0
  {
    Grows(m, d);
    Grows(m, -d);
    assert m * -d == -(m * d);
  }

  lemma Grows(m: int, d: int)
    requires m > 0
    ensures d >= 1 ==> m * d >= m
  {
    if d >= 1 {
      assert m * d == m * (d - 1) + m;
      assert m * (d - 1) >= 0;
    }
  }

  /** So two numbers seed the generator alike exactly when they differ by a multiple of the number of seeds. */
  lemma SameSeedIff(a: nat, b: nat)
    ensures SplitSeed(a) == SplitSeed(b) <==> a % SEEDS == b % SEEDS
  {
    hide SplitSeed;
    SeedIsRecovered(a);
    SeedIsRecovered(b);
    if a % SEEDS == b % SEEDS {
      JoinIsInjective(a, b);
    }
  }

  lemma JoinIsInjective(a: nat, b: nat)
    requires JoinSeed(SplitSeed(a)) == JoinSeed(SplitSeed(b))
    ensures SplitSeed(a) == SplitSeed(b)
  {
    hide SplitSeed;
    SplitSeedRanges(a);
    SplitSeedRanges(b);
    OneSplit(SplitSeed(a));
    OneSplit(SplitSeed(b));
  }

  lemma OneSplit(s: Seed)
    requires 2 <= s.i <= 178 && 2 <= s.j <= 178 && 1 <= s.k <= 178 && 0 <= s.l <= 168
    ensures var n := JoinSeed(s);
            s == Seed(n / 30082 / 177 + 2, n / 30082 % 177 + 2, n % 30082 / 169 + 1, n % 30082 % 169)
  {
    var ij, kl := 177 * (s.i - 2) + (s.j - 2), 169 * (s.k - 1) + s.l;
    SmallRest(JoinSeed(s), 30082, ij, kl);
    SmallRest(ij, 177, s.i - 2, s.j - 2);
    SmallRest(kl, 169, s.k - 1, s.l);
  }

  // ---------------------------------------------------------------- the seed generators

  /** The first seed generator multiplies modulo 179. */
  lemma ProductIsModular(s: Seed)
    requires s.i >= 0 && s.j >= 0 && s.k >= 0
    ensures Product(s) == s.i * s.j * s.k % 179
  {
    var p := s.i * s.j;
    assert p >= 0;
    TruncModIsMod(p, 179);
    var q, r := p / 179, p % 179;
    assert r * s.k >= 0;
    TruncModIsMod(r * s.k, 179);
    var q', r' := r * s.k / 179, r * s.k % 179;
    assert p * s.k == 179 * (q * s.k + q') + r' by {
      assert p == 179 * q + r;
      assert p * s.k == 179 * q * s.k + r * s.k;
    }
    SmallRest(p * s.k, 179, q * s.k + q', r');
  }

  lemma {:induction false} SeedsNonNegative(s: Seed, n: nat)
    requires s.i >= 0 && s.j >= 0 && s.k >= 0
    ensures var t := SeedAfter(s, n); t.i >= 0 && t.j >= 0 && t.k >= 0
  {
    if n > 0 {
      SeedsNonNegative(s, n - 1);
      ProductIsModular(SeedAfter(s, n - 1));
    }
  }

  /** Its numbers obey k_(n+3) = k_n k_(n+1) k_(n+2) mod 179. */
  lemma FirstGenerator(s: Seed, n: nat)
    requires s.i >= 0 && s.j >= 0 && s.k >= 0
    ensures SeedAfter(s, n + 3).k == SeedAfter(s, n).k * SeedAfter(s, n + 1).k * SeedAfter(s, n + 2).k % 179
  {
    hide Product;
    var t := SeedAfter(s, n + 2);
    SeedsNonNegative(s, n + 2);
    ProductIsModular(t);
    StepsTo(s, n);
    StepsTo(s, n + 1);
    StepsTo(s, n + 2);
  }

  lemma StepsTo(s: Seed, n: nat)
    ensures SeedAfter(s, n + 1) == StepSeed(SeedAfter(s, n))
  {
  }

  /** Bit k of n bits, counted from the most significant one, is the k-th bit the generators give. */
  lemma {:induction false} BitOf(s: Seed, n: nat, k: nat)
    requires k < n
    ensures Bits(s, n) / Power(n - 1 - k) % 2 == SeedBit(SeedAfter(s, k))
  {
    hide SeedBit;
    hide SeedAfter;
    var b := SeedBit(SeedAfter(s, n - 1));
    if k < n - 1 {
      BitOf(s, n - 1, k);
      HalfQuotient(Bits(s, n - 1), b, Power(n - 2 - k));
    } else {
      assert Power(0) == 1;
    }
  }

  lemma HalfQuotient(x: nat, b: nat, p: nat)
    requires b < 2 && p > 0
    ensures (2 * x + b) / (2 * p) == x / p
  {
    WholePart(x, p);
    var q, r := x / p, x % p;
    assert 2 * p * q == 2 * (p * q);
    SmallRest(2 * x + b, 2 * p, q, 2 * r + b);
  }

  /** l is x after n steps of x -> (53 x + 1) mod 169, with t the multiple of 169 taken off. */
  ghost predicate Steps(x: int, n: int, l: int, t: int) {
    x + n + 13 * (n * (4 * x + 2 * (n - 1))) == 169 * t + l
  }

  /** The second one after n steps: 53 to the n is 1 + 52 n modulo 169. */
  lemma {:induction false} SecondGenerator(s: Seed, n: nat) returns (t: int)
    requires 0 <= s.l <= 168
    ensures 0 <= SeedAfter(s, n).l <= 168 && Steps(s.l, n, SeedAfter(s, n).l, t)
  {
    if n == 0 {
      t := 0;
    } else {
      t := SecondGenerator(s, n - 1);
      var l := SeedAfter(s, n - 1).l;
      TruncModIsMod(53 * l + 1, 169);
      WholePart(53 * l + 1, 169);
      t := GeneratorStep(s.l, n - 1, t, l, (53 * l + 1) / 169, SeedAfter(s, n).l);
    }
  }

  lemma GeneratorStep(x: int, m: int, t: int, l: int, q: int, r: int) returns (u: int)
    requires Steps(x, m, l, t) && 53 * l + 1 == 169 * q + r
    ensures Steps(x, m + 1, r, u)
  {
    var mx, mm := m * x, m * m;
    assert m * (4 * x + 2 * (m - 1)) == 4 * mx + 2 * mm - 2 * m;
    assert (m + 1) * (4 * x + 2 * m) == 4 * mx + 4 * x + 2 * mm + 2 * m;
    u := 53 * t + q - 16 * mx - 8 * mm + 8 * m;
  }

  /** A multiple of a number that leaves 1 modulo 13 is divisible by 169 only if the factor is. */
  lemma DivisibleBySquare(n: int, r: int, t: int)
    requires n * (1 + 13 * r) == 169 * t
    ensures n % 169 == 0
  {
    var nr := n * r;
    assert n == 13 * (13 * t - nr);
    var m := 13 * t - nr;
    var mr := m * r;
    assert nr == 13 * mr;
    assert n == 169 * (t - mr);
    SmallRest(n, 169, t - mr, 0);
  }

  /** The second seed generator has the full period: its values after m and n steps agree exactly when m and n differ by a
      multiple of 169. */
  lemma SecondGeneratorPeriod(s: Seed, m: nat, n: nat)
    requires 0 <= s.l <= 168 && m <= n
    ensures SeedAfter(s, m).l == SeedAfter(s, n).l <==> (n - m) % 169 == 0
  {
    var t := SecondGenerator(s, m);
    SeedAfterSplit(s, m, n - m);
    ReturnsIff(SeedAfter(s, m), n - m);
  }

  lemma ReturnsIff(s: Seed, d: nat)
    requires 0 <= s.l <= 168
    ensures SeedAfter(s, d).l == s.l <==> d % 169 == 0
  {
    var t := SecondGenerator(s, d);
    Return(s.l, SeedAfter(s, d).l, d, 4 * s.l + 2 * (d - 1), t);
  }

  lemma Return(x: int, l: int, d: nat, r: int, t: int)
    requires 0 <= x <= 168 && 0 <= l <= 168 && x + d + 13 * (d * r) == 169 * t + l
    ensures l == x <==> d % 169 == 0
  {
    var factor := 1 + 13 * r;
    assert d * factor == d + 13 * (d * r);
    if l == x {
      DivisibleBySquare(d, r, t);
    }
    WholePart(d, 169);
    if d % 169 == 0 {
      var c := d / 169;
      var multiple := c * factor;
      assert d * factor == 169 * multiple;
      SmallMultiple(169, t - multiple, x - l);
    }
  }

  // ---------------------------------------------------------------- the recurrence

  function Mod(x: int): (r: int)
    ensures 0 <= r < ONE
  {
    x % ONE
  }

  /** The published recurrence: x_n = x_{n-97} - x_{n-33}. */
  function NextTerm(h: seq<int>): (x: int)
    requires |h| >= RING
    ensures 0 <= x < ONE
  {
    Mod(h[|h| - 97] - h[|h| - 33])
  }

  function NextCarry(c: int): int {
    (c - CARRY_STEP) % CARRY_MODULUS
  }

  /** The sequence after n more terms. */
  function History(h: seq<int>, n: nat): (r: seq<int>)
    requires |h| >= RING
    ensures |r| == |h| + n
  {
    if n == 0 then h else History(h, n - 1) + [NextTerm(History(h, n - 1))]
  }

  function CarryAfter(n: nat): (c: int)
    ensures 0 <= c < CARRY_MODULUS
  {
    if n == 0 then CARRY_START else NextCarry(CarryAfter(n - 1))
  }

  /** The n-th result of a run, counted from one. */
  function Output(h: seq<int>, n: nat): int
    requires |h| >= RING && n >= 1
  {
    Mod(History(h, n)[|h| + n - 1] - CarryAfter(n))
  }

  lemma {:induction false} HistoryPrefix(h: seq<int>, m: nat, n: nat)
    requires |h| >= RING && m <= n
    ensures History(h, n)[..|h| + m] == History(h, m)
  {
    if m < n {
      HistoryPrefix(h, m, n - 1);
      assert History(h, n)[..|h| + m] == History(h, n - 1)[..|h| + m];
    }
  }

  /** Every term of a run obeys the recurrence. */
  lemma RunObeysRecurrence(h: seq<int>, n: nat, k: nat)
    requires |h| >= RING && |h| <= k < |h| + n
    ensures var r := History(h, n); r[k] == Mod(r[k - 97] - r[k - 33])
  {
    var m := k - |h|;
    HistoryPrefix(h, m + 1, n);
    HistoryPrefix(h, m, n);
    var r := History(h, n);
    assert r[k] == r[..k + 1][k] == NextTerm(r[..k]);
  }

  /** The carry in closed form. */
  lemma {:induction false} CarryClosedForm(n: nat)
    ensures CarryAfter(n) == (CARRY_START - n * CARRY_STEP) % CARRY_MODULUS
  {
    if n > 0 {
      CarryClosedForm(n - 1);
      StepResidue(CARRY_START - (n - 1) * CARRY_STEP);
    }
  }

  lemma StepResidue(x: int)
    ensures (x % CARRY_MODULUS - CARRY_STEP) % CARRY_MODULUS == (x - CARRY_STEP) % CARRY_MODULUS
  {
  }

  // ---------------------------------------------------------------- the generator object

  /** How many calls ago slot p was written, relative to the write position. */
  function Age(ip: int, p: int): int {
    if p <= ip then ip - p else ip - p + RING
  }

  /** The ring holds the last 97 terms. */
  ghost predicate HoldsHistory(u: seq<int>, ip: int, h: seq<int>) {
    && |u| == RING && 0 <= ip < RING && |h| >= RING
    && forall p :: 0 <= p < RING ==> u[p] == h[|h| - RING + Age(ip, p)]
  }

  ghost predicate InRange(u: seq<int>) {
    forall p :: 0 <= p < |u| ==> 0 <= u[p] < ONE
  }

  /** The history a freshly seeded ring stands for: its slots from the write position downwards. */
  function SeedHistory(u: seq<int>): (h: seq<int>)
    requires |u| == RING
    ensures |h| == RING
  {
    seq(RING, q requires 0 <= q < RING => u[RING - 1 - q])
  }

  lemma Overwrite(u: seq<int>, ip: int, h: seq<int>, x: int)
    requires HoldsHistory(u, ip, h)
    ensures HoldsHistory(u[ip := x], if ip == 0 then RING - 1 else ip - 1, h + [x])
  {
  }

  lemma OverwriteRange(u: seq<int>, ip: int, x: int)
    requires InRange(u) && 0 <= ip < |u| && 0 <= x < ONE
    ensures InRange(u[ip := x])
  {
  }

  /** The two cursors point at the terms from 97 and from 33 calls ago. */
  lemma CursorTerms(u: seq<int>, ip: int, jp: int, h: seq<int>)
    requires HoldsHistory(u, ip, h) && InRange(u) && jp == (ip + 33) % RING
    ensures 0 <= jp < RING && u[ip] == h[|h| - 97] && u[jp] == h[|h| - 33]
    ensures 0 <= u[ip] < ONE && 0 <= u[jp] < ONE
  {
    assert Age(ip, ip) == 0 && Age(ip, jp) == 64;
  }

  lemma ModOfDifference(x: int, y: int)
    requires 0 <= x < ONE && 0 <= y < ONE
    ensures Mod(x - y) == if x - y < 0 then x - y + ONE else x - y
  {
  }

  lemma CarryWraps(c: int)
    requires 0 <= c < CARRY_MODULUS
    ensures NextCarry(c) == if c - CARRY_STEP < 0 then c - CARRY_STEP + CARRY_MODULUS else c - CARRY_STEP
  {
  }

  class RGen {
    var ip: int
    var jp: int
    var c: int
    var cd: int
    var cm: int
    const u: array<int>
    ghost var start: seq<int>
    ghost var calls: nat

    /** The ring holds the sequence so far, the two cursors stay 33 slots apart and the carry is in range. */
    ghost predicate Valid()
      reads this, u
    {
      && u.Length == RING && 0 <= ip < RING && jp == (ip + 33) % RING
      && cd == CARRY_STEP && cm == CARRY_MODULUS && 0 <= c < CARRY_MODULUS && c == CarryAfter(calls)
      && |start| == RING && InRange(u[..]) && HoldsHistory(u[..], ip, History(start, calls))
    }

    constructor (seed: int)
      ensures Valid() && fresh(u) && calls == 0 && start == SeedHistory(SeededRing(SplitSeed(seed)))
    {
      ip, jp, c, cd, cm := 0, 0, 0, 0, 0;
      u := new int[RING];
      new;
      SetSeed(seed);
    }

    /** set_seed(int) */
    method SetSeed(seed: int)
      requires u.Length == RING
      modifies this, u
      ensures Valid() && calls == 0 && start == SeedHistory(SeededRing(SplitSeed(seed)))
    {
      var s := SplitSeed(seed);
      SetSeeds(s.i, s.j, s.k, s.l);
    }

    /** set_seed(i, j, k, l): whatever the arguments, the resulting state is valid. */
    method SetSeeds(i: int, j: int, k: int, l: int)
      requires u.Length == RING
      modifies this, u
      ensures Valid() && calls == 0 && start == SeedHistory(SeededRing(Seed(i, j, k, l)))
    {
      hide SeedAfter;
      hide Bits;
      ghost var seed := Seed(i, j, k, l);
      FillRing(i, j, k, l);
      assert u[..] == SeededRing(seed);
      c, cd, cm := CARRY_START, CARRY_STEP, CARRY_MODULUS;
      ip, jp := 96, 32;
      start, calls := SeedHistory(u[..]), 0;
    }

    /** The nested loops of set_seed: the seed generators run on from slot to slot. */
    method FillRing(i0: int, j0: int, k0: int, l0: int)
      requires u.Length == RING
      modifies u
      ensures u[..] == SeededRing(Seed(i0, j0, k0, l0))
      ensures InRange(u[..])
    {
      hide SeedAfter;
      hide Bits;
      ghost var seed := Seed(i0, j0, k0, l0);
      var i, j, k, l := i0, j0, k0, l0;
      SeedAtZero(seed);
      for ii := 0 to RING
        invariant Seed(i, j, k, l) == SeedAfter(seed, 24 * ii)
        invariant forall q :: 0 <= q < ii ==> u[q] == Bits(SeedAfter(seed, 24 * q), 24)
      {
        SeedAfterSplit(seed, 24 * ii, 24);
        u[ii], i, j, k, l := FillSlot(i, j, k, l);
      }
    }

    /** One slot: 24 bits, most significant first. The weight t starts at one half and is halved for every bit; it
        is kept scaled by 2^25 so that it stays an integer after the last one. */
    method FillSlot(i0: int, j0: int, k0: int, l0: int) returns (s: int, i: int, j: int, k: int, l: int)
      ensures s == Bits(Seed(i0, j0, k0, l0), 24) && Seed(i, j, k, l) == SeedAfter(Seed(i0, j0, k0, l0), 24)
    {
      hide SeedAfter;
      hide Bits;
      hide Power;
      ghost var first := Seed(i0, j0, k0, l0);
      i, j, k, l := i0, j0, k0, l0;
      var t := 16777216;
      s := 0;
      SeedAtZero(first);
      for jj := 0 to 24
        invariant Seed(i, j, k, l) == SeedAfter(first, jj)
        invariant t == Power(24 - jj) && s == Bits(first, jj) * Power(24 - jj)
      {
        SeedBitStep(first, jj);
        var m := TruncMod(TruncMod(i * j, 179) * k, 179);
        i, j, k := j, k, m;
        l := TruncMod(53 * l + 1, 169);
        if TruncMod(l * m, 64) >= 32 {
          s := s + t / 2;
        }
        t := t / 2;
      }
    }

    /** flat01: the next term minus the next carry, both modulo 2^24, hence in [0, 1). */
    method Flat01() returns (uni: int)
      requires Valid()
      modifies this, u
      ensures Valid() && calls == old(calls) + 1 && start == old(start)
      ensures uni == Output(start, calls) && 0 <= uni < ONE
    {
      hide History;
      hide CarryAfter;
      hide HoldsHistory;
      hide InRange;
      hide Mod;
      hide NextCarry;
      ghost var h := History(start, calls);
      HistoryStep(start, calls);
      CarryStep(calls);
      CursorTerms(u[..], ip, jp, h);
      ModOfDifference(u[ip], u[jp]);
      CarryWraps(c);
      uni := u[ip] - u[jp];
      if uni < 0 {
        uni := uni + ONE;
      }
      ghost var ring := u[..];
      assert uni == NextTerm(h);
      Overwrite(ring, ip, h, uni);
      OverwriteRange(ring, ip, uni);
      u[ip] := uni;
      assert u[..] == ring[ip := uni];
      ip := if ip != 0 then ip - 1 else 96;
      jp := if jp != 0 then jp - 1 else 96;
      c := c - cd;
      if c < 0 {
        c := c + cm;
      }
      calls := calls + 1;
      ModOfDifference(uni, c);
      uni := uni - c;
      if uni < 0 {
        uni := uni + ONE;
      }
    }
  }

  lemma HistoryStep(h: seq<int>, n: nat)
    requires |h| >= RING
    ensures History(h, n + 1) == History(h, n) + [NextTerm(History(h, n))]
  {
  }

  lemma CarryStep(n: nat)
    ensures CarryAfter(n + 1) == NextCarry(CarryAfter(n))
  {
  }

  lemma SeedAtZero(s: Seed)
    ensures SeedAfter(s, 0) == s && Bits(s, 0) == 0 && Power(24) == 16777216 && Power(0) == 1
  {
    assert Power(4) == 16 && Power(8) == 256 && Power(12) == 4096 && Power(16) == 65536 && Power(20) == 1048576;
  }

  lemma SeedBitStep(s: Seed, n: nat)
    requires n < 24
    ensures SeedAfter(s, n + 1) == StepSeed(SeedAfter(s, n))
    ensures Power(24 - n) == 2 * Power(24 - (n + 1))
    ensures Bits(s, n + 1) * Power(24 - (n + 1))
         == Bits(s, n) * Power(24 - n) + (if SeedBit(SeedAfter(s, n)) == 1 then Power(24 - (n + 1)) else 0)
  {
    hide SeedBit;
    hide Bits;
    hide Power;
    hide SeedAfter;
    hide StepSeed;
    BitsUnfold(s, n);
    if SeedBit(SeedAfter(s, n)) == 1 {
      assert SeedBit(SeedAfter(s, n)) * Power(24 - (n + 1)) == Power(24 - (n + 1));
    }
  }

  lemma BitsUnfold(s: Seed, n: nat)
    requires n < 24
    ensures SeedAfter(s, n + 1) == StepSeed(SeedAfter(s, n))
    ensures Bits(s, n + 1) == 2 * Bits(s, n) + SeedBit(SeedAfter(s, n)) && 0 <= SeedBit(SeedAfter(s, n)) <= 1
    ensures Power(24 - n) == 2 * Power(24 - (n + 1))
  {
    hide StepSeed;
  }
}
