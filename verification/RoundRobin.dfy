/** Choosing an event base: one wrapping counter shared by every server instance. */
module RoundRobin {

  const INT_MIN: int := -0x8000_0000
  const INT_MAX: int := 0x7FFF_FFFF
  const TWO32: int := 0x1_0000_0000
  const TWO64: int := 0x1_0000_0000_0000_0000

  predicate IsInt(c: int) {
    INT_MIN <= c <= INT_MAX
  }

  /** `++` on a `std::atomic<int>`, which wraps. */
  function Next(c: int): (r: int)
    requires IsInt(c)
    ensures IsInt(r)
  {
    if c == INT_MAX then INT_MIN else c + 1
  }

  /** The conversion of an `int` operand to the `size_t` of the other one. */
  function ToSize(c: int): nat
    requires IsInt(c)
  {
    if c < 0 then c + TWO64 else c
  }

  /** The index chosen when the counter, already incremented, is c. */
  function Index(c: int, n: nat): (i: nat)
    requires IsInt(c) && n > 0
    ensures i < n
  {
    ToSize(c) % n
  }

  /** The counter is static: all instances increment the same one. */
  class Counter {
    var value: int

    constructor ()
      ensures value == 0
    {
      value := 0;
    }
  }

  class BaseChooser<Base> {
    const iter: Counter
    const bases: seq<Base>

    constructor (iter: Counter, bases: seq<Base>)
      ensures this.iter == iter && this.bases == bases
    {
      this.iter := iter;
      this.bases := bases;
    }

    method ChooseBase() returns (base: Base)
      requires bases != [] && IsInt(iter.value)
      modifies iter
      ensures iter.value == Next(old(iter.value))
      ensures iter.value == if old(iter.value) == 0x7FFF_FFFF then -0x8000_0000 else old(iter.value) + 1
      ensures base == bases[Index(iter.value, |bases|)]
      ensures var v: int := if iter.value < 0 then iter.value + 0x1_0000_0000_0000_0000 else iter.value;
              base == bases[v % |bases|]
    {
      iter.value := if iter.value == INT_MAX then INT_MIN else iter.value + 1;
      base := bases[(if iter.value < 0 then iter.value + TWO64 else iter.value) % |bases|];
    }
  }

  // ---------- one step ----------

  lemma MulOrder(x: int, n: int)
    requires n > 0
    ensures x >= 1 ==> x * n >= n
    ensures x <= -1 ==> x * n <= -n
  {
  }

  lemma ModIsUnique(a: int, q: int, r: int, n: int)
    requires n > 0 && a == q * n + r && 0 <= r < n
    ensures a % n == r && a / n == q
  {
    var q', r' := a / n, a % n;
    assert (q - q') * n == r' - r;
    MulOrder(q - q', n);
  }

  lemma ModAdd(a: int, k: int, n: int)
    requires n > 0
    ensures (a + k * n) % n == a % n
  {
    var q, r := a / n, a % n;
    assert a + k * n == (q + k) * n + r;
    ModIsUnique(a + k * n, q + k, r, n);
  }

  lemma ModSuccessor(a: int, n: int)
    requires n > 0
    ensures (a + 1) % n == (a % n + 1) % n
  {
    ModAdd(a % n + 1, a / n, n);
    assert a + 1 == a % n + 1 + a / n * n;
  }

  /** The index moves on by one when the counter is c. */
  predicate StepsAt(c: int, n: nat)
    requires IsInt(c) && n > 0
  {
    Index(Next(c), n) == (Index(c, n) + 1) % n
  }

  /** The index always moves on by one exactly when the number of bases divides 2^32. */
  lemma StepsByOneIff(n: nat)
    requires n > 0
    ensures TWO32 % n == 0 <==> forall c | IsInt(c) :: StepsAt(c, n)
  {
    if TWO32 % n == 0 {
      forall c | IsInt(c)
        ensures StepsAt(c, n)
      {
        StepsByOne(c, n);
      }
    }
    if StepsAt(-1, n) && StepsAt(INT_MAX, n) {
      StepsAtWraps(n);
    }
  }

  lemma StepsAtWraps(n: nat)
    requires n > 0 && StepsAt(-1, n) && StepsAt(INT_MAX, n)
    ensures TWO32 % n == 0
  {
    var half: int := 0x8000_0000;
    ModSuccessor(TWO64 - 1, n);
    ModSuccessor(half - 1, n);
    ModIsUnique(0, 0, 0, n);
    DividesDifference(TWO64, half, n);
  }

  lemma DividesDifference(whole: int, half: int, n: nat)
    requires n > 0 && whole % n == 0 && (whole - half) % n == half % n
    ensures (half + half) % n == 0
  {
    var a, b, c := whole / n, half / n, (whole - half) / n;
    assert half + half == 0 + (a - c + b) * n;
    ModAdd(0, a - c + b, n);
    ModIsUnique(0, 0, 0, n);
  }

  lemma StepsByOne(c: int, n: nat)
    requires n > 0 && TWO32 % n == 0 && IsInt(c)
    ensures StepsAt(c, n)
  {
    var k := TWO32 / n;
    assert TWO32 == k * n;
    ModSuccessor(ToSize(c), n);
    if c == INT_MAX {
      assert TWO64 - TWO32 == (TWO32 - 1) * k * n;
      ModAdd(c + 1, (TWO32 - 1) * k, n);
    } else if c == -1 {
      assert TWO64 == TWO32 * k * n;
      ModAdd(0, TWO32 * k, n);
    }
  }

  // ---------- fairness over runs ----------

  /** How many of the next k accepts go to base j. */
  function Hits(c: int, k: nat, n: nat, j: nat): nat
    requires IsInt(c) && n > 0
    decreases k
  {
    if k == 0 then 0
    else (if Index(Next(c), n) == j then 1 else 0) + Hits(Next(c), k - 1, n, j)
  }

  /** How many accepts until base j is next chosen. */
  function Distance(i: nat, j: nat, n: nat): (d: nat)
    requires i < n && j < n
    ensures 1 <= d <= n
  {
    if j > i then j - i else j + n - i
  }

  /** What a run of k accepts gives to a base that is d accepts away. */
  function Share(k: nat, d: nat, n: nat): nat
    requires n > 0
  {
    if k < d then 0 else 1 + (k - d) / n
  }

  lemma {:induction false} HitsByDistance(c: int, k: nat, n: nat, j: nat)
    requires IsInt(c) && n > 0 && TWO32 % n == 0 && j < n
    ensures Hits(c, k, n, j) == Share(k, Distance(Index(c, n), j, n), n)
    decreases k
  {
    if k > 0 {
      var i := Index(c, n);
      StepsByOne(c, n);
      SuccessorIndex(i, n);
      HitsByDistance(Next(c), k - 1, n, j);
      ShareStep(k, Distance(i, j, n), n);
    }
  }

  /** One accept later: the base just chosen is n accepts away again, the others one less. */
  lemma ShareStep(k: nat, d: nat, n: nat)
    requires k > 0 && 1 <= d <= n
    ensures Share(k, d, n) == if d == 1 then 1 + Share(k - 1, n, n) else Share(k - 1, d - 1, n)
  {
    if d == 1 && k - 1 >= n {
      ModIsUnique(k - 1, (k - 1 - n) / n + 1, (k - 1 - n) % n, n);
    } else if d == 1 {
      ModIsUnique(k - 1, 0, k - 1, n);
    }
  }

  lemma SuccessorIndex(i: nat, n: nat)
    requires i < n
    ensures (i + 1) % n == if i + 1 == n then 0 else i + 1
  {
    if i + 1 == n {
      ModIsUnique(n, 1, 0, n);
    } else {
      ModIsUnique(i + 1, 0, i + 1, n);
    }
  }

  lemma DivMonotone(a: int, b: int, n: int)
    requires n > 0 && a <= b
    ensures a / n <= b / n
  {
    MulOrder(a / n - b / n, n);
  }

  lemma SharesAreClose(k: nat, d: nat, d': nat, n: nat)
    requires 1 <= d <= n && 1 <= d' <= n
    ensures Share(k, d, n) <= Share(k, d', n) + 1
  {
    if k >= d {
      if k >= d' {
        DivMonotone(k - d, k - d' + n, n);
        ModIsUnique(k - d' + n, (k - d') / n + 1, (k - d') % n, n);
      } else {
        ModIsUnique(k - d, 0, k - d, n);
      }
    }
  }

  /**
    Fairness: with the bases dividing 2^32 in number, as the server's four do, any run of accepts
    from any counter value, through wrap-around, gives no base two more than another.
   */
  lemma Fair(c: int, k: nat, n: nat, j: nat, j': nat)
    requires IsInt(c) && n > 0 && TWO32 % n == 0 && j < n && j' < n
    ensures Hits(c, k, n, j) <= Hits(c, k, n, j') + 1
  {
    hide Hits, Index, Distance, Share;
    HitsByDistance(c, k, n, j);
    HitsByDistance(c, k, n, j');
    SharesAreClose(k, Distance(Index(c, n), j, n), Distance(Index(c, n), j', n), n);
  }

  lemma FourBases(c: int, k: nat, j: nat, j': nat)
    requires IsInt(c) && j < 4 && j' < 4
    ensures Hits(c, k, 4, j) <= Hits(c, k, 4, j') + 1
  {
    Fair(c, k, 4, j, j');
  }

  /** With three bases it fails: from the counter -2, two accepts in a row go to the first. */
  lemma ThreeBases()
    ensures Hits(-2, 2, 3, 0) == 2 && Hits(-2, 2, 3, 1) == 0
  {
    assert Hits(0, 0, 3, 0) == 0 && Hits(0, 0, 3, 1) == 0;
    assert Index(0, 3) == 0 && Index(-1, 3) == 0;
    assert Hits(-1, 1, 3, 0) == 1 && Hits(-1, 1, 3, 1) == 0;
  }

  // ---------- only those numbers of bases are served fairly ----------

  /** The counter after k accepts. */
  function After(c: int, k: nat): (r: int)
    requires IsInt(c)
    ensures IsInt(r)
    decreases k
  {
    if k == 0 then c else After(Next(c), k - 1)
  }

  lemma {:induction false} HitsSplit(c: int, k: nat, l: nat, n: nat, j: nat)
    requires IsInt(c) && n > 0
    ensures After(c, k + l) == After(After(c, k), l)
    ensures Hits(c, k + l, n, j) == Hits(c, k, n, j) + Hits(After(c, k), l, n, j)
    decreases k
  {
    if k > 0 {
      HitsSplit(Next(c), k - 1, l, n, j);
    }
  }

  /** The counter goes round the 32-bit integers. */
  lemma {:induction false} AfterIs(c: int, k: nat)
    requires IsInt(c)
    ensures After(c, k) == (c + k + 0x8000_0000) % 0x1_0000_0000 - 0x8000_0000
    decreases k
  {
    if k == 0 {
      ModIsUnique(c + 0x8000_0000, 0, c + 0x8000_0000, TWO32);
    } else {
      AfterIs(Next(c), k - 1);
      if c == INT_MAX {
        ModAdd(Next(c) + (k - 1) + 0x8000_0000, 1, TWO32);
      }
    }
  }

  /** Which base the k-th of a run of accepts goes to, counted on from any counter value. */
  lemma BaseOfAccept(c: int, k: nat, n: nat)
    requires IsInt(c) && n > 0
    ensures var v: int := (c + k + 0x8000_0000) % 0x1_0000_0000 - 0x8000_0000;
            Index(After(c, k), n) == (if v < 0 then v + 0x1_0000_0000_0000_0000 else v) % n
  {
    AfterIs(c, k);
  }

  /** 2^32 accepts bring the counter back. */
  lemma FullCycle(c: int, period: nat)
    requires IsInt(c) && period == TWO32
    ensures After(c, period) == c
  {
    AfterIs(c, period);
    ModIsUnique(c + period + 0x8000_0000, 1, c + 0x8000_0000, TWO32);
  }

  /** The accepts that go to the first m bases. */
  function HitsBelow(c: int, k: nat, n: nat, m: nat): nat
    requires IsInt(c) && n > 0
  {
    if m == 0 then 0 else HitsBelow(c, k, n, m - 1) + Hits(c, k, n, m - 1)
  }

  lemma {:induction false} HitsBelowStep(c: int, k: nat, n: nat, m: nat)
    requires IsInt(c) && n > 0
    ensures HitsBelow(c, 0, n, m) == 0
    ensures k > 0 ==>
              HitsBelow(c, k, n, m) == (if Index(Next(c), n) < m then 1 else 0) + HitsBelow(Next(c), k - 1, n, m)
  {
    if m > 0 {
      HitsBelowStep(c, k, n, m - 1);
    }
  }

  /** Every accept goes to some base. */
  lemma {:induction false} HitsAddUp(c: int, k: nat, n: nat)
    requires IsInt(c) && n > 0
    ensures HitsBelow(c, k, n, n) == k
    decreases k
  {
    HitsBelowStep(c, k, n, n);
    if k > 0 {
      HitsAddUp(Next(c), k - 1, n);
    }
  }

  lemma {:induction false} EqualHits(c: int, k: nat, n: nat, m: nat, h: nat)
    requires IsInt(c) && n > 0 && forall j: nat :: j < m ==> Hits(c, k, n, j) == h
    ensures HitsBelow(c, k, n, m) == m * h
  {
    if m > 0 {
      EqualHits(c, k, n, m - 1, h);
    }
  }

  /** No base gets two more than another over any run of accepts, from any counter value. */
  ghost predicate ServedFairly(n: nat)
    requires n > 0
  {
    forall c: int, k: nat, j: nat, j': nat | IsInt(c) && j < n && j' < n :: Hits(c, k, n, j) <= Hits(c, k, n, j') + 1
  }

  /** Two full cycles double any difference, so fairness leaves none after one. */
  lemma CycleIsEven(n: nat, period: nat, j: nat, j': nat)
    requires n > 0 && ServedFairly(n) && period == TWO32 && j < n && j' < n
    ensures Hits(0, period, n, j) <= Hits(0, period, n, j')
  {
    hide Hits, Index, After;
    FullCycle(0, period);
    HitsSplit(0, period, period, n, j);
    HitsSplit(0, period, period, n, j');
    assert Hits(0, period + period, n, j) <= Hits(0, period + period, n, j') + 1;
  }

  lemma FairDivides(n: nat, period: nat)
    requires n > 0 && ServedFairly(n) && period == TWO32
    ensures TWO32 % n == 0
  {
    hide Hits, ServedFairly, HitsBelow;
    var h := Hits(0, period, n, 0);
    forall j: nat | j < n
      ensures Hits(0, period, n, j) == h
    {
      CycleIsEven(n, period, j, 0);
      CycleIsEven(n, period, 0, j);
    }
    EqualHits(0, period, n, n, h);
    HitsAddUp(0, period, n);
    assert TWO32 == h * n + 0;
    ModIsUnique(TWO32, h, 0, n);
  }

  /** The numbers of bases that are served fairly are exactly those that divide 2^32. */
  lemma FairIff(n: nat)
    requires n > 0
    ensures ServedFairly(n) <==> TWO32 % n == 0
  {
    hide Hits;
    if ServedFairly(n) {
      FairDivides(n, TWO32);
    }
    if TWO32 % n == 0 {
      forall c: int, k: nat, j: nat, j': nat | IsInt(c) && j < n && j' < n
        ensures Hits(c, k, n, j) <= Hits(c, k, n, j') + 1
      {
        Fair(c, k, n, j, j');
      }
    }
  }
}
