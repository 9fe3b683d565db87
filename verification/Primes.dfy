/** The next prime at or above a 16-bit number: a wheel of 210 skips multiples of 2, 3, 5 and 7, the
    others are tried against the primes up to the square root. */
module Primes {
  import opened Columns

  /** A row of the table of primes from 11 to 255. */
  function PrimeRow(k: nat): (r: seq<nat>)
    ensures |r| == 10
  {
    if k == 0 then [11, 13, 17, 19, 23, 29, 31, 37, 41, 43]
    else if k == 1 then [47, 53, 59, 61, 67, 71, 73, 79, 83, 89]
    else if k == 2 then [97, 101, 103, 107, 109, 113, 127, 131, 137, 139]
    else if k == 3 then [149, 151, 157, 163, 167, 173, 179, 181, 191, 193]
    else [197, 199, 211, 223, 227, 229, 233, 239, 241, 251]
  }

  const PRIMES: seq<nat> := PrimeRow(0) + PrimeRow(1) + PrimeRow(2) + PrimeRow(3) + PrimeRow(4)

  const WHEEL: nat := 210

  /** No multiple of 2, 3, 5 or 7. */
  predicate Spoke(n: nat) {
    n % 2 != 0 && n % 3 != 0 && n % 5 != 0 && n % 7 != 0
  }

  /** How far it is to the next spoke. */
  function ToSpoke(i: nat): (d: nat)
    requires i <= WHEEL + 1
    ensures Spoke(i + d) && i + d <= WHEEL + 1 && forall k :: i <= k < i + d ==> !Spoke(k)
    decreases WHEEL + 1 - i
  {
    if Spoke(i) then 0 else 1 + ToSpoke(i + 1)
  }

  /** The sieve table. */
  function Sieve(offset: nat): nat
    requires offset < WHEEL
  {
    ToSpoke(offset)
  }

  lemma ModOfWheel(n: nat, m: nat, k: nat)
    requires m > 0 && m * k == WHEEL
    ensures n % m == (n % WHEEL) % m
  {
    var q, r := n / WHEEL, n % WHEEL;
    assert n == m * (k * q + r / m) + r % m by {
      assert n == WHEEL * q + r && r == m * (r / m) + r % m;
      assert WHEEL * q == m * (k * q);
    }
    ModUnique(n, m, k * q + r / m, r % m);
  }

  lemma SpokePeriod(n: nat)
    ensures Spoke(n) <==> Spoke(n % WHEEL)
  {
    ModOfWheel(n, 2, 105);
    ModOfWheel(n, 3, 70);
    ModOfWheel(n, 5, 42);
    ModOfWheel(n, 7, 30);
  }

  /** The spokes of one turn of the wheel, a dozen to a row. */
  function SpokeRow(k: nat): (r: seq<nat>)
    ensures |r| == 12
  {
    if k == 0 then [1, 11, 13, 17, 19, 23, 29, 31, 37, 41, 43, 47]
    else if k == 1 then [53, 59, 61, 67, 71, 73, 79, 83, 89, 97, 101, 103]
    else if k == 2 then [107, 109, 113, 121, 127, 131, 137, 139, 143, 149, 151, 157]
    else [163, 167, 169, 173, 179, 181, 187, 191, 193, 197, 199, 209]
  }

  function SpokeAt(k: nat): nat
    requires k <= 48
  {
    if k == 48 then WHEEL + 1 else SpokeRow(k / 12)[k % 12]
  }

  lemma RowSpokes(k: nat, j: nat)
    requires k < 4 && j < 12
    ensures Spoke(SpokeRow(k)[j]) && (j < 11 ==> SpokeRow(k)[j] < SpokeRow(k)[j + 1] <= SpokeRow(k)[j] + 10)
  {}

  lemma RowEnds()
    ensures SpokeRow(0)[11] < SpokeRow(1)[0] <= SpokeRow(0)[11] + 10
      && SpokeRow(1)[11] < SpokeRow(2)[0] <= SpokeRow(1)[11] + 10
    ensures SpokeRow(2)[11] < SpokeRow(3)[0] <= SpokeRow(2)[11] + 10
      && SpokeRow(3)[11] < WHEEL + 1 <= SpokeRow(3)[11] + 10
    ensures SpokeRow(0)[0] == 1
  {}

  lemma SpokeNext(k: nat)
    requires k < 48
    ensures Spoke(SpokeAt(k)) && SpokeAt(k) < SpokeAt(k + 1) <= SpokeAt(k) + 10
  {
    hide SpokeRow;
    RowSpokes(k / 12, k % 12);
    RowEnds();
    if k % 12 == 11 { assert (k + 1) / 12 == k / 12 + 1 && (k + 1) % 12 == 0; }
    else { assert (k + 1) / 12 == k / 12 && (k + 1) % 12 == k % 12 + 1; }
  }

  /** Two spokes are at most ten apart. */
  lemma {:induction false} GapSmall(i: nat, k: nat)
    requires k <= 48 && i < WHEEL && (SpokeAt(k) < i || SpokeAt(k) <= i + 9)
    ensures ToSpoke(i) <= 9
    decreases 48 - k
  {
    hide SpokeAt;
    if k == 48 {
      assert SpokeAt(48) == WHEEL + 1 && Spoke(WHEEL + 1) by { LastSpoke(); }
    } else {
      SpokeNext(k);
      if SpokeAt(k) < i { GapSmall(i, k + 1); }
    }
  }

  lemma LastSpoke()
    ensures SpokeAt(48) == WHEEL + 1 && Spoke(WHEEL + 1) && SpokeAt(0) == 1
  {}

  lemma PrimesByRow(i: nat)
    requires i < |PRIMES|
    ensures |PRIMES| == 50 && PRIMES[i] == PrimeRow(i / 10)[i % 10]
  {
    hide PrimeRow;
  }

  lemma RowFacts(k: nat, j: nat)
    requires k < 5 && j < 10
    ensures 11 <= PrimeRow(k)[j] < 256 && 65521 % PrimeRow(k)[j] != 0
  {}

  lemma TableFacts(i: nat)
    requires i < |PRIMES|
    ensures 11 <= PRIMES[i] < 256 && 65521 % PRIMES[i] != 0
  {
    hide PrimeRow;
    PrimesByRow(i);
    RowFacts(i / 10, i % 10);
  }

  lemma LastPrime()
    ensures Prime(65521)
  {
    forall i | 0 <= i < |PRIMES| ensures PRIMES[i] != 0 && 65521 % PRIMES[i] != 0 { TableFacts(i); }
    TrialDivision(65521, 255);
  }

  // ---------- Small divisors ----------

  lemma Listed11(d: nat)
    requires 11 <= d < 26 && Spoke(d) && (d % 11 != 0 || d == 11) && (d % 13 != 0 || d == 13)
    ensures d in [11, 13, 17, 19, 23]
  {}

  lemma Listed26(d: nat)
    requires 26 <= d < 40 && Spoke(d) && (d % 11 != 0 || d == 11) && (d % 13 != 0 || d == 13)
    ensures d in [29, 31, 37]
  {}

  lemma Listed40(d: nat)
    requires 40 <= d < 60 && Spoke(d) && (d % 11 != 0 || d == 11) && (d % 13 != 0 || d == 13)
    ensures d in [41, 43, 47, 53, 59]
  {}

  lemma Listed60(d: nat)
    requires 60 <= d < 80 && Spoke(d) && (d % 11 != 0 || d == 11) && (d % 13 != 0 || d == 13)
    ensures d in [61, 67, 71, 73, 79]
  {}

  lemma Listed80(d: nat)
    requires 80 <= d < 100 && Spoke(d) && (d % 11 != 0 || d == 11) && (d % 13 != 0 || d == 13)
    ensures d in [83, 89, 97]
  {}

  lemma Listed100(d: nat)
    requires 100 <= d < 120 && Spoke(d) && (d % 11 != 0 || d == 11) && (d % 13 != 0 || d == 13)
    ensures d in [101, 103, 107, 109, 113]
  {}

  lemma Listed120(d: nat)
    requires 120 <= d < 140 && Spoke(d) && (d % 11 != 0 || d == 11) && (d % 13 != 0 || d == 13)
    ensures d in [127, 131, 137, 139]
  {}

  lemma Listed140(d: nat)
    requires 140 <= d < 160 && Spoke(d) && (d % 11 != 0 || d == 11) && (d % 13 != 0 || d == 13)
    ensures d in [149, 151, 157]
  {}

  lemma Listed160(d: nat)
    requires 160 <= d < 180 && Spoke(d) && (d % 11 != 0 || d == 11) && (d % 13 != 0 || d == 13)
    ensures d in [163, 167, 173, 179]
  {}

  lemma Listed180(d: nat)
    requires 180 <= d < 200 && Spoke(d) && (d % 11 != 0 || d == 11) && (d % 13 != 0 || d == 13)
    ensures d in [181, 191, 193, 197, 199]
  {}

  lemma Listed200(d: nat)
    requires 200 <= d < 220 && Spoke(d) && (d % 11 != 0 || d == 11) && (d % 13 != 0 || d == 13)
    ensures d in [211]
  {}

  lemma Listed220(d: nat)
    requires 220 <= d < 240 && Spoke(d) && (d % 11 != 0 || d == 11) && (d % 13 != 0 || d == 13)
    ensures d in [223, 227, 229, 233, 239]
  {}

  lemma Listed240(d: nat)
    requires 240 <= d < 256 && Spoke(d) && (d % 11 != 0 || d == 11) && (d % 13 != 0 || d == 13)
    ensures d in [241, 251]
  {}

  /** The table has every prime from 11 to 255. */
  lemma TableComplete(d: nat)
    requires 11 <= d < 256 && Spoke(d) && (d % 11 != 0 || d == 11) && (d % 13 != 0 || d == 13)
    ensures d in PRIMES
  {
    hide Spoke;
    if d < 26 {
      Listed11(d);
    } else if d < 40 {
      Listed26(d);
    } else if d < 60 {
      Listed40(d);
    } else if d < 80 {
      Listed60(d);
    } else if d < 100 {
      Listed80(d);
    } else if d < 120 {
      Listed100(d);
    } else if d < 140 {
      Listed120(d);
    } else if d < 160 {
      Listed140(d);
    } else if d < 180 {
      Listed160(d);
    } else if d < 200 {
      Listed180(d);
    } else if d < 220 {
      Listed200(d);
    } else if d < 240 {
      Listed220(d);
    } else {
      Listed240(d);
    }
  }

  lemma {:induction false} LeastDivisor(n: nat, d: nat) returns (q: nat)
    requires 1 < d <= n && Divides(d, n)
    ensures 1 < q <= d && Divides(q, n) && forall e: nat :: 1 < e < q ==> !Divides(e, n)
  {
    if e: nat :| 1 < e < d && Divides(e, n) {
      q := LeastDivisor(n, e);
    } else {
      q := d;
    }
  }

  lemma DividesOver(e: nat, q: nat, n: nat)
    requires e > 0 && q > 0 && Divides(e, q) && Divides(q, n)
    ensures Divides(e, n)
  {
    var a, b := q / e, n / q;
    assert n == q * b && q == e * a;
    assert n == e * (a * b);
    ModUnique(n, e, a * b, 0);
  }

  /** The least divisor of a composite number is at most its square root. */
  lemma LeastIsSmall(n: nat, q: nat)
    requires 1 < q < n && Divides(q, n) && forall e: nat :: 1 < e < q ==> !Divides(e, n)
    ensures q * q <= n
  {
    var c := n / q;
    assert n == q * c;
    if c < q {
      ModUnique(n, c, q, 0);
      assert Divides(c, n);
    } else {
      Grow(q, c);
    }
  }

  lemma Grow(q: nat, c: nat)
    requires q <= c
    ensures q * q <= q * c
  {}

  lemma Square(a: nat, b: nat)
    requires a <= b
    ensures a * a <= b * b
  {
    Grow(a, b);
    assert a * b <= b * b by { assert (b - a) * b >= 0; }
  }

  /** What survives the wheel and the primes up to its square root is prime. */
  lemma TrialDivision(n: nat, root: nat)
    requires 11 <= n < 0x1_0000 && Spoke(n) && (root + 1) * (root + 1) > n
    requires forall i :: 0 <= i < |PRIMES| && PRIMES[i] <= root ==> PRIMES[i] != 0 && n % PRIMES[i] != 0
    ensures Prime(n)
  {
    if d: nat :| 1 < d < n && Divides(d, n) {
      var q := LeastDivisor(n, d);
      LeastIsSmall(n, q);
      if q >= 256 { Square(256, q); }
      if q > root { Square(root + 1, q); }
      SpokeOf(n, q);
      TableComplete(q);
    }
  }

  lemma SpokeOf(n: nat, q: nat)
    requires n >= 11 && Spoke(n) && 1 < q < 256 && Divides(q, n) && forall e: nat :: 1 < e < q ==> !Divides(e, n)
    ensures Spoke(q) && q >= 11 && (q % 11 != 0 || q == 11) && (q % 13 != 0 || q == 13)
  {
    if q % 2 == 0 { DividesOver(2, q, n); }
    if q % 3 == 0 { DividesOver(3, q, n); }
    if q % 5 == 0 { DividesOver(5, q, n); }
    if q % 7 == 0 { DividesOver(7, q, n); }
    if q % 11 == 0 && q != 11 { DividesOver(11, q, n); }
    if q % 13 == 0 && q != 13 { DividesOver(13, q, n); }
  }

  // ---------- The search ----------

  /** n is not prime: a spoke that some table prime divides, or no spoke. */
  lemma SkippedComposite(m: nat)
    requires m > 7 && !Spoke(m)
    ensures !Prime(m)
  {
    assert Divides(2, m) || Divides(3, m) || Divides(5, m) || Divides(7, m);
  }

  lemma DividedComposite(p: nat, m: nat)
    requires 1 < p < m && m % p == 0
    ensures !Prime(m)
  {
    assert Divides(p, m);
  }

  lemma SmallCases()
    ensures Prime(2) && Prime(3) && !Prime(4) && Prime(5) && !Prime(6) && Prime(7)
  {
    assert Divides(2, 4) && Divides(2, 6);
  }

  /** The integer square root. */
  method FloorSquareRoot(x: nat) returns (r: nat)
    ensures r * r <= x < (r + 1) * (r + 1)
  {
    r := 0;
    while (r + 1) * (r + 1) <= x
      invariant r * r <= x
      decreases x - r
    {
      Grow(1, r + 1);
      r := r + 1;
    }
  }

  /** What is known of the number on trial: a spoke, and none before it is prime. */
  ghost predicate Trying(n0: nat, n: nat, offset: nat, root: nat) {
    && 8 <= n0 <= n <= 65521 && Spoke(n) && n >= 11 && offset == n % WHEEL + 1
    && (forall m :: n0 <= m < n ==> !Prime(m))
    && 3 <= root < n && (root + 1) * (root + 1) > n
  }

  lemma SpokeShift(n: nat, from: nat, d: nat)
    requires from == n % WHEEL
    ensures Spoke(n + d) <==> Spoke(from + d)
  {
    hide Spoke;
    SpokePeriod(n + d);
    SpokePeriod(from + d);
    ModUnique(n + d, WHEEL, n / WHEEL + (from + d) / WHEEL, (from + d) % WHEEL);
  }

  /** From a number at a place of the wheel to the next spoke. */
  lemma Landing(n: nat, from: nat)
    requires from < WHEEL && from == n % WHEEL
    ensures Spoke(n + ToSpoke(from)) && forall m :: n <= m < n + ToSpoke(from) ==> !Spoke(m)
    ensures (n + ToSpoke(from)) % WHEEL == from + ToSpoke(from)
  {
    hide Spoke;
    var next := ToSpoke(from);
    SpokeShift(n, from, next);
    forall m | n <= m < n + next ensures !Spoke(m) { SpokeShift(n, from, m - n); }
    BeforeTurn(from);
    ModUnique(n + next, WHEEL, n / WHEEL, from + next);
  }

  lemma NoneBetween(n0: nat, n: nat, n': nat)
    requires 8 <= n0 <= n < n' && !Prime(n) && (forall m :: n0 <= m < n ==> !Prime(m))
      && (forall m :: n + 1 <= m < n' ==> !Spoke(m))
    ensures (forall m :: n0 <= m < n' ==> !Prime(m)) && (n <= 65521 && n0 <= 65521 ==> n' <= 65521)
  {
    hide Spoke, Prime;
    forall m | n0 <= m < n' ensures !Prime(m) {
      if m > n { SkippedComposite(m); }
    }
    if n' > 65521 && n0 <= 65521 { LastPrime(); }
  }

  /** Going on from n to the next spoke. */
  lemma NextTrial(n0: nat, n: nat, offset: nat, root: nat)
    requires Trying(n0, n, offset, root) && !Prime(n)
    ensures var from := if offset >= WHEEL then offset - WHEEL else offset;
      var next := ToSpoke(from);
      var root' := if root * root < n + next + 1 then root + 1 else root;
      from < WHEEL && Trying(n0, n + next + 1, from + next + 1, root')
  {
    hide Spoke, Prime, ToSpoke;
    var from := if offset >= WHEEL then offset - WHEEL else offset;
    var next := ToSpoke(from);
    var n' := n + next + 1;
    assert from == (n + 1) % WHEEL by { Turn(n); }
    Landing(n + 1, from);
    NoneBetween(n0, n, n');
    assert next <= 9 by { LastSpoke(); GapSmall(from, 0); }
    if n < 16 { EarlySteps(n, n'); }
    assert root == 3 ==> n < 16;
    RootGrows(n, n', root);
  }

  lemma EarlySteps(n: nat, n': nat)
    requires 11 <= n < 16 && Spoke(n) && forall m :: n + 1 <= m < n' ==> !Spoke(m)
    ensures n' <= 17
  {
    assert Spoke(13) && Spoke(17);
  }

  lemma Turn(n: nat)
    ensures (n + 1) % WHEEL == if n % WHEEL + 1 >= WHEEL then n % WHEEL + 1 - WHEEL else n % WHEEL + 1
  {}

  lemma BeforeTurn(from: nat)
    requires from < WHEEL
    ensures from + ToSpoke(from) < WHEEL
  {
    assert Spoke(WHEEL - 1);
  }

  lemma RootGrows(n: nat, n': nat, root: nat)
    requires 11 <= n < n' <= n + 10 && 3 <= root < n && (root + 1) * (root + 1) > n && (root == 3 ==> n' <= 24)
    ensures var root' := if root * root < n' then root + 1 else root;
      3 <= root' < n' && (root' + 1) * (root' + 1) > n'
  {
    assert (root + 2) * (root + 2) == (root + 1) * (root + 1) + 2 * root + 3;
    assert (root + 1) * (root + 1) == root * root + 2 * root + 1;
  }

  /** Try the table primes up to the root. */
  method Survives(n: nat, root: nat) returns (prime: bool)
    requires 11 <= n < 0x1_0000 && Spoke(n) && root < n && (root + 1) * (root + 1) > n
    ensures prime <==> Prime(n)
  {
    hide Prime, Spoke;
    var i := 0;
    while i < |PRIMES|
      invariant 0 <= i <= |PRIMES| && forall k :: 0 <= k < i ==> PRIMES[k] != 0 && n % PRIMES[k] != 0
    {
      TableFacts(i);
      var p := PRIMES[i];
      if p > root {
        TableAbove(i, root);
        TrialDivision(n, root);
        return true;
      }
      if n % p == 0 {
        DividedComposite(p, n);
        return false;
      }
      i := i + 1;
    }
    TrialDivision(n, root);
    return true;
  }

  /** The smallest prime that is not below n0. */
  method NextPrime16(n0: nat) returns (r: nat)
    requires n0 < 0x1_0000
    ensures n0 <= 1 ==> r == 1
    ensures n0 > 65521 ==> r == 0
    ensures 2 <= n0 <= 65521 ==> n0 <= r <= 65521 && Prime(r) && forall m :: n0 <= m < r ==> !Prime(m)
  {
    hide Prime, Spoke, ToSpoke;
    if n0 <= 7 { r := SmallPrime(n0); return; }
    if n0 > 65521 { return 0; }
    var n: nat := n0;
    var offset: nat := n % WHEEL;
    var next: nat := Sieve(offset);
    FirstTrial(n0);
    offset := offset + next + 1;
    n := n + next;
    var root: nat := FloorSquareRoot(n);
    FirstRoot(n, root);
    var root2 := root * root;
    while true
      invariant Trying(n0, n, offset, root) && root2 == root * root
      decreases 65521 - n
    {
      var found := Survives(n, root);
      if found {
        return n;
      }
      NextTrial(n0, n, offset, root);
      if offset >= WHEEL {
        offset := offset - WHEEL;
      }
      next := Sieve(offset);
      offset := offset + next + 1;
      n := n + next + 1;
      if root2 < n {
        root := root + 1;
        root2 := root * root;
      }
    }
  }

  method SmallPrime(n0: nat) returns (r: nat)
    requires n0 <= 7
    ensures n0 <= 1 ==> r == 1
    ensures 2 <= n0 ==> n0 <= r <= 7 && Prime(r) && forall m :: n0 <= m < r ==> !Prime(m)
  {
    SmallCases();
    hide Prime;
    if n0 <= 1 { return 1; }
    if n0 <= 3 { return n0; }
    if n0 <= 5 { return 5; }
    return 7;
  }

  lemma FirstTrial(n0: nat)
    requires 8 <= n0 <= 65521
    ensures var n := n0 + ToSpoke(n0 % WHEEL);
      n <= 65521 && Spoke(n) && n >= 11 && n0 % WHEEL + ToSpoke(n0 % WHEEL) == n % WHEEL
      && forall m :: n0 <= m < n ==> !Prime(m)
  {
    hide Spoke, Prime, ToSpoke;
    var n := n0 + ToSpoke(n0 % WHEEL);
    Landing(n0, n0 % WHEEL);
    forall m | n0 <= m < n ensures !Prime(m) { SkippedComposite(m); }
    LastPrime();
    FirstSpoke(n);
  }

  lemma FirstSpoke(n: nat)
    requires n >= 8 && Spoke(n)
    ensures n >= 11
  {}

  lemma FirstRoot(n: nat, root: nat)
    requires n >= 11 && root * root <= n < (root + 1) * (root + 1)
    ensures 3 <= root < n
  {
    if root <= 2 { Square(root + 1, 3); }
    Twice(root);
  }

  lemma Twice(root: nat)
    ensures root >= 2 ==> 2 * root <= root * root
  {
    if root >= 2 { assert (root - 2) * root >= 0; }
  }

  /** The table is sorted. */
  lemma TableAbove(i: nat, root: nat)
    requires i < |PRIMES| && PRIMES[i] > root
    ensures forall k :: i <= k < |PRIMES| ==> PRIMES[k] > root
  {
    hide PrimeRow;
    forall k | i <= k < |PRIMES| ensures PRIMES[k] > root { TableSorted(i, k); }
  }

  lemma {:induction false} TableSorted(i: nat, k: nat)
    requires i <= k < |PRIMES|
    ensures PRIMES[i] <= PRIMES[k]
  {
    hide PrimeRow;
    if i < k {
      var j := k - 1;
      TableSorted(i, j);
      PrimesByRow(j);
      PrimesByRow(k);
      RowSorted(j / 10, j % 10);
      if j % 10 == 9 { assert k / 10 == j / 10 + 1 && k % 10 == 0; }
        else { assert k / 10 == j / 10 && k % 10 == j % 10 + 1; }
    }
  }

  lemma RowSorted(k: nat, j: nat)
    requires k < 5 && j < 10
    ensures j < 9 ==> PrimeRow(k)[j] < PrimeRow(k)[j + 1]
    ensures k < 4 ==> PrimeRow(k)[9] < PrimeRow(k + 1)[0]
  {}
}
