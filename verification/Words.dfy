/** 64-bit unsigned words, shifts, and the floor-logarithm loop of valws379_base.c. */
module Words {
  const WORD: nat := 0x1_0000_0000_0000_0000

  /** `unsigned long long`. */
  type Ull = x: int | 0 <= x < 0x1_0000_0000_0000_0000

  datatype Option<+T> = None | Some(value: T)

  /** `++` and `--` on an unsigned word wrap around. */
  function Inc(x: Ull): Ull {
    if x == WORD - 1 then 0 else x + 1
  }

  function Dec(x: Ull): Ull {
    if x == 0 then WORD - 1 else x - 1
  }

  /** An integer modulo 2^64, without division. */
  function Wrap(n: int): Ull
    decreases n < 0, if n < 0 then -n else n
  {
    if n < 0 then Wrap(n + WORD) else if n < WORD then n else Wrap(n - WORD)
  }

  lemma {:induction false} WrapIsModulo(n: int)
    ensures Wrap(n) == n % WORD
    decreases n < 0, if n < 0 then -n else n
  {
    if n < 0 {
      WrapIsModulo(n + WORD);
    } else if n >= WORD {
      WrapIsModulo(n - WORD);
    }
  }

  lemma {:induction false} WrapStep(n: int)
    ensures Wrap(n + 1) == Inc(Wrap(n)) && Wrap(n - 1) == Dec(Wrap(n))
    ensures 0 <= n < WORD ==> Wrap(n) == n
    decreases n < 0, if n < 0 then -n else n
  {
    if n < 0 {
      WrapStep(n + WORD);
    } else if n >= WORD {
      WrapStep(n - WORD);
    }
  }

  lemma WrapNext(m: int, n: int)
    requires n == m + 1
    ensures Wrap(n) == Inc(Wrap(m)) && Wrap(m) == Dec(Wrap(n))
  {
    WrapStep(n);
    WrapStep(m);
  }

  lemma WrapNeighbours(n: int)
    ensures Wrap(n + 1) == Inc(Wrap(n)) && Wrap(n - 1) == Dec(Wrap(n)) && Wrap(n - 2) == Dec(Dec(Wrap(n)))
  {
    WrapStep(n);
    WrapStep(n - 1);
  }

  /** Adding to a wrapped number and wrapping again is wrapping the sum. */
  lemma {:induction false} WrapSum(a: int, b: int)
    ensures Wrap(Wrap(a) + b) == Wrap(a + b)
  {
    WrapIsModulo(a);
    WrapIsModulo(a + b);
    WrapIsModulo(Wrap(a) + b);
  }

  function Pow2(n: nat): (r: nat)
    ensures r > 0
  {
    if n == 0 then 1 else 2 * Pow2(n - 1)
  }

  /** `x >> s`. C leaves shifts of 64 and more undefined: code that runs must keep s below 64. */
  function Shr(x: Ull, s: nat): (r: Ull)
    ensures r <= x
  {
    if s == 0 then x else Shr(x, s - 1) / 2
  }

  lemma {:induction false} ShrBounds(x: Ull, s: nat)
    ensures Pow2(s) * Shr(x, s) <= x < Pow2(s) * (Shr(x, s) + 1)
  {
    if s > 0 {
      ShrBounds(x, s - 1);
      HalveQuotient(x, Pow2(s - 1), Shr(x, s - 1));
    }
  }

  lemma HalveQuotient(x: nat, p: nat, q: nat)
    requires p * q <= x < p * (q + 1)
    ensures 2 * p * (q / 2) <= x < 2 * p * (q / 2 + 1)
  {
    var h := q / 2;
    TimesMonotonic(p, 2 * h, q);
    TimesMonotonic(p, q + 1, 2 * h + 2);
    assert p * (2 * h) == 2 * p * h;
    assert p * (2 * h + 2) == 2 * p * (h + 1);
  }

  lemma TimesMonotonic(m: nat, a: nat, b: nat)
    requires a <= b
    ensures m * a <= m * b
  {
  }

  /** A shift is a division by a power of two. */
  lemma ShrIsDivision(x: Ull, s: nat)
    ensures Shr(x, s) == x / Pow2(s)
  {
    ShrBounds(x, s);
    QuotientUnique(x, Pow2(s), Shr(x, s));
  }

  lemma QuotientUnique(x: nat, m: nat, q: nat)
    requires m > 0 && m * q <= x < m * (q + 1)
    ensures x / m == q
  {
    var p := x / m;
    assert m * p <= x < m * (p + 1) by {
      assert x == m * p + x % m;
      assert m * (p + 1) == m * p + m;
    }
    if q + 1 <= p {
      TimesMonotonic(m, q + 1, p);
    }
    if p + 1 <= q {
      TimesMonotonic(m, p + 1, q);
    }
  }

  lemma {:induction false} ShrDifference(x: Ull, y: Ull, s: nat)
    requires x <= y
    ensures 0 <= Shr(y, s) - Shr(x, s) <= y - x
  {
    if s > 0 {
      ShrDifference(x, y, s - 1);
    }
  }

  lemma {:induction false} ShrSum(x: Ull, a: nat, b: nat)
    ensures Shr(Shr(x, a), b) == Shr(x, a + b)
  {
    if b > 0 {
      ShrSum(x, a, b - 1);
    }
  }

  lemma {:induction false} Pow2Sum(a: nat, b: nat)
    ensures Pow2(a + b) == Pow2(a) * Pow2(b)
  {
    if a != 0 {
      Pow2Sum(a - 1, b);
      assert Pow2(a + b) == 2 * Pow2(a - 1 + b);
      assert Pow2(a) * Pow2(b) == 2 * (Pow2(a - 1) * Pow2(b));
    }
  }

  lemma {:induction false} Pow2Monotonic(a: nat, b: nat)
    requires a <= b
    ensures Pow2(a) <= Pow2(b)
  {
    if a < b {
      Pow2Monotonic(a, b - 1);
    }
  }

  lemma Pow2Word()
    ensures Pow2(16) == 0x1_0000 && Pow2(32) == 0x1_0000_0000 && Pow2(64) == WORD
  {
    assert Pow2(4) == 16;
    hide Pow2;
    Pow2Sum(4, 4);
    assert Pow2(8) == 256;
    Pow2Sum(8, 8);
    assert Pow2(16) == 0x1_0000;
    Pow2Sum(16, 16);
    assert Pow2(32) == 0x1_0000_0000;
    Pow2Sum(32, 32);
  }

  /** Sixty-four halvings leave nothing of a word. */
  lemma ShrAll(x: Ull)
    ensures Shr(x, 64) == 0
  {
    Pow2Word();
    ShrBounds(x, 64);
  }

  /** get_power_of_two: the exponent starts at 2^64 - 1 and its first increment wraps to zero. */
  method GetPowerOfTwo(value: Ull) returns (exponent: Ull)
    ensures value > 0 ==> exponent < 64 && Pow2(exponent) <= value < Pow2(exponent + 1)
    ensures value == 0 ==> exponent == WORD - 1
  {
    exponent := WORD - 1;
    var newValue := value;
    ghost var steps: nat := 0;
    while newValue != 0
      invariant steps <= 64 && exponent == (if steps == 0 then WORD - 1 else steps - 1)
      invariant newValue == Shr(value, steps)
      invariant steps > 0 ==> Shr(value, steps - 1) > 0
      decreases newValue
    {
      ShrAll(value);
      exponent := Inc(exponent);
      newValue := newValue / 2;
      steps := steps + 1;
    }
    if steps > 0 {
      LogBounds(value, steps - 1);
    }
  }

  lemma LogBounds(x: Ull, e: nat)
    requires Shr(x, e) > 0 && Shr(x, e + 1) == 0
    ensures Pow2(e) <= x < Pow2(e + 1)
  {
    ShrBounds(x, e);
    ShrBounds(x, e + 1);
    assert Pow2(e) <= Pow2(e) * Shr(x, e);
  }

  /** Powers of two leave room for one exponent only, so the bounds above fix the result. */
  lemma LogUnique(value: nat, e: nat, f: nat)
    requires Pow2(e) <= value < Pow2(e + 1) && Pow2(f) <= value < Pow2(f + 1)
    ensures e == f
  {
    if f < e {
      Pow2Monotonic(f + 1, e);
    } else if e < f {
      Pow2Monotonic(e + 1, f);
    }
  }

  /** Buckets per trie level: four key bits pick one. */
  const TABLE_SIZE: nat := 16

  /** get_power_of_two(TABLE_SIZE) */
  lemma BitsPerLevel(e: nat)
    requires Pow2(e) <= TABLE_SIZE < Pow2(e + 1)
    ensures e == 4
  {
    assert Pow2(4) == 16 && Pow2(5) == 32;
    LogUnique(TABLE_SIZE, e, 4);
  }

  /** (key >> shifts) & HASH_MASK at a given level, where shifts is four bits a level. */
  function Index(key: Ull, level: nat): (i: nat)
    ensures i < TABLE_SIZE
  {
    Shr(key, 4 * level) % TABLE_SIZE
  }

  lemma IndexIs(key: Ull, level: nat)
    ensures Index(key, level) == key / Pow2(4 * level) % 16
  {
    ShrIsDivision(key, 4 * level);
  }

  /** The key's indices from the root down start with this path. */
  ghost predicate OnPath(key: Ull, path: seq<nat>) {
    forall j :: 0 <= j < |path| ==> path[j] == Index(key, j)
  }

  lemma OnPathStep(key: Ull, path: seq<nat>, i: nat)
    ensures OnPath(key, path + [i]) <==> OnPath(key, path) && Index(key, |path|) == i
  {
    if OnPath(key, path + [i]) {
      assert (path + [i])[|path|] == i;
      forall j | 0 <= j < |path| ensures path[j] == Index(key, j) {
        assert path[j] == (path + [i])[j];
      }
    }
  }

  /** The number with these base-16 digits, the lowest first. */
  function FromDigits(digits: seq<nat>): nat {
    if digits == [] then 0
    else
      var n := |digits| - 1;
      FromDigits(digits[..n]) + digits[n] * Pow2(4 * n)
  }

  ghost predicate Digits(path: seq<nat>) {
    forall j :: 0 <= j < |path| ==> path[j] < TABLE_SIZE
  }

  /** The indices of a key are its base-16 digits: a key lies on a path exactly when its low digits, four bits for
      each level of the path, are those of the path. */
  lemma PathIsLowDigits(key: Ull, path: seq<nat>)
    requires Digits(path)
    ensures OnPath(key, path) <==> key % Pow2(4 * |path|) == FromDigits(path)
    ensures FromDigits(path) < Pow2(4 * |path|)
  {
    hide Pow2, Shr, FromDigits, OnPath, Digits;
    DigitsBelow(path);
    var m, q := Pow2(4 * |path|), Shr(key, 4 * |path|);
    ShrIsDivision(key, 4 * |path|);
    assert key == m * q + key % m;
    if OnPath(key, path) {
      DigitsOfPath(key, path);
    }
    if key % m == FromDigits(path) {
      PathOfDigits(key, path, q);
    }
  }

  lemma {:induction false} DigitsBelow(path: seq<nat>)
    requires Digits(path)
    ensures FromDigits(path) < Pow2(4 * |path|)
  {
    hide Pow2;
    if path == [] {
      Pow2Sixteen(0);
    } else {
      var n := |path| - 1;
      DigitsBelow(path[..n]);
      Pow2Sixteen(n);
      TimesMonotonic(Pow2(4 * n), path[n] + 1, 16);
      assert Pow2(4 * n) * (path[n] + 1) == path[n] * Pow2(4 * n) + Pow2(4 * n);
    }
  }

  lemma Pow2Sixteen(n: nat)
    ensures Pow2(4 * (n + 1)) == Pow2(4 * n) * 16 && Pow2(0) == 1
  {
    assert Pow2(4) == 16;
    Pow2Sum(4 * n, 4);
  }

  lemma ShrDigit(key: Ull, n: nat)
    ensures Shr(key, 4 * n) == 16 * Shr(key, 4 * (n + 1)) + Index(key, n)
  {
    hide Shr;
    ShrStep(key, n);
  }

  /** Moving a digit between quotient and remainder. */
  lemma CarryDigit(m: nat, q: nat, d: nat)
    ensures m * (16 * q + d) == (m * 16) * q + d * m
  {
  }

  lemma {:induction false} DigitsOfPath(key: Ull, path: seq<nat>)
    requires OnPath(key, path)
    ensures key == Pow2(4 * |path|) * Shr(key, 4 * |path|) + FromDigits(path)
  {
    hide Pow2, Shr, Index;
    if path == [] {
      Pow2Sixteen(0);
      ShrIsDivision(key, 0);
    } else {
      var n := |path| - 1;
      assert forall j :: 0 <= j < n ==> path[..n][j] == path[j];
      DigitsOfPath(key, path[..n]);
      Pow2Sixteen(n);
      ShrDigit(key, n);
      CarryDigit(Pow2(4 * n), Shr(key, 4 * |path|), path[n]);
    }
  }

  lemma {:induction false} PathOfDigits(key: Ull, path: seq<nat>, q: nat)
    requires Digits(path) && key == Pow2(4 * |path|) * q + FromDigits(path)
    ensures OnPath(key, path)
  {
    hide Pow2, Shr, OnPath, Index;
    if path == [] {
      assert OnPath(key, path) by { EmptyPath(key); }
    } else {
      var n := |path| - 1;
      var lower := path[..n];
      var q' := 16 * q + path[n];
      assert forall j :: 0 <= j < n ==> lower[j] == path[j];
      LastQuotient(path, q);
      hide FromDigits;
      DigitsBelow(lower);
      PathOfDigits(key, lower, q');
      LastDigit(key, n, q', FromDigits(lower));
      assert lower + [path[n]] == path;
      OnPathStep(key, lower, path[n]);
    }
  }

  lemma LastQuotient(path: seq<nat>, q: nat)
    requires path != []
    ensures var n := |path| - 1;
            Pow2(4 * |path|) * q + FromDigits(path) == Pow2(4 * n) * (16 * q + path[n]) + FromDigits(path[..n])
  {
    hide Pow2;
    var n := |path| - 1;
    Pow2Sixteen(n);
    CarryDigit(Pow2(4 * n), q, path[n]);
  }

  lemma EmptyPath(key: Ull)
    ensures OnPath(key, [])
  {
  }

  lemma LastDigit(key: Ull, n: nat, q: nat, rest: nat)
    requires key == Pow2(4 * n) * q + rest && rest < Pow2(4 * n)
    ensures Index(key, n) == q % 16
  {
    hide Pow2, Shr;
    var m := Pow2(4 * n);
    assert m * (q + 1) == m * q + m;
    ShrIsDivision(key, 4 * n);
    QuotientUnique(key, m, q);
  }

  /** All sixteen indices rebuild the key. */
  lemma PathRebuildsKey(key: Ull, path: seq<nat>)
    requires |path| == 16 && OnPath(key, path)
    ensures key == FromDigits(path)
  {
    hide Pow2, Shr;
    ShrAll(key);
    DigitsOfPath(key, path);
  }

  lemma ShrStep(x: Ull, level: nat)
    ensures Shr(x, 4 * (level + 1)) == Shr(x, 4 * level) / 16
  {
    var y := Shr(x, 4 * level);
    assert Shr(x, 4 * level + 1) == y / 2;
    assert Shr(x, 4 * level + 2) == y / 2 / 2;
    assert Shr(x, 4 * level + 3) == y / 2 / 2 / 2;
  }
}
