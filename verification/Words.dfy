/** Fixed-width machine words and the modular facts about free-running 32-bit counters. */
module Words {

  const WORD: int := 0x1_0000_0000
  const SIZE_SPAN: int := 0x1_0000_0000_0000_0000

  type u32 = x: int | 0 <= x < WORD

  type byte = x: int | 0 <= x < 256

  function Min(a: int, b: int): int {
    if a < b then a else b
  }

  function Max(a: int, b: int): int {
    if a < b then b else a
  }

  /** u32 addition. */
  function Add32(a: u32, b: u32): u32 {
    (a + b) % WORD
  }

  /** `_read_write_delta`: the subtraction branch, or the `SIZE_MAX` branch truncated to u32. */
  function Delta(tx: u32, rx: u32): u32 {
    if tx >= rx then tx - rx
    else (((SIZE_SPAN - 1) - rx + tx + 1) % SIZE_SPAN) % WORD
  }

  lemma MulMonotone(a: nat, b: nat, c: nat)
    requires b <= c
    ensures a * b <= a * c
  {
  }

  lemma ModUnique(n: int, m: int, q: int, r: int)
    requires 0 < m && n == q * m + r && 0 <= r < m
    ensures n % m == r && n / m == q
  {
    var d := n / m - q;
    assert n == m * (n / m) + n % m;
    assert m * d == r - n % m by {
      assert m * d == m * (n / m) - m * q;
    }
    assert d >= 1 ==> m * d >= m;
    assert d <= -1 ==> m * d <= -m;
  }

  /** C division, which truncates toward zero. */
  function TruncDiv(a: int, b: int): int
    requires b != 0
  {
    var q := Abs(a) / Abs(b);
    if (a >= 0) == (b > 0) then q else -q
  }

  function Abs(a: int): nat {
    if a >= 0 then a else -a
  }

  lemma DivMonotone(a: int, b: int, d: int)
    requires 0 < d && a <= b
    ensures a / d <= b / d
  {
    var qa, qb := a / d, b / d;
    assert a == qa * d + a % d && b == qb * d + b % d;
    assert qa > qb ==> qa * d >= (qb + 1) * d == qb * d + d;
  }

  lemma DivExact(q: int, d: int)
    requires 0 < d
    ensures (q * d) / d == q
  {
    var r := (q * d) / d;
    assert q * d == r * d + (q * d) % d;
    assert (q - r) * d == (q * d) % d;
    assert q - r >= 1 ==> (q - r) * d >= d;
    assert q - r <= -1 ==> (q - r) * d <= -d;
  }

  /** Adding to a residue and reducing again is the residue of the sum. */
  lemma ModAdd(a: int, b: int, m: int)
    requires 0 < m
    ensures (a % m + b) % m == (a + b) % m
  {
    var x := a % m + b;
    assert a == (a / m) * m + a % m;
    assert x == (x / m) * m + x % m;
    assert (a / m + x / m) * m == (a / m) * m + (x / m) * m;
    ModUnique(a + b, m, a / m + x / m, x % m);
  }

  /** A sum of a residue and an offset below the modulus wraps at most once. */
  lemma ModStep(a: int, k: int, m: int)
    requires 0 < m && 0 <= k <= m
    ensures (a + k) % m == if a % m + k < m then a % m + k else a % m + k - m
  {
    var q, r := a / m, a % m;
    assert a == q * m + r;
    if r + k < m {
      ModUnique(a + k, m, q, r + k);
    } else {
      assert (q + 1) * m == q * m + m;
      ModUnique(a + k, m, q + 1, r + k - m);
    }
  }

  /** Shifting by `k` keeps the residue exactly when the modulus divides `k`. */
  lemma ModShift(x: int, k: int, m: int)
    requires 0 < m
    ensures (x - k) % m == x % m <==> k % m == 0
  {
    var y := x - k;
    assert x == (x / m) * m + x % m && y == (y / m) * m + y % m && k == (k / m) * m + k % m;
    if k % m == 0 {
      assert (x / m - k / m) * m == (x / m) * m - (k / m) * m;
      ModUnique(y, m, x / m - k / m, x % m);
    }
    if y % m == x % m {
      assert (x / m - y / m) * m == (x / m) * m - (y / m) * m;
      ModUnique(k, m, x / m - y / m, 0);
    }
  }

  /** Two different numbers less than `m` apart have different residues. */
  lemma ModDistinct(a: int, b: int, m: int)
    requires 0 < m && a < b < a + m
    ensures a % m != b % m
  {
    ModStep(a, b - a, m);
  }

  /** Reducing by a multiple of the modulus first changes nothing. */
  lemma ModMod(a: int, m: int, k: int)
    requires 0 < m && 0 < k && k % m == 0
    ensures (a % k) % m == a % m
  {
    var c := k / m;
    assert k == c * m;
    var q := a / k;
    assert a == q * k + a % k;
    assert q * k == (q * c) * m by {
      assert q * (c * m) == (q * c) * m;
    }
    var x := a % k;
    assert x == (x / m) * m + x % m;
    assert (q * c + x / m) * m == (q * c) * m + (x / m) * m;
    ModUnique(a, m, q * c + x / m, x % m);
  }

  lemma DeltaIs(tx: u32, rx: u32)
    ensures Delta(tx, rx) == if tx >= rx then tx - rx else WORD + tx - rx
  {
    if tx < rx {
      var x := (SIZE_SPAN - 1) - rx + tx + 1;
      ModUnique(x, SIZE_SPAN, 0, x);
      ModUnique(x, WORD, WORD - 1, WORD + tx - rx);
    }
  }

  /** The delta of two wrapped counters is the wrapped true difference. */
  lemma DeltaWraps(t: nat, r: nat)
    requires r <= t
    ensures Delta(t % WORD, r % WORD) == (t - r) % WORD
  {
    var tx, rx := t % WORD, r % WORD;
    var q := t / WORD - r / WORD;
    assert t - r == q * WORD + tx - rx;
    DeltaIs(tx, rx);
    if tx >= rx {
      ModUnique(t - r, WORD, q, tx - rx);
    } else {
      ModUnique(t - r, WORD, q - 1, WORD + tx - rx);
    }
  }

  /** The 32-bit counters tell the true distance exactly while it is below 2^32. */
  lemma {:induction false} DeltaExact(t: nat, r: nat)
    requires r <= t
    ensures Delta(t % WORD, r % WORD) == t - r <==> t - r < WORD
  {
    DeltaWraps(t, r);
  }

  /** Truncating division: the quotient times the divisor falls short of the dividend by less than the divisor,
      on the side of zero. */
  lemma {:induction false} TruncDivExact(a: int, b: int)
    requires 0 < b
    ensures var rest := a - TruncDiv(a, b) * b;
            -b < rest < b && (a >= 0 ==> rest >= 0) && (a <= 0 ==> rest <= 0)
  {
    var q := Abs(a) / b;
    assert Abs(a) == q * b + Abs(a) % b;
    assert (-q) * b == -(q * b);
  }
}
