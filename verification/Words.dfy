/** Unsigned 64-bit words: wrap-around, powers of two and the bitwise AND used as a slot mask. */
module Words {

  // The number of values of std::size_t and std::uint64_t.
  const WORD: nat := 0x1_0000_0000_0000_0000

  type byte = b: nat | b < 256

  /** Unsigned 64-bit addition. */
  function AddWord(x: nat, y: nat): nat {
    (x + y) % WORD
  }

  function Pow2(k: nat): (p: nat)
    ensures p > 0
  {
    if k == 0 then 1 else 2 * Pow2(k - 1)
  }

  lemma MulAssociates(a: int, b: int, c: int)
    ensures (a * b) * c == a * (b * c)
  {
  }

  lemma MulDistributes(a: int, b: int, c: int)
    ensures (a + b) * c == a * c + b * c
  {
  }

  lemma {:induction false} Pow2Sum(j: nat, k: nat)
    ensures Pow2(j + k) == Pow2(j) * Pow2(k)
  {
    if j > 0 {
      Pow2Sum(j - 1, k);
      MulAssociates(2, Pow2(j - 1), Pow2(k));
      assert Pow2(j + k) == 2 * Pow2(j - 1 + k);
    }
  }

  lemma Pow2Is16()
    ensures Pow2(16) == 0x1_0000
  {
    assert Pow2(4) == 16;
    Pow2Sum(4, 4);
    Pow2Sum(8, 8);
  }

  lemma Pow2Is64()
    ensures Pow2(64) == WORD
  {
    calc {
      Pow2(64);
      { Pow2Sum(32, 32); Pow2Sum(16, 16); }
      Pow2(16) * Pow2(16) * (Pow2(16) * Pow2(16));
      { Pow2Is16(); }
      WORD;
    }
  }

  lemma {:induction false} Pow2Monotone(j: nat, k: nat)
    requires j <= k
    ensures Pow2(j) <= Pow2(k)
    decreases k
  {
    if j < k {
      Pow2Monotone(j, k - 1);
    }
  }

  /** Bitwise AND of two unsigned numbers, bit by bit from the least significant end. */
  function BitAnd(a: nat, b: nat): (r: nat)
    ensures r <= a && r <= b
  {
    if a == 0 || b == 0 then 0 else 2 * BitAnd(a / 2, b / 2) + (if a % 2 == 1 && b % 2 == 1 then 1 else 0)
  }

  /** Masking with 2^k - 1 keeps exactly the low k bits. */
  lemma {:induction false} MaskIsMod(x: nat, k: nat)
    ensures BitAnd(x, Pow2(k) - 1) == x % Pow2(k)
  {
    if k == 0 {
      assert Pow2(k) == 1;
    } else if x == 0 {
      ModSmall(0, Pow2(k));
    } else {
      MaskIsMod(x / 2, k - 1);
      LowBits(x, Pow2(k - 1));
      var mask := Pow2(k) - 1;
      assert mask / 2 == Pow2(k - 1) - 1 && mask % 2 == 1;
    }
  }

  /** The low bits of x are twice the low bits of x / 2, one fewer, and its last bit. */
  lemma LowBits(x: nat, half: nat)
    requires half > 0
    ensures x % (2 * half) == 2 * (x / 2 % half) + x % 2
  {
    var q, r := x / 2 / half, x / 2 % half;
    assert x / 2 == half * q + r;
    MulAssociates(2, half, q);
    ModUnique(x, 2 * half, q, 2 * r + x % 2);
  }

  lemma ModSmall(x: nat, m: nat)
    requires x < m
    ensures x % m == x
  {
  }

  /** Division with remainder is unique. */
  lemma ModUnique(x: int, m: nat, q: int, r: int)
    requires m > 0 && 0 <= r < m
    requires x == q * m + r || x == m * q + r
    ensures x % m == r && x / m == q
  {
    var d := x / m - q;
    assert x == (x / m) * m + x % m;
    assert d * m == r - x % m;
    NonzeroMultiple(d, m);
  }

  lemma NonzeroMultiple(d: int, m: nat)
    ensures d >= 1 ==> d * m >= m
    ensures d <= -1 ==> d * m <= 0 - m
  {
    assert d * m == m + (d - 1) * m == (d + 1) * m - m;
  }

  /** Two numbers less than m apart never fall on the same residue. */
  lemma ModDistinct(a: nat, b: nat, m: nat)
    requires m > 0 && a < b < a + m
    ensures a % m != b % m
  {
    if a % m == b % m {
      ModUnique(b - a, m, b / m - a / m, 0);
      ModUnique(b - a, m, 0, b - a);
    }
  }

  lemma ModOfMultiple(x: nat, p: nat, m: nat)
    requires p > 0 && m > 0 && p * m > 0
    ensures (x % (p * m)) % m == x % m
  {
    var q, y := x / (p * m), x % (p * m);
    assert x == (p * m) * q + y;
    assert (p * m) * q == (q * p) * m;
    assert y == (y / m) * m + y % m;
    assert (q * p) * m + (y / m) * m == (q * p + y / m) * m;
    ModUnique(x, m, q * p + y / m, y % m);
  }

  /** Reducing modulo 2^64 first does not change the low k <= 64 bits. */
  lemma ModOfWord(x: nat, k: nat)
    requires k <= 64
    ensures (x % WORD) % Pow2(k) == x % Pow2(k)
  {
    Pow2Is64();
    Pow2Sum(64 - k, k);
    ModOfMultiple(x, Pow2(64 - k), Pow2(k));
  }

  lemma CapacityFits(k: nat)
    requires k <= 63
    ensures 0 < Pow2(k) < WORD
  {
    Pow2Is64();
    Pow2Monotone(k, 63);
  }

  /** n equal amounts, added up in a 64-bit word. */
  function WordSum(n: nat, each: nat): nat {
    if n == 0 then 0 else AddWord(WordSum(n - 1, each), each)
  }

  lemma {:induction false} WordSumIsProduct(n: nat, each: nat)
    ensures WordSum(n, each) == n * each % WORD
  {
    if n > 0 {
      WordSumIsProduct(n - 1, each);
      var x := (n - 1) * each;
      var y := x % WORD + each;
      assert n * each == x + each;
      ModUnique(n * each, WORD, x / WORD + y / WORD, y % WORD);
    }
  }

  lemma AddWordAssociates(x: nat, y: nat, z: nat)
    ensures AddWord(AddWord(x, y), z) == AddWord(x, AddWord(y, z))
  {
    var a, b := (x + y) / WORD, (y + z) / WORD;
    ModUnique(AddWord(x, y) + z, WORD, (x + y + z) / WORD - a, (x + y + z) % WORD);
    ModUnique(x + AddWord(y, z), WORD, (x + y + z) / WORD - b, (x + y + z) % WORD);
  }

  lemma {:induction false} WordSumAdds(m: nat, n: nat, each: nat)
    ensures WordSum(m + n, each) == AddWord(WordSum(m, each), WordSum(n, each))
  {
    if n == 0 {
      WordSumIsWord(m, each);
    } else {
      WordSumAdds(m, n - 1, each);
      AddWordAssociates(WordSum(m, each), WordSum(n - 1, each), each);
    }
  }

  lemma OneMoreSummand(n: nat, each: nat)
    ensures WordSum(n + 1, each) == AddWord(WordSum(n, each), each)
  {
  }

  lemma WordSumIsWord(n: nat, each: nat)
    ensures WordSum(n, each) < WORD
  {
  }
}
