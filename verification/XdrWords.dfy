/**
 The integers of xdr.h and xdr.c as bytes: big-endian 32-bit words, two's complement, and
 64-bit values split into words and joined again by shifts, masks and an or.
 */
module XdrWords {
  import opened Basics

  const TWO_32: nat := 0x1_0000_0000
  const TWO_64: nat := 0x1_0000_0000_0000_0000
  const UINT32_MAX: nat := 0xffff_ffff

  /** The four bytes of htonl(n), in memory order. */
  function Word(n: nat): (r: Bytes)
    requires n < TWO_32
    ensures |r| == 4
  {
    [n / 0x100_0000, n / 0x1_0000 % 256, n / 0x100 % 256, n % 256]
  }

  /** The word of (uint32_t)n: two's complement for a negative n. */
  function CastWord(n: int): (r: Bytes)
    ensures |r| == 4
  {
    if 0 <= n < TWO_32 then Word(n) else Word(n % TWO_32)
  }

  lemma CastIsMod(n: int)
    ensures CastWord(n) == Word(n % TWO_32)
  {
  }

  function Unword(b: Bytes): (r: nat)
    requires |b| == 4
    ensures r < TWO_32
  {
    b[0] as nat * 0x100_0000 + b[1] as nat * 0x1_0000 + b[2] as nat * 0x100 + b[3]
  }

  lemma UnwordWord(n: nat)
    requires n < TWO_32
    ensures Unword(Word(n)) == n
  {
    var n1 := n / 256;
    var n2 := n1 / 256;
    DivideTwice(n, 256, 256);
    DivideTwice(n, 0x1_0000, 256);
    assert n == n1 * 256 + n % 256 && n1 == n2 * 256 + n1 % 256 && n2 == n2 / 256 * 256 + n2 % 256;
  }

  lemma WordUnword(b: Bytes)
    requires |b| == 4
    ensures Word(Unword(b)) == b
  {
    var n := Unword(b);
    assert n / 0x100 == b[0] as nat * 0x1_0000 + b[1] as nat * 0x100 + b[2];
    assert n / 0x1_0000 == b[0] as nat * 0x100 + b[1];
    assert n / 0x100_0000 == b[0];
  }

  // ----- shifts and masks, on two's complement integers of any width

  function Pow2(k: nat): nat {
    if k == 0 then 1 else 2 * Pow2(k - 1)
  }

  /** a | b, bit by bit; a may be negative. */
  function BitOr(a: int, b: nat): int
    decreases b
  {
    if b == 0 then a else 2 * BitOr(a / 2, b / 2) + (if a % 2 == 1 || b % 2 == 1 then 1 else 0)
  }

  /** a & b, bit by bit; a may be negative. */
  function BitAnd(a: int, b: nat): nat
    decreases b
  {
    if b == 0 then 0 else 2 * BitAnd(a / 2, b / 2) + (if a % 2 == 1 && b % 2 == 1 then 1 else 0)
  }

  function ShiftRight(a: int, k: nat): int
    decreases k
  {
    if k == 0 then a else ShiftRight(a / 2, k - 1)
  }

  function ShiftLeft(a: int, k: nat): int
    decreases k
  {
    if k == 0 then a else ShiftLeft(a * 2, k - 1)
  }

  /** Bit i of a value of any width. */
  function Bit(a: int, i: nat): bool {
    ShiftRight(a, i) % 2 == 1
  }

  lemma {:induction false} OrOfBits(a: int, b: nat, i: nat)
    ensures Bit(BitOr(a, b), i) <==> Bit(a, i) || Bit(b, i)
    decreases i
  {
    if b == 0 {
      ZeroBits(i);
    } else if i > 0 {
      OrOfBits(a / 2, b / 2, i - 1);
      HalfOfDouble(BitOr(a / 2, b / 2), if a % 2 == 1 || b % 2 == 1 then 1 else 0);
    } else {
      HalfOfDouble(BitOr(a / 2, b / 2), if a % 2 == 1 || b % 2 == 1 then 1 else 0);
    }
  }

  lemma HalfOfDouble(m: int, c: nat)
    requires c < 2
    ensures (2 * m + c) / 2 == m && (2 * m + c) % 2 == c
  {
  }

  lemma {:induction false} AndOfBits(a: int, b: nat, i: nat)
    ensures Bit(BitAnd(a, b), i) <==> Bit(a, i) && Bit(b, i)
    decreases i
  {
    if b == 0 {
      ZeroBits(i);
    } else if i > 0 {
      AndOfBits(a / 2, b / 2, i - 1);
      HalfOfDouble(BitAnd(a / 2, b / 2), if a % 2 == 1 && b % 2 == 1 then 1 else 0);
    } else {
      HalfOfDouble(BitAnd(a / 2, b / 2), if a % 2 == 1 && b % 2 == 1 then 1 else 0);
    }
  }

  lemma {:induction false} ZeroBits(i: nat)
    ensures !Bit(0, i)
    decreases i
  {
    if i > 0 {
      ZeroBits(i - 1);
    }
  }

  /** Clearing the bit that a value's last halving drops loses nothing else. */
  lemma HalfMod(a: int, m: nat)
    requires m > 0
    ensures a % (2 * m) == 2 * (a / 2 % m) + a % 2
  {
    var q, r := a / 2 / m, a / 2 % m;
    assert a == 2 * (q * m + r) + a % 2;
    assert 2 * (q * m + r) == q * (2 * m) + 2 * r;
    ModIs(a, 2 * m, q, 2 * r + a % 2);
  }

  lemma ModIs(a: int, m: nat, q: int, r: int)
    requires m > 0 && a == q * m + r && 0 <= r < m
    ensures a % m == r && a / m == q
  {
    var d := a / m - q;
    assert a / m * m == d * m + q * m;
    assert d * m == r - a % m;
    Multiple(d, m);
  }

  lemma Multiple(d: int, m: int)
    requires m > 0
    ensures d > 0 ==> d * m >= m
    ensures d < 0 ==> d * m <= 0 - m
  {
  }

  /** Masking with k ones takes the remainder modulo two to the k. */
  lemma {:induction false} MaskIsMod(a: int, k: nat)
    ensures Pow2(k) > 0 && BitAnd(a, Pow2(k) - 1) == a % Pow2(k)
    decreases k
  {
    if k > 0 {
      MaskIsMod(a / 2, k - 1);
      HalfMod(a, Pow2(k - 1));
      if k > 1 {
        assert (Pow2(k) - 1) / 2 == Pow2(k - 1) - 1;
      }
    }
  }

  lemma {:induction false} ShiftLeftIsTimes(a: int, k: nat)
    ensures ShiftLeft(a, k) == a * Pow2(k)
    decreases k
  {
    if k > 0 {
      ShiftLeftIsTimes(a * 2, k - 1);
      assert a * 2 * Pow2(k - 1) == a * (2 * Pow2(k - 1));
    }
  }

  lemma OrOfDouble(m: int, b: nat)
    requires b > 0
    ensures BitOr(2 * m, b) == 2 * BitOr(m, b / 2) + b % 2
  {
    assert 2 * m / 2 == m && 2 * m % 2 == 0;
  }

  /** An or with bits below those of a shifted value is a sum. */
  lemma {:induction false} OrIsPlus(a: int, k: nat, b: nat)
    requires b < Pow2(k)
    ensures BitOr(a * Pow2(k), b) == a * Pow2(k) + b
    decreases k
  {
    if b > 0 {
      var m := a * Pow2(k - 1);
      OrIsPlus(a, k - 1, b / 2);
      assert a * Pow2(k) == 2 * m;
      OrOfDouble(m, b);
    }
  }

  lemma ShiftsAreThirtyTwo(a: int)
    ensures ShiftRight(a, 32) == a / TWO_32 && Pow2(32) == TWO_32
  {
    ShiftRightIsDiv(a, 32);
    PowsMultiply(16);
    PowsMultiply(8);
    PowsMultiply(4);
    assert Pow2(4) == 16;
  }

  lemma {:induction false} PowsMultiply(k: nat)
    ensures Pow2(2 * k) == Pow2(k) * Pow2(k)
    decreases k
  {
    if k > 0 {
      PowsMultiply(k - 1);
      assert Pow2(2 * k) == 4 * Pow2(2 * (k - 1));
      assert (2 * Pow2(k - 1)) * (2 * Pow2(k - 1)) == 4 * (Pow2(k - 1) * Pow2(k - 1));
    }
  }

  lemma {:induction false} ShiftRightIsDiv(a: int, k: nat)
    ensures Pow2(k) > 0 && ShiftRight(a, k) == a / Pow2(k)
    decreases k
  {
    if k > 0 {
      ShiftRightIsDiv(a / 2, k - 1);
      HalfDiv(a, Pow2(k - 1));
    }
  }

  lemma HalfDiv(a: int, m: nat)
    requires m > 0
    ensures a / 2 / m == a / (2 * m)
  {
    var q, r := a / 2 / m, a / 2 % m;
    assert a == 2 * (q * m + r) + a % 2;
    assert 2 * (q * m + r) == q * (2 * m) + 2 * r;
    ModIs(a, 2 * m, q, 2 * r + a % 2);
  }

  // ----- 64-bit values

  /** The upper half, as an int32_t or a uint32_t. */
  function High(n: int): int {
    n / TWO_32
  }

  function Low(n: int): (r: nat)
    ensures r < TWO_32
  {
    n % TWO_32
  }

  function JoinHalves(high: int, low: nat): int {
    high * TWO_32 + low
  }

  /** *data >> 32 and *data & 0xffffffff are the halves, for signed values too. */
  lemma ShiftAndMaskSplit(n: int)
    ensures ShiftRight(n, 32) == High(n) && BitAnd(n, UINT32_MAX) == Low(n)
  {
    ShiftsAreThirtyTwo(n);
    MaskIsMod(n, 32);
  }

  /** (high << 32) | low joins them. */
  lemma ShiftAndOrJoin(high: int, low: nat)
    requires low < TWO_32
    ensures BitOr(ShiftLeft(high, 32), low) == JoinHalves(high, low)
  {
    ShiftsAreThirtyTwo(high);
    ShiftLeftIsTimes(high, 32);
    OrIsPlus(high, 32, low);
  }

  /** Splitting and joining restore every 64-bit value, signed or not. */
  lemma SplitJoin(n: int)
    ensures JoinHalves(High(n), Low(n)) == n
    ensures BitOr(ShiftLeft(ShiftRight(n, 32), 32), BitAnd(n, UINT32_MAX)) == n
    ensures -0x8000_0000_0000_0000 <= n < 0x8000_0000_0000_0000 ==> -0x8000_0000 <= High(n) < 0x8000_0000
    ensures 0 <= n < TWO_64 ==> 0 <= High(n) < TWO_32
  {
    ShiftAndMaskSplit(n);
    ShiftAndOrJoin(High(n), Low(n));
  }

  lemma JoinSplit(high: int, low: nat)
    requires low < TWO_32
    ensures High(JoinHalves(high, low)) == high && Low(JoinHalves(high, low)) == low
  {
  }

  lemma DivideTwice(n: nat, a: nat, b: nat)
    requires a > 0 && b > 0
    ensures a * b > 0 && n / a / b == n / (a * b)
  {
    var q, r := n / a / b, n / a % b;
    assert n == (q * b + r) * a + n % a;
    assert (q * b + r) * a == q * (a * b) + r * a;
    Multiple(b - 1 - r, a);
    assert (b - 1 - r) * a == a * b - a - r * a;
    ModIs(n, a * b, q, r * a + n % a);
  }

  /** Digits of a remainder are digits of the number. */
  lemma DivideRemainder(n: nat, a: nat, b: nat)
    requires a > 0 && b > 0
    ensures a * b > 0 && n % (a * b) / a == n / a % b
  {
    DivideTwice(n, a, b);
    var q, r := n / (a * b), n / a % b;
    assert n / a == q * b + r;
    assert (q * b + r) * a == q * (a * b) + r * a;
    assert n % (a * b) == r * a + n % a;
    ModIs(n % (a * b), a, r, n % a);
  }

  lemma HighWord(m: nat)
    requires m < TWO_64
    ensures Word(m / TWO_32)
         == [m / 0x100_0000_0000_0000, m / 0x1_0000_0000_0000 % 256, m / 0x100_0000_0000 % 256, m / 0x1_0000_0000 % 256]
  {
    DivideTwice(m, TWO_32, 0x100_0000);
    DivideTwice(m, TWO_32, 0x1_0000);
    DivideTwice(m, TWO_32, 0x100);
  }

  lemma LowWord(m: nat)
    ensures Word(m % TWO_32) == [m / 0x100_0000 % 256, m / 0x1_0000 % 256, m / 0x100 % 256, m % 256]
  {
    DivideRemainder(m, 0x100_0000, 0x100);
    DivideRemainder(m, 0x1_0000, 0x1_0000);
    DivideRemainder(m, 0x100, 0x100_0000);
    RemainderTwice(m / 0x1_0000, 0x100, 0x100);
    RemainderTwice(m / 0x100, 0x100, 0x1_0000);
    RemainderTwice(m, 0x100, 0x100_0000);
  }

  lemma RemainderTwice(n: nat, a: nat, b: nat)
    requires a > 0 && b > 0
    ensures a * b > 0 && n % (a * b) % a == n % a
  {
    var q, r := n / (a * b), n % (a * b);
    assert a * b > 0;
    assert n == q * b * a + (r / a * a + r % a);
    ModIs(n, a, q * b + r / a, r % a);
  }

  lemma HalvesModulo(n: int)
    ensures n % TWO_64 / TWO_32 == High(n) % TWO_32 && n % TWO_64 % TWO_32 == Low(n)
  {
    var m := High(n) % TWO_32 * TWO_32 + Low(n);
    ModIs(n, TWO_64, n / TWO_32 / TWO_32, m);
    ModIs(m, TWO_32, High(n) % TWO_32, Low(n));
  }

  /**
   The two words of a 64-bit value are the eight bytes of its two's complement form, the most
   significant one first (section 4.5 of RFC 4506).
   */
  lemma HyperIsBigEndian(n: int)
    requires -0x8000_0000_0000_0000 <= n < 0x1_0000_0000_0000_0000
    ensures var m := n % 0x1_0000_0000_0000_0000;
            CastWord(High(n)) + CastWord(Low(n)) ==
            [m / 0x100_0000_0000_0000, m / 0x1_0000_0000_0000 % 256, m / 0x100_0000_0000 % 256, m / 0x1_0000_0000 % 256,
             m / 0x100_0000 % 256, m / 0x1_0000 % 256, m / 0x100 % 256, m % 256]
  {
    var m := n % TWO_64;
    CastIsMod(High(n));
    HalvesModulo(n);
    HighWord(m);
    LowWord(m);
  }
}
