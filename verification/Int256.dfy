/**
 Signed arithmetic on 256-bit words, as the EVM's SDIV, SMOD and SLT define it (appendix H.2 of the
 Ethereum Yellow Paper), and the byte form of a word without leading zeros.
 */
module Int256 {
  import opened Wrappers

  const HALF: int := 0x8000000000000000000000000000000000000000000000000000000000000000
  const MODULUS: int := 2 * HALF
  const MIN: int := -HALF

  /** A word below 2 to the 256; arithmetic that leaves the range panics in the program. */
  type Word = w: nat | w < MODULUS

  datatype Ordering = Less | Equal | Greater

  /** The two's-complement reading. */
  function Signed(w: Word): int {
    if w < HALF then w else w - MODULUS
  }

  /** The most significant of the four 64-bit limbs. */
  function TopLimb(w: Word): nat {
    w / 0x1_0000000000000000_0000000000000000_0000000000000000
  }

  function AsI64(x: nat): int {
    if x < 0x8000000000000000 then x else x - 0x1_0000000000000000
  }

  /** The top limb read as a signed number tells the sign of the word. */
  predicate IsNegative(w: Word)
    ensures IsNegative(w) <==> Signed(w) < 0
  {
    AsI64(TopLimb(w)) < 0
  }

  function Not(w: Word): Word { MODULUS - 1 - w }

  /** Negation never overflows on the way and wraps only the least value, onto itself. */
  function Neg(w: Word): (r: Word)
    ensures Signed(r) == if Signed(w) == MIN then MIN else -Signed(w)
    ensures r == 0 <==> w == 0
  {
    if w == 0 then 0 else Not(w) + 1
  }

  function CmpBool(a: bool, b: bool): Ordering {
    if a == b then Equal else if a then Greater else Less
  }

  function CmpWord(a: Word, b: Word): Ordering {
    if a < b then Less else if a == b then Equal else Greater
  }

  /** The signed order. */
  function Cmp(a: Word, b: Word): (r: Ordering)
    ensures r == Less <==> Signed(a) < Signed(b)
    ensures r == Equal <==> Signed(a) == Signed(b)
    ensures r == Greater <==> Signed(a) > Signed(b)
  {
    match CmpBool(IsNegative(b), IsNegative(a))
    case Equal => CmpWord(a, b)
    case sign => sign
  }

  function Abs(x: int): nat { if x < 0 then -x else x }

  /** Division of integers rounding toward zero, and 0 for a zero divisor. */
  function Quot(x: int, y: int): int {
    if y == 0 then 0
    else if (x < 0) == (y < 0) then Abs(x) / Abs(y)
    else -(Abs(x) / Abs(y))
  }

  /** The remainder of that division, with the sign of the dividend. */
  function Rem(x: int, y: int): int {
    if y == 0 then 0
    else if x < 0 then -(Abs(x) % Abs(y))
    else Abs(x) % Abs(y)
  }

  /** The one quotient that does not fit: the least value divided by -1 wraps onto itself. */
  function WrappedQuot(x: int, y: int): int {
    if x == MIN && y == -1 then MIN else Quot(x, y)
  }

  /** A non-negative word for the magnitude of a signed one. */
  lemma Magnitude(w: Word, m: Word)
    requires m == if IsNegative(w) then Neg(w) else w
    ensures m == Abs(Signed(w)) <= HALF
  {
  }

  lemma ProductBound(y: nat, q: nat, k: nat)
    requires k <= y
    ensures k * q <= y * q
  {
  }

  lemma QuotientBounds(x: nat, y: nat)
    requires y > 0
    ensures 0 <= x / y <= x && (y > 1 && x > 0 ==> x / y < x) && 0 <= x % y < y && x % y <= x
  {
    var q := x / y;
    assert x == y * q + x % y;
    ProductBound(y, q, 1);
    if y > 1 { ProductBound(y, q, 2); }
  }

  method Div(a: Word, b: Word) returns (r: Word)
    ensures Signed(r) == WrappedQuot(Signed(a), Signed(b))
  {
    if a == 0 || b == 0 {
      assert a == 0 && b != 0 ==> 0 / Abs(Signed(b)) == 0;
      return 0;
    }
    var first, second := a, b;
    var firstNeg, secondNeg := IsNegative(first), IsNegative(second);
    if firstNeg { first := Neg(first); }
    if secondNeg { second := Neg(second); }
    Magnitude(a, first);
    Magnitude(b, second);
    QuotientBounds(first, second);
    var d: Word := first / second;
    if d == 0 || firstNeg == secondNeg {
      r := d;
    } else {
      r := Neg(d);
    }
  }

  method Mod(a: Word, b: Word) returns (r: Word)
    ensures Signed(r) == Rem(Signed(a), Signed(b))
  {
    if a == 0 || b == 0 {
      assert a == 0 && b != 0 ==> 0 % Abs(Signed(b)) == 0;
      return 0;
    }
    var first, second := a, b;
    var negative := IsNegative(first);
    if negative { first := Neg(first); }
    if IsNegative(second) { second := Neg(second); }
    Magnitude(a, first);
    Magnitude(b, second);
    QuotientBounds(first, second);
    var m: Word := first % second;
    if negative && m != 0 {
      r := Neg(m);
    } else {
      r := m;
    }
  }

  // ----- Division with remainder ---------------------------------------------------------------

  lemma QuotRem(x: int, y: int)
    requires y != 0
    ensures x == y * Quot(x, y) + Rem(x, y)
  {
  }

  lemma Congruent(x: int, w: Word, t: int)
    requires x == w + MODULUS * t
    ensures x % MODULUS == w
  {
  }

  /** The multiple of the modulus between a word and its signed reading. */
  function Offset(w: Word): int { if w < HALF then 0 else 1 }

  /** For words: dividend is divisor times quotient plus remainder, modulo 2 to the 256, also where the quotient wraps. */
  lemma DivModReconstructs(a: Word, b: Word, d: Word, m: Word)
    requires b != 0
    requires Signed(d) == WrappedQuot(Signed(a), Signed(b)) && Signed(m) == Rem(Signed(a), Signed(b))
    ensures (b * d + m) % MODULUS == a
  {
    var x, y, q, r := Signed(a), Signed(b), Signed(d), Signed(m);
    QuotRem(x, y);
    var wrap := if x == MIN && y == -1 then 1 else 0;
    assert y * q + r == x + MODULUS * wrap by {
      if wrap == 1 { assert Quot(x, y) == HALF; }
    }
    ProductOffset(b, d);
    var t := y * Offset(d) + q * Offset(b) + MODULUS * (Offset(b) * Offset(d)) + Offset(m) - Offset(a) + wrap;
    assert b * d + m == a + MODULUS * t by {
      Distribute(y * Offset(d), q * Offset(b), MODULUS * (Offset(b) * Offset(d)), Offset(m) - Offset(a) + wrap);
    }
    Congruent(b * d + m, a, t);
  }

  lemma Distribute(p: int, q: int, r: int, s: int)
    ensures MODULUS * (p + q + r + s) == MODULUS * p + MODULUS * q + MODULUS * r + MODULUS * s
  {
  }

  lemma ProductOffset(b: Word, d: Word)
    ensures b * d == Signed(b) * Signed(d) + MODULUS * (Signed(b) * Offset(d)) + MODULUS * (Signed(d) * Offset(b))
                     + MODULUS * (MODULUS * (Offset(b) * Offset(d)))
  {
  }

  // ----- The byte form -------------------------------------------------------------------------

  type Byte = b: int | 0 <= b < 256

  datatype DecodeError = TooLong(length: nat)

  function Pow256(n: nat): nat {
    if n == 0 then 1 else 256 * Pow256(n - 1)
  }

  /** The `n` low bytes of a number, most significant first. */
  function BigEndian(w: nat, n: nat): (v: seq<Byte>)
    ensures |v| == n
  {
    if n == 0 then [] else BigEndian(w / 256, n - 1) + [w % 256]
  }

  function FromBigEndian(v: seq<Byte>): nat {
    if v == [] then 0 else 256 * FromBigEndian(v[..|v| - 1]) + v[|v| - 1]
  }

  /** The bytes without their leading zeros. */
  function Zeroless(v: seq<Byte>): seq<Byte> {
    if v != [] && v[0] == 0 then Zeroless(v[1..]) else v
  }

  /** Counts the leading zeros and takes the rest. */
  method ZerolessView(v: seq<Byte>) returns (r: seq<Byte>)
    ensures r == Zeroless(v)
  {
    var count := 0;
    while count < |v| && v[count] == 0
      invariant 0 <= count <= |v|
      invariant Zeroless(v[count..]) == Zeroless(v)
    {
      count := count + 1;
    }
    return v[count..];
  }

  function Serialize(w: Word): seq<Byte> { Zeroless(BigEndian(w, 32)) }

  function Deserialize(v: seq<Byte>): Result<nat, DecodeError> {
    if |v| > 32 then Err(TooLong(|v|)) else Ok(FromBigEndian(v))
  }

  lemma {:induction false} FromBigEndianFits(v: seq<Byte>)
    ensures FromBigEndian(v) < Pow256(|v|)
  {
    if v != [] {
      FromBigEndianFits(v[..|v| - 1]);
    }
  }

  lemma {:induction false} FromToBigEndian(w: nat, n: nat)
    requires w < Pow256(n)
    ensures FromBigEndian(BigEndian(w, n)) == w
  {
    if n > 0 {
      FromToBigEndian(w / 256, n - 1);
      var v := BigEndian(w, n);
      assert v[..|v| - 1] == BigEndian(w / 256, n - 1);
    }
  }

  lemma {:induction false} ToFromBigEndian(v: seq<Byte>)
    ensures BigEndian(FromBigEndian(v), |v|) == v
  {
    if v != [] {
      ToFromBigEndian(v[..|v| - 1]);
    }
  }

  /** Leading zeros do not count. */
  lemma {:induction false} LeadingZero(v: seq<Byte>)
    requires v != [] && v[0] == 0
    ensures FromBigEndian(v) == FromBigEndian(v[1..])
  {
    if |v| > 1 {
      LeadingZero(v[..|v| - 1]);
      assert v[..|v| - 1][1..] == v[1..][..|v| - 2];
    } else {
      assert v[1..] == [] && v[..0] == [];
    }
  }

  lemma {:induction false} ZerolessSame(v: seq<Byte>)
    ensures FromBigEndian(Zeroless(v)) == FromBigEndian(v)
    ensures |Zeroless(v)| <= |v|
    ensures Zeroless(v) != [] ==> Zeroless(v)[0] != 0
  {
    if v != [] && v[0] == 0 {
      LeadingZero(v);
      ZerolessSame(v[1..]);
    }
  }

  /** Padding with zeros in front is undone by stripping. */
  lemma {:induction false} ZerolessPadded(v: seq<Byte>, n: nat)
    requires |v| <= n
    ensures Zeroless(BigEndian(FromBigEndian(v), n)) == Zeroless(v)
    decreases n - |v|
  {
    if |v| == n {
      ToFromBigEndian(v);
    } else {
      var padded := [0] + v;
      LeadingZero(padded);
      assert padded[1..] == v;
      ZerolessPadded(padded, n);
    }
  }

  lemma {:induction false} Pow256Add(m: nat, n: nat)
    ensures Pow256(m + n) == Pow256(m) * Pow256(n)
  {
    if m > 0 {
      Pow256Add(m - 1, n);
    }
  }

  lemma {:induction false} Pow256Doubled(n: nat, p: int)
    requires Pow256(n) == p
    ensures Pow256(2 * n) == p * p
  {
    Pow256Add(n, n);
  }

  lemma WordsHave32Bytes()
    ensures Pow256(32) == MODULUS
  {
    Pow256Doubled(1, 0x100);
    Pow256Doubled(2, 0x1_0000);
    Pow256Doubled(4, 0x1_0000_0000);
    Pow256Doubled(8, 0x1_0000_0000_0000_0000);
    Pow256Doubled(16, 0x1_0000_0000_0000_0000_0000_0000_0000_0000);
  }

  /** Every word survives its byte form, which has at most 32 bytes and no leading zero. */
  lemma SerializeRoundTrip(w: Word)
    ensures Deserialize(Serialize(w)) == Ok(w)
    ensures Serialize(w) != [] ==> Serialize(w)[0] != 0
  {
    WordsHave32Bytes();
    FromToBigEndian(w, 32);
    ZerolessSame(BigEndian(w, 32));
  }

  lemma {:induction false} Pow256Grows(m: nat, n: nat)
    requires m <= n
    ensures Pow256(m) <= Pow256(n)
    decreases n
  {
    if m < n {
      Pow256Grows(m, n - 1);
    }
  }

  lemma DecodedIsAWord(v: seq<Byte>)
    requires |v| <= 32
    ensures FromBigEndian(v) < MODULUS
  {
    WordsHave32Bytes();
    FromBigEndianFits(v);
    Pow256Grows(|v|, 32);
  }

  /** Bytes that decode, decode to a word, and encoding it gives them back without their leading zeros. */
  lemma {:induction false} DeserializeRoundTrip(v: seq<Byte>)
    ensures Deserialize(v).Ok? <==> |v| <= 32
    ensures Deserialize(v).Ok? ==> Deserialize(v).value < MODULUS && Serialize(Deserialize(v).value) == Zeroless(v)
  {
    if |v| <= 32 {
      DecodedIsAWord(v);
      ZerolessPadded(v, 32);
    }
  }
}
