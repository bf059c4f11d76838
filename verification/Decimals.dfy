/** Three representations of one decimal: text, an integer scaled by 10^8, and 16 little-endian bytes. */
module Decimals {
  import opened Words
  import opened DecimalText
  import Delimited

  const SCALE_DIGITS: nat := 8

  /** index + 17 on a 64-bit size_t. */
  function Tail(index: nat): nat {
    AddWord(index, 17)
  }

  function FractionText(index: nat): string {
    "000000" + Digits(Tail(index))
  }

  function Text(index: nat): string {
    "12345." + FractionText(index)
  }

  function ScaledValue(index: nat): nat {
    AddWord(1_234_500_000_000, Tail(index))
  }

  // ---- What the representations denote

  /** whole.fraction denotes value / 10^8, both brought to integers. */
  ghost predicate Denotes(whole: nat, fraction: string, value: nat)
    requires AllDigits(fraction)
  {
    (whole * Pow10(|fraction|) + Value(fraction)) * Pow10(SCALE_DIGITS) == value * Pow10(|fraction|)
  }

  lemma {:induction false} ValueAfterZeros(zeros: string, digits: string)
    requires AllDigits(digits) && forall i :: 0 <= i < |zeros| ==> zeros[i] == '0'
    ensures AllDigits(zeros + digits) && Value(zeros + digits) == Value(digits)
    decreases |zeros| + |digits|
  {
    if digits == "" {
      assert zeros + digits == zeros;
      if zeros != "" {
        ValueAfterZeros(zeros[..|zeros| - 1], "");
        assert zeros[..|zeros| - 1] + "" == zeros[..|zeros| - 1];
      }
    } else {
      assert (zeros + digits)[..|zeros + digits| - 1] == zeros + digits[..|digits| - 1];
      ValueAfterZeros(zeros, digits[..|digits| - 1]);
    }
  }

  lemma Pow10Sum(j: nat, k: nat)
    ensures Pow10(j + k) == Pow10(j) * Pow10(k)
  {
    if j > 0 {
      Pow10Sum(j - 1, k);
      MulAssociates(10, Pow10(j - 1), Pow10(k));
      assert Pow10(j + k) == 10 * Pow10(j - 1 + k);
    }
  }

  /** The text is the decimal of the scaled integer exactly when the number behind the zeros is zero or
    has two digits, over all 64-bit indices, wrap-around included.  With less it stands for a tenth of
    the place it should have, with more for a hundredth and below. */
  lemma TextDenotesScaledValue(index: nat)
    requires index < WORD
    ensures AllDigits(FractionText(index))
    ensures Denotes(12345, FractionText(index), ScaledValue(index)) <==> Tail(index) == 0 || 10 <= Tail(index) <= 99
  {
    var w, n := Tail(index), |Digits(Tail(index))|;
    ValueAfterZeros("000000", Digits(w));
    ValueOfDigits(w);
    assert FractionText(index) == "000000" + Digits(w) && |FractionText(index)| == 6 + n;
    Pow10Sum(6, n);
    assert Pow10(6) == 1_000_000 && Pow10(8) == 100 * Pow10(6);
    DigitCount(w, 1);
    DigitCount(w, 2);
    assert Pow10(1) == 10 && Pow10(2) == 100;
    Compare(w, n, Pow10(n), ScaledValue(index));
  }

  /** The comparison, with p = 10^n for the n digits of w. */
  lemma Compare(w: nat, n: nat, p: nat, scaled: nat)
    requires w < WORD && p == Pow10(n) && n >= 1
    requires (n == 1 <==> w < 10) && (n <= 2 <==> w < 100)
    requires scaled == AddWord(1_234_500_000_000, w)
    ensures (12345 * (1_000_000 * p) + w) * 100_000_000 == scaled * (1_000_000 * p) <==> w == 0 || 10 <= w <= 99
  {
    assert (12345 * (1_000_000 * p) + w) * 100_000_000 == 1_000_000 * (1_234_500_000_000 * p + 100 * w);
    assert scaled * (1_000_000 * p) == 1_000_000 * (scaled * p);
    if n == 1 {
      assert p == 10;
    } else if n == 2 {
      assert Pow10(2) == 10 * Pow10(1) && Pow10(1) == 10 * Pow10(0);
      assert p == 100;
    } else {
      assert Pow10(n) == 10 * Pow10(n - 1) && Pow10(n - 1) == 10 * Pow10(n - 2) && Pow10(n - 2) == 10 * Pow10(n - 3);
      assert p >= 1000;
      if scaled >= 1_234_500_000_000 {
        MulDistributes(1_234_500_000_000, scaled - 1_234_500_000_000, p);
        NonzeroMultiple(scaled - 1_234_500_000_000, p);
        Larger(w, p);
      } else {
        Smaller(scaled, p);
      }
    }
  }

  lemma Larger(w: nat, p: nat)
    requires p >= 1000 && w >= 100
    ensures w * p > 100 * w
  {
    MulDistributes(p - 1000, 1000, w);
    assert w * p == p * w == (p - 1000) * w + 1000 * w;
  }

  lemma Smaller(scaled: nat, p: nat)
    requires scaled < 1_234_500_000_000
    ensures scaled * p <= 1_234_500_000_000 * p
  {
    MulDistributes(scaled, 1_234_500_000_000 - scaled, p);
  }

  /** The same of the whole text, split at its point, with the index as the caller gives it: exactly when
    index + 17 on 64 bits is zero or has two digits. */
  lemma TextSplitsAtPoint(index: nat)
    requires index < WORD
    ensures var parts, w := Delimited.SplitOn(Text(index), '.'), (index + 17) % 0x1_0000_0000_0000_0000;
            && |parts| == 2 && AllDigits(parts[0]) && AllDigits(parts[1])
            && (Denotes(Value(parts[0]), parts[1], ScaledValue(index)) <==> w == 0 || 10 <= w <= 99)
  {
    var fraction := FractionText(index);
    TextDenotesScaledValue(index);
    assert Delimited.Free(["12345", fraction], '.');
    assert Delimited.Join([fraction], '.') == fraction && ["12345", fraction][1..] == [fraction];
    assert "12345." == "12345" + ['.'];
    assert Delimited.Join(["12345", fraction], '.') == Text(index);
    Delimited.SplitOfJoin(["12345", fraction], '.');
    WholePart();
  }

  lemma WholePart()
    ensures AllDigits("12345") && Value("12345") == 12345
  {
    assert "12345"[..4] == "1234" && "1234"[..3] == "123" && "123"[..2] == "12" && "12"[..1] == "1" && "1"[..0] == "";
    assert Value("1") == 1;
    assert Value("12") == 12;
    assert Value("123") == 123;
    assert Value("1234") == 1234;
  }

  // ---- 16 little-endian bytes

  function Pow256(k: nat): (p: nat)
    ensures p > 0
  {
    if k == 0 then 1 else 256 * Pow256(k - 1)
  }

  /** The number that bytes denote, least significant first. */
  function LittleEndian(bytes: seq<byte>): nat {
    if bytes == [] then 0 else bytes[0] as nat + 256 * LittleEndian(bytes[1..])
  }

  lemma {:induction false} LittleEndianAppend(bytes: seq<byte>, b: byte)
    ensures LittleEndian(bytes + [b]) == LittleEndian(bytes) + Pow256(|bytes|) * b
  {
    if bytes == [] {
      assert [b][1..] == [];
    } else {
      assert (bytes + [b])[1..] == bytes[1..] + [b];
      LittleEndianAppend(bytes[1..], b);
      MulAssociates(256, Pow256(|bytes| - 1), b as int);
    }
  }

  /** One more byte of a value: what is left above it shrinks by 256. */
  lemma NextByte(value: nat, k: nat)
    ensures value % Pow256(k + 1) == value % Pow256(k) + Pow256(k) * (value / Pow256(k) % 256)
  {
    var p, q, r := Pow256(k), value / Pow256(k), value % Pow256(k);
    var a, b := q / 256, q % 256;
    var m, low := 256 * p, p * b + r;
    assert value == q * p + r;
    SplitQuotient(p, q, r, a, b);
    ModUnique(value, m, a, low);
  }

  lemma SplitQuotient(p: nat, q: nat, r: nat, a: nat, b: nat)
    requires q == 256 * a + b && b < 256 && r < p
    ensures q * p + r == (256 * p) * a + (p * b + r) && p * b + r < 256 * p
  {
    MulDistributes(256 * a, b, p);
    MulAssociates(256, a, p);
    MulAssociates(256, p, a);
    MulDistributes(b, 255 - b, p);
  }

  lemma Pow256Of8()
    ensures Pow256(8) == WORD
  {
    assert Pow256(4) == 256 * Pow256(3) == 65536 * Pow256(2) == 65536 * 65536;
    assert Pow256(8) == 256 * Pow256(7) == 65536 * Pow256(6) == 65536 * 256 * Pow256(5) == 65536 * 65536 * Pow256(4);
  }

  lemma {:induction false} ZerosAbove(bytes: seq<byte>, n: nat)
    ensures LittleEndian(bytes + seq(n, _ => 0)) == LittleEndian(bytes)
    decreases n
  {
    if n == 0 {
      assert bytes + seq(0, _ => 0 as byte) == bytes;
    } else {
      assert bytes + seq(n, _ => 0 as byte) == (bytes + seq(n - 1, _ => 0 as byte)) + [0];
      LittleEndianAppend(bytes + seq(n - 1, _ => 0 as byte), 0);
      ZerosAbove(bytes, n - 1);
    }
  }

  /** The value shifted right by k bytes and cut to one. */
  function ByteAt(value: nat, k: nat): byte {
    value / Pow256(k) % 256
  }

  lemma OneMoreByte(bytes: seq<byte>, value: nat, k: nat)
    requires |bytes| == k && LittleEndian(bytes) == value % Pow256(k)
    ensures LittleEndian(bytes + [ByteAt(value, k)]) == value % Pow256(k + 1)
  {
    LittleEndianAppend(bytes, ByteAt(value, k));
    NextByte(value, k);
  }

  lemma LowestByte(bytes: seq<byte>)
    requires bytes != []
    ensures LittleEndian(bytes) % 256 == bytes[0] as nat
  {
    ModUnique(LittleEndian(bytes), 256, LittleEndian(bytes[1..]), bytes[0] as nat);
  }

  lemma WholeValue(low: seq<byte>, value: nat)
    requires value < WORD && LittleEndian(low) == value % Pow256(8)
    ensures LittleEndian(low + seq(8, _ => 0 as byte)) == value
  {
    Pow256Of8();
    ModSmall(value, WORD);
    ZerosAbove(low, 8);
  }

  /** The 16 bytes denote the scaled value, the least significant first and the upper eight zero. */
  method Decimal128Bytes(index: nat) returns (bytes: array<byte>)
    requires index < WORD
    ensures fresh(bytes) && bytes.Length == 16
    ensures LittleEndian(bytes[..]) == ScaledValue(index)
    ensures bytes[0] as nat == ScaledValue(index) % 256 && forall j :: 8 <= j < 16 ==> bytes[j] == 0
  {
    var value := ScaledValue(index);
    bytes := new byte[16](_ => 0);
    assert value % Pow256(0) == 0;
    for k := 0 to 8
      invariant LittleEndian(bytes[..k]) == value % Pow256(k)
      invariant forall j :: k <= j < 16 ==> bytes[j] == 0
    {
      OneMoreByte(bytes[..k], value, k);
      bytes[k] := ByteAt(value, k);
      assert bytes[..k + 1] == bytes[..k] + [bytes[k]];
    }
    ghost var low := bytes[..8];
    assert bytes[..] == low + seq(8, _ => 0 as byte);
    WholeValue(low, value);
    LowestByte(bytes[..]);
  }
}
