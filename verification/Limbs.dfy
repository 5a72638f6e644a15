/** Splitting a hex value into field limbs of a fixed bit length. */
module Limbs {
  import opened Arithmetic
  import opened Conversions
  import opened Digits
  import opened Sparse
  import opened Text

  datatype LimbError = NotHex | TooManyLimbs

  datatype Result<T> = Ok(value: T) | Err(error: LimbError)

  /** Only hex digits, and at least one, after an optional 0x. */
  predicate IsHex(value: string) {
    var digits := Strip0x(value);
    |digits| > 0 && HexDigits(digits, 0)
  }

  /** leftPadBits; None stands for the error thrown on a text that is too long. */
  function LeftPadBits(bitStr: string, n: nat): Option<string> {
    if |bitStr| > n then None else Some(ZeroText(n - |bitStr|) + bitStr)
  }

  /** Chunks of n bits, cut from the right; the left-most one is padded. */
  function SplitAndPadBits(bitStr: string, n: nat): (chunks: seq<string>)
    requires n >= 1
    ensures |chunks| >= 1
  {
    if |bitStr| <= n then [LeftPadBits(bitStr, n).value]
    else SplitAndPadBits(bitStr[..|bitStr| - n], n) + [bitStr[|bitStr| - n..]]
  }

  lemma DivBounds(value: nat, m: nat)
    requires m > 0
    ensures value / m >= 0 && 0 <= value % m < m && value == m * (value / m) + value % m
  {
  }

  function Quot(value: nat, m: nat): nat
    requires m > 0
  {
    DivBounds(value, m);
    value / m
  }

  function Rem(value: nat, m: nat): nat
    requires m > 0
  {
    value % m
  }

  lemma QuotRem(value: nat, m: nat)
    requires m > 0
    ensures value == m * Quot(value, m) + Rem(value, m) && Rem(value, m) < m
  {
    DivBounds(value, m);
  }

  /** The k lowest digits of a number in base 2^n, most significant first. */
  function LimbsOf(value: nat, n: nat, k: nat): (limbs: seq<nat>)
    ensures |limbs| == k
    decreases k
  {
    PowPositive(2, n);
    if k == 0 then [] else LimbsOf(Quot(value, Pow(2, n)), n, k - 1) + [Rem(value, Pow(2, n))]
  }

  function DecimalTexts(limbs: seq<nat>): (texts: seq<string>)
    ensures |texts| == |limbs|
  {
    seq(|limbs|, i requires 0 <= i < |limbs| => NumeralString(10, limbs[i]))
  }

  // ----- Texts and numbers ------------------------------------------------------------------

  predicate IsBits(s: string) {
    forall i :: 0 <= i < |s| ==> s[i] == '0' || s[i] == '1'
  }

  lemma {:induction false} BitsParse(s: string)
    requires IsBits(s)
    ensures ParsedDigits(s, 2).Some? && NumberOf(s, 2) < Pow(2, |s|)
  {
    if |s| > 0 {
      BitsParse(s[..|s| - 1]);
      var x := ParsedDigits(s[..|s| - 1], 2).value;
      assert ParsedDigits(s, 2).value[1..] == x;
    }
  }

  /** Appending a part on the right shifts the number by the length of the part. */
  lemma {:induction false} NumberOfConcat(a: string, b: string)
    requires IsBits(a) && IsBits(b)
    ensures NumberOf(a + b, 2) == NumberOf(a, 2) * Pow(2, |b|) + NumberOf(b, 2)
  {
    BitsParse(a);
    BitsParse(a + b);
    BitsParse(b);
    if |b| == 0 {
      assert a + b == a;
    } else {
      var b' := b[..|b| - 1];
      assert (a + b)[..|a + b| - 1] == a + b';
      NumberOfConcat(a, b');
      BitsParse(b');
      BitsParse(a + b');
      LastBit(a + b);
      LastBit(b);
      TwiceProduct(NumberOf(a, 2), Pow(2, |b| - 1));
    }
  }

  lemma LastBit(s: string)
    requires IsBits(s) && |s| > 0
    ensures NumberOf(s, 2) == 2 * NumberOf(s[..|s| - 1], 2) + DigitOf(s[|s| - 1], 2).value
    ensures DigitOf(s[|s| - 1], 2).value < 2
  {
    BitsParse(s);
    BitsParse(s[..|s| - 1]);
    var x := ParsedDigits(s[..|s| - 1], 2).value;
    assert ParsedDigits(s, 2).value[1..] == x;
  }

  lemma {:induction false} PaddedNumber(n: nat, s: string)
    requires IsBits(s)
    ensures IsBits(ZeroText(n) + s) && NumberOf(ZeroText(n) + s, 2) == NumberOf(s, 2)
  {
    ZeroNumber(n);
    NumberOfConcat(ZeroText(n), s);
  }

  lemma {:induction false} ZeroNumber(n: nat)
    ensures IsBits(ZeroText(n)) && NumberOf(ZeroText(n), 2) == 0
  {
    if n > 0 {
      ZeroNumber(n - 1);
      LastBit(ZeroText(n));
      assert ZeroText(n)[..n - 1] == ZeroText(n - 1);
    }
  }

  lemma {:induction false} HexParses(s: string)
    requires HexDigits(s, 0)
    ensures ParsedDigits(s, 16).Some?
  {
    if |s| > 0 { HexParses(s[..|s| - 1]); }
  }

  // ----- Limbs ------------------------------------------------------------------------------

  lemma DivideByPower(v: nat, q: nat, r: nat, m: nat)
    requires r < m && v == q * m + r
    ensures Quot(v, m) == q && Rem(v, m) == r
  {
    QuotRem(v, m);
    hide Quot, Rem;
    var d := q - Quot(v, m);
    assert m * d == m * q - m * Quot(v, m);
    if d > 0 { MulMonotone(m, 1, d); }
    if d < 0 { MulMonotone(m, d, -1); }
  }

  /** Each chunk is a bit text of one number. */
  predicate Denote(chunks: seq<string>, limbs: seq<nat>) {
    |chunks| == |limbs| && forall i :: 0 <= i < |chunks| ==> IsBits(chunks[i]) && NumberOf(chunks[i], 2) == limbs[i]
  }

  /** The chunks of a bit text are the limbs of its number. */
  lemma {:induction false} ChunksAreLimbs(bitStr: string, n: nat)
    requires n >= 1 && IsBits(bitStr)
    ensures var chunks := SplitAndPadBits(bitStr, n); Denote(chunks, LimbsOf(NumberOf(bitStr, 2), n, |chunks|))
    ensures var c := |SplitAndPadBits(bitStr, n)|; NumberOf(bitStr, 2) < Pow(2, n * c)
    ensures var c := |SplitAndPadBits(bitStr, n)|; c > 1 ==> |bitStr| > n * (c - 1)
    decreases |bitStr|
  {
    if |bitStr| <= n {
      OneChunk(bitStr, n);
    } else {
      var hi, lo := bitStr[..|bitStr| - n], bitStr[|bitStr| - n..];
      assert bitStr == hi + lo;
      ChunksAreLimbs(hi, n);
      hide NumberOf, Pow, LimbsOf, IsBits;
      var c := |SplitAndPadBits(hi, n)|;
      AppendChunk(hi, lo, n, c);
      assert n * c == n * (c - 1) + n;
    }
  }

  lemma OneChunk(bitStr: string, n: nat)
    requires |bitStr| <= n && IsBits(bitStr)
    ensures var chunk := LeftPadBits(bitStr, n).value;
            IsBits(chunk) && LimbsOf(NumberOf(bitStr, 2), n, 1) == [NumberOf(chunk, 2)]
    ensures NumberOf(bitStr, 2) < Pow(2, n * 1)
  {
    PaddedNumber(n - |bitStr|, bitStr);
    BitsParse(bitStr);
    PowMonotone(|bitStr|, n);
    hide NumberOf, Pow;
    var v := NumberOf(bitStr, 2);
    DivideByPower(v, 0, v, Pow(2, n));
    hide Quot, Rem;
    assert LimbsOf(0, n, 0) == [];
  }

  lemma AppendChunk(hi: string, lo: string, n: nat, c: nat)
    requires IsBits(hi) && IsBits(lo) && |lo| == n
    requires NumberOf(hi, 2) < Pow(2, n * c)
    ensures LimbsOf(NumberOf(hi + lo, 2), n, c + 1) == LimbsOf(NumberOf(hi, 2), n, c) + [NumberOf(lo, 2)]
    ensures NumberOf(hi + lo, 2) < Pow(2, n * (c + 1))
  {
    NumberOfConcat(hi, lo);
    BitsParse(lo);
    hide NumberOf, Pow;
    var v, m := NumberOf(hi + lo, 2), Pow(2, n);
    DivideByPower(v, NumberOf(hi, 2), NumberOf(lo, 2), m);
    PowSum(n * c, n);
    assert n * (c + 1) == n * c + n;
    LimbBound(NumberOf(hi, 2), NumberOf(lo, 2), m, Pow(2, n * c));
    hide Quot, Rem;
  }

  lemma LimbBound(q: nat, r: nat, m: nat, p: nat)
    requires q < p && r < m
    ensures q * m + r < p * m
  {
    MulMonotone(m, q + 1, p);
    assert (q + 1) * m == q * m + m;
  }

  /** Dropping limbs on the left keeps the lowest ones. */
  lemma {:induction false} LowestLimbs(value: nat, n: nat, c: nat, k: nat)
    requires k <= c
    ensures LimbsOf(value, n, c)[c - k..] == LimbsOf(value, n, k)
    decreases k
  {
    PowPositive(2, n);
    hide Quot, Rem;
    if k > 0 {
      var m := Pow(2, n);
      LowestLimbs(Quot(value, m), n, c - 1, k - 1);
      var low := LimbsOf(Quot(value, m), n, c - 1);
      assert LimbsOf(value, n, c)[c - k..] == low[c - k..] + [Rem(value, m)];
    }
  }

  /** A number that fits c limbs has a zero limb in front of them. */
  lemma {:induction false} LeadingZeroLimb(value: nat, n: nat, c: nat)
    requires value < Pow(2, n * c)
    ensures LimbsOf(value, n, c + 1) == [0] + LimbsOf(value, n, c)
    decreases c
  {
    PowPositive(2, n);
    var m := Pow(2, n);
    if c == 0 {
      assert n * 0 == 0;
      DivideByPower(0, 0, 0, m);
      assert LimbsOf(value, n, 1) == LimbsOf(0, n, 0) + [0];
    } else {
      hide Quot, Rem;
      QuotientFits(value, n, c);
      LeadingZeroLimb(Quot(value, m), n, c - 1);
      assert LimbsOf(value, n, c + 1) == ([0] + LimbsOf(Quot(value, m), n, c - 1)) + [Rem(value, m)];
    }
  }

  lemma QuotientFits(value: nat, n: nat, c: nat)
    requires c > 0 && value < Pow(2, n * c)
    ensures Pow(2, n) > 0 && Quot(value, Pow(2, n)) < Pow(2, n * (c - 1))
  {
    hide Quot, Rem, Pow;
    PowPositive(2, n);
    var m := Pow(2, n);
    QuotRem(value, m);
    assert n * c == n * (c - 1) + n;
    PowSum(n * (c - 1), n);
    if Quot(value, m) >= Pow(2, n * (c - 1)) { MulMonotone(m, Pow(2, n * (c - 1)), Quot(value, m)); }
  }

  /** Big-endian weighted sum of limbs. */
  function WeightedSum(limbs: seq<nat>, n: nat): nat {
    if |limbs| == 0 then 0 else WeightedSum(limbs[..|limbs| - 1], n) * Pow(2, n) + limbs[|limbs| - 1]
  }

  /** Limbs are below 2^n, and their weighted sum is the value modulo 2^(n*k). */
  lemma {:induction false} LimbsMean(value: nat, n: nat, k: nat)
    ensures forall i :: 0 <= i < k ==> LimbsOf(value, n, k)[i] < Pow(2, n)
    ensures Pow(2, n * k) > 0
    ensures WeightedSum(LimbsOf(value, n, k), n) == Rem(value, Pow(2, n * k))
    decreases k
  {
    PowPositive(2, n * k);
    PowPositive(2, n);
    if k == 0 {
      assert n * 0 == 0;
      assert value % 1 == 0;
    } else {
      var m, p := Pow(2, n), Pow(2, n * (k - 1));
      hide Quot, Rem;
      var q := Quot(value, m);
      LimbsMean(q, n, k - 1);
      QuotRem(value, m);
      var limbs := LimbsOf(value, n, k);
      assert limbs[..k - 1] == LimbsOf(q, n, k - 1);
      assert n * k == n * (k - 1) + n;
      PowSum(n * (k - 1), n);
      hide Pow;
      RemOfQuotient(value, m, p);
    }
  }

  lemma RemOfQuotient(value: nat, m: nat, p: nat)
    requires m > 0 && p > 0
    ensures p * m > 0
    ensures Rem(value, p * m) == Rem(Quot(value, m), p) * m + Rem(value, m)
  {
    MulMonotone(m, 1, p);
    hide Quot, Rem;
    var q, r := Quot(value, m), Rem(value, m);
    QuotRem(value, m);
    QuotRem(q, p);
    var a, b := Quot(q, p), Rem(q, p);
    LimbBound(b, r, m, p);
    Reassemble(p, a, b, m);
    DivideByPower(value, a, b * m + r, p * m);
  }

  lemma Reassemble(p: nat, a: nat, b: nat, m: nat)
    ensures m * (p * a + b) == a * (p * m) + b * m
  {
    assert m * (p * a) == a * (p * m);
  }

  // ----- hexToFieldLimbs ---------------------------------------------------------------------

  /** A canonical bit text of a positive number starts with 1. */
  lemma CanonicalBits(v: nat)
    ensures var bits := NumeralString(2, v);
            && IsBits(bits) && NumberOf(bits, 2) == v && |bits| >= 1
            && (v > 0 ==> v >= Pow(2, |bits| - 1)) && (v == 0 ==> |bits| == 1)
  {
    NumeralProperties(2, v);
    TextOfNumeral(2, v);
    if v > 0 {
      var x := Numeral(2, v);
      RenderedBits(x);
      LeadingDigit(x);
    }
  }

  lemma {:induction false} RenderedBits(x: seq<nat>)
    requires Valid(x, 2) && Valid(x, 36)
    ensures IsBits(Render(x)) && |Render(x)| == |x|
  {
    if |x| > 0 { RenderedBits(x[1..]); }
  }

  lemma {:induction false} LeadingDigit(x: seq<nat>)
    requires |x| > 0 && Canonical(x)
    ensures Value(x, 2) >= Pow(2, |x| - 1)
  {
    if |x| > 1 { LeadingDigit(x[1..]); }
  }

  /** A number takes more than k limbs exactly when it is at least 2^(n*k). */
  lemma ChunkCount(v: nat, n: nat, k: nat)
    requires n >= 1 && k >= 1
    ensures |SplitAndPadBits(NumeralString(2, v), n)| > k <==> v >= Pow(2, n * k)
  {
    hide NumeralString, NumberOf, Pow, LimbsOf, SplitAndPadBits, IsBits;
    var bits := NumeralString(2, v);
    CanonicalBits(v);
    ChunksAreLimbs(bits, n);
    var c := |SplitAndPadBits(bits, n)|;
    if c > k {
      MulMonotone(n, k, c - 1);
      MulMonotone(n, 1, k);
      PowMonotone(n * k, |bits| - 1);
    } else {
      MulMonotone(n, c, k);
      PowMonotone(n * c, n * k);
    }
  }

  /** splitHexToBits */
  method SplitHexToBits(hexStr: string, n: nat) returns (bitsArr: seq<string>)
    requires n >= 1 && IsHex(hexStr)
    ensures var v := NumberOf(Strip0x(hexStr), 16);
            && bitsArr == SplitAndPadBits(NumeralString(2, v), n)
            && Denote(bitsArr, LimbsOf(v, n, |bitsArr|)) && v < Pow(2, n * |bitsArr|)
  {
    hide NumeralString, SplitAndPadBits, Pow, LimbsOf, ParsedDigits, AllDigits, Denote, NumberOf;
    HexParses(Strip0x(hexStr));
    ParsedIsNumber(Strip0x(hexStr), 16);
    var bits := ConvertBase(Strip0x(hexStr), 16, 2);
    CanonicalBits(NumberOf(Strip0x(hexStr), 16));
    ChunksAreLimbs(bits.value, n);
    bitsArr := SplitAndPadBits(bits.value, n);
  }

  lemma ParsedIsNumber(s: string, base: nat)
    ensures ParsedDigits(s, base).Some? ==> Value(ParsedDigits(s, base).value, base) == NumberOf(s, base)
  {
  }

  /** binToDec of every chunk. */
  method BinsToDecs(bitsArr: seq<string>, ghost limbs: seq<nat>) returns (decArr: seq<string>)
    requires Denote(bitsArr, limbs)
    ensures decArr == DecimalTexts(limbs)
  {
    hide NumeralString, ParsedDigits, AllDigits, NumberOf, IsBits;
    decArr := [];
    for i := 0 to |bitsArr|
      invariant |decArr| == i
      invariant forall j :: 0 <= j < i ==> decArr[j] == NumeralString(10, limbs[j])
    {
      BitsParse(bitsArr[i]);
      ParsedIsNumber(bitsArr[i], 2);
      var dec := ConvertBase(bitsArr[i], 2, 10);
      decArr := decArr + [dec.value];
    }
  }

  /** hexToFieldLimbs. The limbs are the lowest numberOfLimbs base-2^n digits of the value; a
      value that needs more is an error unless warnings are silenced. */
  method HexToFieldLimbs(hexStr: string, limbBitLength: nat, numberOfLimbs: Option<nat>, silenceWarnings: bool)
    returns (result: Result<seq<string>>)
    requires limbBitLength >= 1
    ensures result == Err(NotHex) <==> !IsHex(hexStr)
    ensures result == Err(NotHex) <==> !HexText(hexStr)
    ensures var v := NumberOf(Strip0x(hexStr), 16);
            var needed := |SplitAndPadBits(NumeralString(2, v), limbBitLength)|;
            IsHex(hexStr) ==>
              result == match numberOfLimbs
                        case None => Ok(DecimalTexts(LimbsOf(v, limbBitLength, needed)))
                        case Some(k) =>
                          if needed > k && !silenceWarnings then Err(TooManyLimbs)
                          else Ok(DecimalTexts(LimbsOf(v, limbBitLength, k)))
  {
    hide LimbsOf, NumeralString, SplitAndPadBits, Pow, NumberOf, IsHex, Denote, HexText;
    IsHexMeans(hexStr);
    if !IsHex(hexStr) {
      return Err(NotHex);
    }
    ghost var v := NumberOf(Strip0x(hexStr), 16);
    var bitsArr := SplitHexToBits(hexStr, limbBitLength);
    ghost var c := |bitsArr|;
    var decArr := BinsToDecs(bitsArr, LimbsOf(v, limbBitLength, c));

    if numberOfLimbs.Some? {
      var k := numberOfLimbs.value;
      if k < |decArr| {
        var overflow := |decArr| - k;
        if !silenceWarnings {
          return Err(TooManyLimbs);
        }
        for i := 0 to overflow
          invariant decArr == DecimalTexts(LimbsOf(v, limbBitLength, c))[i..]
        {
          decArr := decArr[1..];
        }
        LowestLimbs(v, limbBitLength, c, k);
        assert decArr == DecimalTexts(LimbsOf(v, limbBitLength, k));
      } else {
        var missing := k - |decArr|;
        for i := 0 to missing
          invariant decArr == DecimalTexts(LimbsOf(v, limbBitLength, c + i))
        {
          StillFits(v, limbBitLength, c, i);
          LeadingZeroLimb(v, limbBitLength, c + i);
          ZeroIsText();
          decArr := ["0"] + decArr;
        }
      }
    }
    return Ok(decArr);
  }

  /** After an optional 0x there is at least one of the characters 0-9, a-f, A-F, and no other. */
  predicate HexText(hexStr: string) {
    HexCharacters(if "0x" <= hexStr then hexStr[2..] else hexStr)
  }

  predicate HexCharacters(digits: string) {
    digits != "" && forall i :: 0 <= i < |digits| ==> digits[i] in HEX_DIGITS
  }

  lemma IsHexMeans(hexStr: string)
    ensures IsHex(hexStr) <==> HexText(hexStr)
  {
    Strip0xMeans(hexStr);
    hide DigitOf, Strip0x;
    var digits := Strip0x(hexStr);
    if IsHex(hexStr) {
      forall i | 0 <= i < |digits| ensures digits[i] in HEX_DIGITS {
        assert DigitOf(digits[i], 16).Some?;
        HexDigitMeans(digits[i]);
      }
      assert HexText(hexStr);
    }
    if HexText(hexStr) {
      forall i | 0 <= i < |digits| ensures DigitOf(digits[i], 16).Some? {
        assert digits[i] in HEX_DIGITS;
        HexDigitMeans(digits[i]);
      }
      assert IsHex(hexStr);
    }
  }

  lemma ZeroIsText()
    ensures NumeralString(10, 0) == "0"
  {
  }

  lemma StillFits(v: nat, n: nat, c: nat, i: nat)
    requires v < Pow(2, n * c)
    ensures v < Pow(2, n * (c + i))
  {
    MulMonotone(n, c, c + i);
    PowMonotone(n * c, n * (c + i));
  }

  /** What the texts returned by HexToFieldLimbs mean: limbs below 2^n whose weighted sum is the
      value modulo 2^(n*k), hence the value itself when it fits. */
  lemma LimbTextsMean(v: nat, n: nat, k: nat)
    ensures forall i :: 0 <= i < k ==>
              NumberOf(DecimalTexts(LimbsOf(v, n, k))[i], 10) == LimbsOf(v, n, k)[i] < Pow(2, n)
    ensures Pow(2, n * k) > 0
    ensures WeightedSum(LimbsOf(v, n, k), n) == Rem(v, Pow(2, n * k))
    ensures v < Pow(2, n * k) ==> WeightedSum(LimbsOf(v, n, k), n) == v
  {
    hide LimbsOf, WeightedSum, DecimalTexts, NumberOf, Pow, Rem;
    LimbsMean(v, n, k);
    forall i | 0 <= i < k ensures NumberOf(DecimalTexts(LimbsOf(v, n, k))[i], 10) == LimbsOf(v, n, k)[i] {
      TextOfLimb(LimbsOf(v, n, k), i);
    }
    if v < Pow(2, n * k) { DivideByPower(v, 0, v, Pow(2, n * k)); }
  }

  lemma TextOfLimb(limbs: seq<nat>, i: nat)
    requires i < |limbs|
    ensures NumberOf(DecimalTexts(limbs)[i], 10) == limbs[i]
  {
    TextOfNumeral(10, limbs[i]);
  }
}
