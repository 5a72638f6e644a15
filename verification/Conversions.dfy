/** Numerals as text, and the conversion between any two bases from 2 to 36. */
module Conversions {
  import opened Arithmetic
  import opened Digits
  import opened Sparse
  import opened Text

  /** `d.toString(base)` of a single digit. */
  function DigitChar(d: nat): char
    requires d < 36
  {
    if d < 10 then ('0' as int + d) as char else ('a' as int + d - 10) as char
  }

  /** The digits of a text, least significant first; None if a character is not a digit. */
  function ParsedDigits(str: string, base: nat): Option<seq<nat>> {
    if |str| == 0 then Some([])
    else
      var rest := ParsedDigits(str[..|str| - 1], base);
      var d := DigitOf(str[|str| - 1], base);
      if d == None || rest == None then None else Some([d.value] + rest.value)
  }

  /** The number that a text of digits denotes. */
  function NumberOf(s: string, base: nat): nat {
    var x := ParsedDigits(s, base);
    if x == None then 0 else Value(x.value, base)
  }

  /** The digits of a base are the first characters of the two rows of digits. */
  predicate IsDigit(ch: char, base: nat)
    requires base <= 36
  {
    ch in LOWER_DIGITS[..base] || ch in UPPER_DIGITS[..base]
  }

  predicate AllDigits(s: string, base: nat)
    requires base <= 36
  {
    forall i :: 0 <= i < |s| ==> IsDigit(s[i], base)
  }

  /** A text is refused exactly if one of its characters is no digit of the base, in lower or in
      upper case. */
  lemma {:induction false} ParsedExactly(s: string, base: nat)
    requires base <= 36
    ensures ParsedDigits(s, base).Some? <==> AllDigits(s, base)
  {
    hide DigitOf;
    if |s| > 0 {
      var n := |s| - 1;
      ParsedExactly(s[..n], base);
      IsDigitMeans(s[n], base);
      if AllDigits(s[..n], base) {
        forall i | 0 <= i < n ensures IsDigit(s[i], base) { assert IsDigit(s[..n][i], base); }
      }
    }
  }

  /** Reading is positional: a further character d on the right multiplies the number by the base
      and adds the place of d in the row of digits. */
  lemma NumberAppends(s: string, ch: char, base: nat, d: nat)
    requires base <= 36 && ParsedDigits(s, base).Some?
    requires d < base && (LOWER_DIGITS[d] == ch || UPPER_DIGITS[d] == ch)
    ensures NumberOf("", base) == 0
    ensures ParsedDigits(s + [ch], base).Some? && NumberOf(s + [ch], base) == base * NumberOf(s, base) + d
  {
    DigitOfMeans(ch, base, d);
    assert (s + [ch])[..|s|] == s;
    assert ([d] + ParsedDigits(s, base).value)[1..] == ParsedDigits(s, base).value;
  }

  /** Digits, least significant first, written as text. */
  function Render(x: seq<nat>): string
    requires Valid(x, 36)
  {
    if |x| == 0 then "" else Render(x[1..]) + [DigitChar(x[0])]
  }

  /** The canonical text of a number. */
  function NumeralString(base: nat, n: nat): string
    requires 2 <= base <= 36
  {
    NumeralProperties(base, n);
    if n == 0 then "0" else Render(Numeral(base, n))
  }

  /** What convertBase computes: the canonical numeral of the same number. */
  function Converted(str: string, fromBase: nat, toBase: nat): Option<string>
    requires 2 <= toBase <= 36
  {
    var digits := ParsedDigits(str, fromBase);
    if digits == None then None else Some(NumeralString(toBase, Value(digits.value, fromBase)))
  }

  method ParseToDigitsArray(str: string, base: nat) returns (ary: Option<seq<nat>>)
    ensures ary == ParsedDigits(str, base)
  {
    var digits: seq<nat> := [];
    var i := |str|;
    assert str[..i] == str;
    ghost var all := ParsedDigits(str, base);
    if all.Some? { assert digits + all.value == all.value; }
    while i > 0
      invariant 0 <= i <= |str|
      invariant ParsedDigits(str, base)
             == var rest := ParsedDigits(str[..i], base); if rest == None then None else Some(digits + rest.value)
    {
      i := i - 1;
      assert str[..i + 1][..i] == str[..i];
      var n := DigitOf(str[i], base);
      if n == None {
        return None;
      }
      ghost var rest := ParsedDigits(str[..i], base);
      if rest.Some? { assert digits + ([n.value] + rest.value) == (digits + [n.value]) + rest.value; }
      digits := digits + [n.value];
    }
    assert digits + [] == digits;
    return Some(digits);
  }

  lemma {:induction false} ParsedValid(str: string, base: nat)
    requires ParsedDigits(str, base).Some?
    ensures Valid(ParsedDigits(str, base).value, base) && |ParsedDigits(str, base).value| == |str|
  {
    if |str| > 0 { ParsedValid(str[..|str| - 1], base); }
  }

  /** convertBase; null, here None, for a character that is not a digit of the base. */
  method ConvertBase(str: string, fromBase: nat, toBase: nat) returns (result: Option<string>)
    requires 2 <= fromBase <= 36 && 2 <= toBase <= 36
    ensures result == Converted(str, fromBase, toBase)
    ensures result.Some? <==> AllDigits(str, fromBase)
    ensures result.Some? ==> NumberOf(result.value, toBase) == NumberOf(str, fromBase)
  {
    hide Numeral, Value, Pow, DigitOf, ParsedDigits, AllDigits;
    ParsedExactly(str, fromBase);
    var parsed := ParseToDigitsArray(str, fromBase);
    if parsed == None {
      return None;
    }
    var digits := parsed.value;
    ParsedValid(str, fromBase);

    var outArray: seq<nat> := [];
    var power: seq<nat> := [1];
    ConversionStart(digits, fromBase, toBase);
    for i := 0 to |digits|
      invariant Valid(outArray, toBase) && Canonical(outArray) && Canonical(power)
      invariant Value(outArray, toBase) == Value(digits[..i], fromBase)
      invariant Value(power, toBase) == Pow(fromBase, i)
    {
      PrefixValue(digits, i, fromBase);
      if digits[i] != 0 {
        var term := MultiplyByNumber(digits[i], power, toBase);
        outArray := Add(outArray, term.value, toBase);
      }
      NextPower(fromBase, i);
      var next := MultiplyByNumber(fromBase, power, toBase);
      power := next.value;
    }
    assert digits[..|digits|] == digits;
    NumeralUnique(outArray, toBase);
    NumeralProperties(toBase, Value(digits, fromBase));

    var out := WriteDigits(outArray);
    if out == "" {
      NothingWritten(outArray, digits, fromBase, toBase);
      var sum := 0;
      for i := 0 to |digits|
        invariant sum == 0
      {
        sum := sum + digits[i];
      }
      if sum == 0 {
        out := "0";
      }
    } else {
      SomethingWritten(outArray, toBase);
    }
    result := Some(out);
    TextOfNumeral(toBase, Value(digits, fromBase));
  }

  /** The loop of convertBase that writes the digits from the most significant one down. */
  method WriteDigits(outArray: seq<nat>) returns (out: string)
    requires Valid(outArray, 36)
    ensures out == Render(outArray)
  {
    out := "";
    var i := |outArray| - 1;
    while i >= 0
      invariant -1 <= i < |outArray|
      invariant out == Render(outArray[i + 1..])
    {
      assert outArray[i..][1..] == outArray[i + 1..];
      out := out + [DigitChar(outArray[i])];
      i := i - 1;
    }
    assert outArray[0..] == outArray;
  }

  lemma ConversionStart(digits: seq<nat>, fromBase: nat, toBase: nat)
    ensures Value([], toBase) == Value(digits[..0], fromBase) && Value([1], toBase) == Pow(fromBase, 0)
  {
    assert [1][1..] == [];
    assert Value([], toBase) == 0;
  }

  lemma PrefixValue(digits: seq<nat>, i: nat, base: nat)
    requires i < |digits|
    ensures Value(digits[..i + 1], base) == Value(digits[..i], base) + digits[i] * Pow(base, i)
  {
    assert digits[..i + 1] == digits[..i] + [digits[i]];
    ValueSnoc(digits[..i], digits[i], base);
  }

  lemma NextPower(base: nat, i: nat)
    ensures Pow(base, i + 1) == base * Pow(base, i)
  {
  }

  lemma {:induction false} RenderLength(x: seq<nat>)
    requires Valid(x, 36)
    ensures |Render(x)| == |x|
  {
    if |x| > 0 { RenderLength(x[1..]); }
  }

  lemma NothingWritten(outArray: seq<nat>, digits: seq<nat>, fromBase: nat, toBase: nat)
    requires fromBase > 0 && Valid(outArray, 36) && Render(outArray) == ""
    requires Value(outArray, toBase) == Value(digits, fromBase)
    ensures Value(digits, fromBase) == 0
    ensures forall i :: 0 <= i < |digits| ==> digits[i] == 0
  {
    RenderLength(outArray);
    ZeroDigits(digits, fromBase);
  }

  lemma SomethingWritten(outArray: seq<nat>, toBase: nat)
    requires toBase >= 2 && Valid(outArray, 36) && Canonical(outArray) && Render(outArray) != ""
    ensures Value(outArray, toBase) > 0
  {
    if |outArray| > 0 { NonZero(outArray, toBase); }
  }

  lemma {:induction false} ZeroDigits(x: seq<nat>, base: nat)
    requires base > 0 && Value(x, base) == 0
    ensures forall i :: 0 <= i < |x| ==> x[i] == 0
  {
    if |x| > 0 {
      MulMonotone(Value(x[1..], base), 1, base);
      ZeroDigits(x[1..], base);
      forall i | 0 <= i < |x| ensures x[i] == 0 {
        if i > 0 { assert x[i] == x[1..][i - 1]; }
      }
    }
  }

  // ----- There and back ---------------------------------------------------------------------

  function LowerChar(ch: char): char {
    if 'A' <= ch <= 'Z' then (ch as int + 32) as char else ch
  }

  function Lower(s: string): string {
    if |s| == 0 then "" else Lower(s[..|s| - 1]) + [LowerChar(s[|s| - 1])]
  }

  function StripZeros(s: string): string {
    if |s| > 0 && s[0] == '0' then StripZeros(s[1..]) else s
  }

  /** Lower case, no leading zeros, "0" for zero. */
  function CanonicalText(s: string): string {
    var t := StripZeros(Lower(s));
    if t == "" then "0" else t
  }

  function TrimTop(x: seq<nat>): seq<nat> {
    if |x| > 0 && x[|x| - 1] == 0 then TrimTop(x[..|x| - 1]) else x
  }

  lemma DigitText(ch: char, base: nat)
    requires base <= 36 && DigitOf(ch, base).Some?
    ensures DigitChar(DigitOf(ch, base).value) == LowerChar(ch)
  {
  }

  lemma TextDigit(d: nat, base: nat)
    requires d < base <= 36
    ensures DigitOf(DigitChar(d), base) == Some(d)
  {
  }

  /** A digit is written as the character at its place in the row of digits. */
  lemma DigitCharMeans(d: nat)
    requires d < 36
    ensures DigitChar(d) == LOWER_DIGITS[d]
  {
    DigitTables(d);
  }

  /** Upper-case letters are read like lower-case ones. */
  lemma {:induction false} CaseDoesNotMatter(s: string, base: nat)
    requires base <= 36
    ensures ParsedDigits(Lower(s), base) == ParsedDigits(s, base)
  {
    if |s| > 0 {
      CaseDoesNotMatter(s[..|s| - 1], base);
      var l := Lower(s);
      assert l[..|l| - 1] == Lower(s[..|s| - 1]);
    }
  }

  lemma ConversionIgnoresCase(s: string, a: nat, b: nat)
    requires a <= 36 && 2 <= b <= 36
    ensures Converted(Lower(s), a, b) == Converted(s, a, b)
  {
    CaseDoesNotMatter(s, a);
  }

  /** The lower-case letter at the place of an upper-case one. */
  lemma LowerMeans(d: nat)
    requires d < 36
    ensures LowerChar(UPPER_DIGITS[d]) == LOWER_DIGITS[d] == LowerChar(LOWER_DIGITS[d])
  {
    DigitTables(d);
  }

  /** Writing the digits of a text gives the text in lower case. */
  lemma {:induction false} RenderParsed(s: string, base: nat)
    requires base <= 36 && ParsedDigits(s, base).Some?
    ensures Valid(ParsedDigits(s, base).value, 36)
    ensures Render(ParsedDigits(s, base).value) == Lower(s)
  {
    if |s| > 0 {
      RenderParsed(s[..|s| - 1], base);
      DigitText(s[|s| - 1], base);
      var rest := ParsedDigits(s[..|s| - 1], base).value;
      assert ParsedDigits(s, base).value[1..] == rest;
    }
  }

  /** Reading written digits gives them back. */
  lemma {:induction false} ParseRendered(x: seq<nat>, base: nat)
    requires base <= 36 && Valid(x, base)
    ensures Valid(x, 36) && ParsedDigits(Render(x), base) == Some(x)
  {
    if |x| > 0 {
      ParseRendered(x[1..], base);
      TextDigit(x[0], base);
      var s := Render(x);
      assert s[..|s| - 1] == Render(x[1..]);
      assert [x[0]] + x[1..] == x;
    }
  }

  lemma {:induction false} RenderTop(x: seq<nat>)
    requires |x| > 0 && Valid(x, 36)
    ensures Render(x) == [DigitChar(x[|x| - 1])] + Render(x[..|x| - 1])
  {
    if |x| > 1 {
      RenderTop(x[1..]);
      assert x[1..][..|x| - 2] == x[..|x| - 1][1..];
    }
  }

  lemma {:induction false} TrimKeeps(x: seq<nat>, base: nat)
    requires Valid(x, base) && base <= 36
    ensures Valid(TrimTop(x), base) && Canonical(TrimTop(x)) && Value(TrimTop(x), base) == Value(x, base)
    ensures Valid(x, 36) && Valid(TrimTop(x), 36) && Render(TrimTop(x)) == StripZeros(Render(x))
  {
    if |x| > 0 {
      RenderTop(x);
      if x[|x| - 1] == 0 {
        var lower := x[..|x| - 1];
        TrimKeeps(lower, base);
        assert x == lower + [0];
        ValueSnoc(lower, 0, base);
        assert Render(x)[1..] == Render(lower);
      } else {
        assert DigitChar(x[|x| - 1]) != '0';
      }
    }
  }

  /** The canonical numeral of the number that a text denotes is its canonical text. */
  lemma NumeralOfText(s: string, base: nat)
    requires 2 <= base <= 36 && ParsedDigits(s, base).Some?
    ensures NumeralString(base, Value(ParsedDigits(s, base).value, base)) == CanonicalText(s)
  {
    var x := ParsedDigits(s, base).value;
    ParsedValid(s, base);
    RenderParsed(s, base);
    TrimKeeps(x, base);
    NumeralUnique(TrimTop(x), base);
    RenderLength(TrimTop(x));
    if |TrimTop(x)| > 0 { NonZero(TrimTop(x), base); }
  }

  /** The canonical text of a number denotes that number. */
  lemma TextOfNumeral(base: nat, n: nat)
    requires 2 <= base <= 36
    ensures ParsedDigits(NumeralString(base, n), base).Some?
    ensures Value(ParsedDigits(NumeralString(base, n), base).value, base) == n
  {
    NumeralProperties(base, n);
    if n == 0 {
      assert "0" == Render([0]) by { assert Render([0]) == Render([0][1..]) + ['0']; }
      ParseRendered([0], base);
      assert [0][1..] == [];
    } else {
      ParseRendered(Numeral(base, n), base);
    }
  }

  /** Converting to another base and back gives the canonical form of the input, and the
      conversion keeps the number. */
  lemma RoundTrip(s: string, a: nat, b: nat)
    requires 2 <= a <= 36 && 2 <= b <= 36 && ParsedDigits(s, a).Some?
    ensures var there := Converted(s, a, b);
            && there.Some? && ParsedDigits(there.value, b).Some?
            && Value(ParsedDigits(there.value, b).value, b) == Value(ParsedDigits(s, a).value, a)
            && Converted(there.value, b, a) == Some(CanonicalText(s))
  {
    TextOfNumeral(b, Value(ParsedDigits(s, a).value, a));
    NumeralOfText(s, a);
  }
}
