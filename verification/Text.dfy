/** Digits and zeros as text. */
module Text {
  import opened Sparse

  /** `parseInt` of a single character; None stands for NaN. */
  function DigitOf(ch: char, base: nat): Option<nat> {
    var d :=
      if '0' <= ch <= '9' then ch as int - '0' as int
      else if 'a' <= ch <= 'z' then ch as int - 'a' as int + 10
      else if 'A' <= ch <= 'Z' then ch as int - 'A' as int + 10
      else base;
    if d < base then Some(d) else None
  }

  const LOWER_DIGITS := "0123456789abcdefghijklmnopqrstuvwxyz"
  const UPPER_DIGITS := "0123456789ABCDEFGHIJKLMNOPQRSTUVWXYZ"

  lemma DigitTables(d: nat)
    requires d < 36
    ensures LOWER_DIGITS[d] as int == (if d < 10 then '0' as int + d else 'a' as int + d - 10)
    ensures UPPER_DIGITS[d] as int == (if d < 10 then '0' as int + d else 'A' as int + d - 10)
  {
  }

  /** A character is read as digit d exactly if it stands at place d of one of the two rows of
      digits and d is below the base. */
  lemma DigitOfMeans(ch: char, base: nat, d: nat)
    requires base <= 36
    ensures DigitOf(ch, base) == Some(d) <==> d < base && (LOWER_DIGITS[d] == ch || UPPER_DIGITS[d] == ch)
  {
    if d < base { DigitTables(d); }
  }

  /** The digits of a base are the characters of these two rows, lower and upper case. */
  lemma IsDigitMeans(ch: char, base: nat)
    requires base <= 36
    ensures DigitOf(ch, base).Some? <==> ch in LOWER_DIGITS[..base] || ch in UPPER_DIGITS[..base]
  {
    if DigitOf(ch, base).Some? {
      var d := DigitOf(ch, base).value;
      DigitOfMeans(ch, base, d);
      assert LOWER_DIGITS[..base][d] == LOWER_DIGITS[d] && UPPER_DIGITS[..base][d] == UPPER_DIGITS[d];
    }
    if ch in LOWER_DIGITS[..base] {
      var d: nat :| d < base && LOWER_DIGITS[..base][d] == ch;
      DigitOfMeans(ch, base, d);
    }
    if ch in UPPER_DIGITS[..base] {
      var d: nat :| d < base && UPPER_DIGITS[..base][d] == ch;
      DigitOfMeans(ch, base, d);
    }
  }

  function ZeroText(n: nat): (z: string)
    ensures |z| == n
  {
    seq(n, _ => '0')
  }

  function Strip0x(hex: string): string {
    if |hex| >= 2 && hex[0] == '0' && hex[1] == 'x' then hex[2..] else hex
  }

  const HEX_DIGITS := "0123456789abcdefABCDEF"

  lemma HexDigitMeans(ch: char)
    ensures DigitOf(ch, 16).Some? <==> ch in HEX_DIGITS
  {
    IsDigitMeans(ch, 16);
    assert LOWER_DIGITS[..16] == "0123456789abcdef";
    assert UPPER_DIGITS[..16] == "0123456789ABCDEF";
  }

  /** What is left after 0x, if the text starts with it, and otherwise the text. */
  lemma Strip0xMeans(hex: string)
    ensures Strip0x(hex) == if "0x" <= hex then hex[2..] else hex
  {
    if "0x" <= hex { assert hex[0] == '0' && hex[1] == 'x'; }
    if |hex| >= 2 && hex[0] == '0' && hex[1] == 'x' { assert hex[..2] == "0x"; }
  }

  /** From position i on there are only hexadecimal digits. */
  predicate HexDigits(s: string, i: nat) {
    forall k :: i <= k < |s| ==> DigitOf(s[k], 16).Some?
  }

  /** `Buffer.from(s.slice(i), 'hex')`: two digits a byte, up to the first pair that is not
      hexadecimal. */
  function HexBytes(s: string, i: nat): seq<nat>
    decreases |s| - i
  {
    if i + 1 < |s| && DigitOf(s[i], 16).Some? && DigitOf(s[i + 1], 16).Some?
    then [16 * DigitOf(s[i], 16).value + DigitOf(s[i + 1], 16).value] + HexBytes(s, i + 2)
    else []
  }

  /** No more bytes than pairs of digits, and as many if the text is hexadecimal. */
  lemma {:induction false} HexBytesLength(s: string, i: nat)
    requires i <= |s|
    ensures 2 * |HexBytes(s, i)| <= |s| - i
    ensures HexDigits(s, i) ==> |HexBytes(s, i)| == (|s| - i) / 2
    decreases |s| - i
  {
    if i + 1 < |s| { HexBytesLength(s, i + 2); }
  }

  /** Only the text from position i on matters. */
  lemma {:induction false} HexBytesSame(s: string, i: nat, t: string, j: nat)
    requires i <= |s| && j <= |t| && s[i..] == t[j..]
    ensures HexBytes(s, i) == HexBytes(t, j)
    decreases |s| - i
  {
    assert |s| - i == |s[i..]| == |t[j..]| == |t| - j;
    if i + 1 < |s| {
      assert s[i] == s[i..][0] == t[j] && s[i + 1] == s[i..][1] == t[j + 1];
      assert s[i + 2..] == s[i..][2..] == t[j..][2..] == t[j + 2..];
      HexBytesSame(s, i + 2, t, j + 2);
    }
  }

  /** Leaving out the first k pairs of digits leaves out the first k bytes. */
  lemma {:induction false} HexBytesDrop(s: string, i: nat, k: nat)
    requires HexDigits(s, i) && i + 2 * k <= |s|
    ensures k <= |HexBytes(s, i)| && HexBytes(s, i)[k..] == HexBytes(s, i + 2 * k)
    decreases k
  {
    hide DigitOf;
    if k > 0 {
      assert DigitOf(s[i], 16).Some? && DigitOf(s[i + 1], 16).Some?;
      HexBytesDrop(s, i + 2, k - 1);
      assert i + 2 + 2 * (k - 1) == i + 2 * k;
    }
  }

  lemma {:induction false} HexBytesOfZeros(s: string, i: nat)
    requires i <= |s| && forall k :: i <= k < |s| ==> s[k] == '0'
    ensures HexBytes(s, i) == seq((|s| - i) / 2, _ => 0)
    decreases |s| - i
  {
    if i + 1 < |s| {
      HexBytesOfZeros(s, i + 2);
      assert (|s| - i) / 2 == (|s| - (i + 2)) / 2 + 1;
    }
  }

  lemma {:induction false} HexByteAt(s: string, i: nat, k: nat)
    requires HexDigits(s, i) && i + 2 * k + 1 < |s|
    ensures k < |HexBytes(s, i)|
    ensures HexBytes(s, i)[k] == 16 * DigitOf(s[i + 2 * k], 16).value + DigitOf(s[i + 2 * k + 1], 16).value
    decreases k
  {
    hide DigitOf;
    assert DigitOf(s[i], 16).Some? && DigitOf(s[i + 1], 16).Some?;
    if k > 0 {
      HexByteAt(s, i + 2, k - 1);
      assert i + 2 + 2 * (k - 1) == i + 2 * k;
    }
  }
}
