/** Node hashing: truncation to the configured length, then one SHA-256 call on decoded bytes. */
module Hashing {
  import opened Sparse
  import opened Text

  /** JavaScript's `s.slice(-n)` for n > 0. */
  function Last(s: string, n: nat): string {
    if |s| <= n then s else s[|s| - n..]
  }

  /** A 32-byte word as the chain and the hash function write it: 0x and 64 hexadecimal digits. */
  predicate IsWord(v: string) {
    |v| == 66 && v[0] == '0' && v[1] == 'x' && HexDigits(v, 2)
  }

  /** Every text of 0x and 64 of the characters 0-9, a-f, A-F is a word, and no other. */
  lemma IsWordMeans(v: string)
    ensures IsWord(v) <==> |v| == 66 && v[..2] == "0x" && forall k :: 2 <= k < 66 ==> v[k] in HEX_DIGITS
  {
    hide DigitOf;
    if |v| == 66 {
      forall k | 2 <= k < 66 ensures DigitOf(v[k], 16).Some? <==> v[k] in HEX_DIGITS { HexDigitMeans(v[k]); }
    }
  }

  const ZERO_WORD: string := "0x" + ZeroText(64)

  /** `hashLength` is NODE_HASHLENGTH in bytes: 32 with HASH_TYPE mimc, 27 otherwise.
      `digest` stands for SHA-256 on bytes, written as 0x and hexadecimal digits. */
  datatype Config = Config(hashLength: nat, digest: seq<nat> -> string) {

    ghost predicate Valid() {
      && (hashLength == 27 || hashLength == 32)
      && forall bytes :: DigestIsWord(bytes)
    }

    predicate DigestIsWord(bytes: seq<nat>) {
      IsWord(digest(bytes))
    }

    function Tail(v: string): string {
      Last(v, 2 * hashLength)
    }

    function Truncate(v: string): string {
      "0x" + Tail(v)
    }

    function Zero(): string {
      "0x" + ZeroText(2 * hashLength)
    }

    /** Where the digits that enter a hash start: the last 2 * hashLength characters, without 0x. */
    function FirstDigit(v: string): nat {
      var start := if |v| <= 2 * hashLength then 0 else |v| - 2 * hashLength;
      if start + 1 < |v| && v[start] == '0' && v[start + 1] == 'x' then start + 2 else start
    }

    /** The bytes of a value that enter a hash: its last `hashLength` bytes, decoded. */
    function Bytes(v: string): seq<nat> {
      HexBytes(v, FirstDigit(v))
    }

    /** These are the bytes of the value as the source cuts, strips and decodes it. */
    lemma BytesOfTail(v: string)
      ensures Bytes(v) == HexBytes(Strip0x(Tail(v)), 0)
    {
      var t := Strip0x(Tail(v));
      assert v[FirstDigit(v)..] == t == t[0..];
      HexBytesSame(v, FirstDigit(v), t, 0);
    }

    /** concatenateThenHash */
    function HashPair(a: string, b: string): string {
      digest(Bytes(a) + Bytes(b))
    }

    /** Every value in the tree is hexadecimal and long enough for truncation to be idempotent. */
    predicate Sized(v: string) {
      |v| >= 2 * hashLength && HexDigits(v, |v| - 2 * hashLength)
    }

    lemma TailOfTruncate(v: string)
      requires Sized(v)
      ensures Tail(Truncate(v)) == Tail(v) && Truncate(Truncate(v)) == Truncate(v)
      ensures Bytes(Truncate(v)) == Bytes(v) && Sized(Truncate(v))
    {
      BytesOfTail(v);
      BytesOfTail(Truncate(v));
      var t := Truncate(v);
      forall k | |t| - 2 * hashLength <= k < |t| ensures DigitOf(t[k], 16).Some? {
        assert t[k] == v[|v| - 2 * hashLength + (k - 2)];
      }
    }

    /** A truncated value: 0x, and then the last digits of the value, two for each byte kept. */
    lemma TruncateMeans(v: string)
      requires |v| >= 2 * hashLength
      ensures Truncate(v) == "0x" + v[|v| - 2 * hashLength..]
    {
    }

    /** ZERO is 0x and two digits 0 for each byte of a node, and enters a hash as that many zero
        bytes. */
    lemma ZeroMeans()
      requires Valid()
      ensures |Zero()| == 2 + 2 * hashLength && Zero()[0] == '0' && Zero()[1] == 'x'
      ensures forall k :: 2 <= k < |Zero()| ==> Zero()[k] == '0'
      ensures Bytes(Zero()) == WordBytes(Zero()) == seq(hashLength, _ => 0)
    {
      assert FirstDigit(Zero()) == 2;
      HexBytesOfZeros(Zero(), 2);
    }

    /** All bytes of a value that is written as 0x and digits. */
    function WordBytes(v: string): seq<nat> {
      HexBytes(v, 2)
    }

    /** Of a word its last `hashLength` bytes enter a hash. */
    lemma BytesOfWord(v: string)
      requires Valid() && IsWord(v)
      ensures |WordBytes(v)| == 32 && Bytes(v) == WordBytes(v)[32 - hashLength..]
    {
      WordIsSized(v);
      var start := 66 - 2 * hashLength;
      assert FirstDigit(v) == start by {
        if hashLength < 32 { assert DigitOf(v[start + 1], 16).Some?; }
      }
      HexBytesLength(v, 2);
      HexBytesDrop(v, 2, 32 - hashLength);
    }

    /** The full value survives truncation only in the 32-byte configuration. */
    lemma TruncateWord(v: string)
      requires Valid() && IsWord(v)
      ensures Truncate(v) == v <==> hashLength == 32
    {
      if hashLength == 32 {
        assert Tail(v) == v[2..] && v == v[..2] + v[2..];
        assert v[..2] == "0x";
      } else {
        assert |Truncate(v)| == 56;
      }
    }

    lemma WordIsSized(v: string)
      requires Valid() && IsWord(v)
      ensures Sized(v)
    {
    }

    lemma ZeroIsSized()
      requires Valid()
      ensures Sized(Zero())
    {
    }

    /** A value contributes at most `hashLength` bytes, and a value of the tree exactly that many. */
    lemma BytesLength(v: string)
      ensures |Bytes(v)| <= hashLength
      ensures Sized(v) ==> |Bytes(v)| == hashLength
    {
      HexBytesLength(v, FirstDigit(v));
      if Sized(v) && hashLength > 0 {
        var start := |v| - 2 * hashLength;
        assert DigitOf(v[start + 1], 16).Some?;
      }
    }
  }
}
