/**
 * The byte utilities of class `Hex` in decrypt.php: the two-digit hex
 * rendering `dechex`, hex-array/text conversion, the readability filter and
 * the crib-drag primitive `xorStrings`.
 *
 * The source keeps every byte as a two-digit lower-case hex string; the model
 * keeps the byte itself (`Byte`) and uses `Dechex` where the source's string
 * form is observable (table keys, the rendered key).
 */
module Hex {

  /** One byte of a ciphertext, a plaintext or the combined stream. */
  type Byte = bv8

  predicate IsHexDigit(c: char) {
    '0' <= c <= '9' || 'a' <= c <= 'f'
  }

  function DigitValue(c: char): (d: int)
    requires IsHexDigit(c)
    ensures 0 <= d < 16
  {
    if c <= '9' then c as int - '0' as int else c as int - 'a' as int + 10
  }

  function HexDigit(d: int): (c: char)
    requires 0 <= d < 16
    ensures IsHexDigit(c) && DigitValue(c) == d
  {
    if d < 10 then ('0' as int + d) as char else ('a' as int + d - 10) as char
  }

  /** Two lower-case hex digits: the shape of every hex string the source builds. */
  predicate IsHex2(s: string) {
    |s| == 2 && IsHexDigit(s[0]) && IsHexDigit(s[1])
  }

  /** `hexdec` on a two-digit hex string. */
  function HexValue(s: string): (v: int)
    requires IsHex2(s)
    ensures 0 <= v < 256
  {
    DigitValue(s[0]) * 16 + DigitValue(s[1])
  }

  /** `Hex::dechex`: `sprintf("%02x", b)`, two lower-case digits denoting `b`. */
  function Dechex(b: Byte): (s: string)
    ensures IsHex2(s) && HexValue(s) == b as int
  {
    HexPair(b as int)
  }

  /** The two digits of a value below 256. */
  function HexPair(v: int): (s: string)
    requires 0 <= v < 256
    ensures IsHex2(s) && HexValue(s) == v
  {
    [HexDigit(v / 16), HexDigit(v % 16)]
  }

  lemma DigitRoundTrip(c: char)
    requires IsHexDigit(c)
    ensures HexDigit(DigitValue(c)) == c
  {
  }

  lemma DivMod16(hi: int, lo: int)
    requires 0 <= hi < 16 && 0 <= lo < 16
    ensures (hi * 16 + lo) / 16 == hi && (hi * 16 + lo) % 16 == lo
  {
  }

  /** The byte whose value is `v` (`chr`/`hexdec` into one byte). */
  function ByteOf(v: int): (b: Byte)
    requires 0 <= v < 256
    ensures b as int == v
    decreases v
  {
    if v == 0 then 0 else var p := ByteOf(v - 1); assert p < 255; p + 1
  }

  lemma ByteValueInjective(a: Byte, b: Byte)
    requires a as int == b as int
    ensures a == b
  {
    assert (a as int) as Byte == a;
  }

  /** Every two-digit lower-case hex string is the `dechex` of its value. */
  lemma {:induction false} DechexOfHexValue(s: string)
    requires IsHex2(s)
    ensures Dechex(ByteOf(HexValue(s))) == s
  {
    var hi, lo := DigitValue(s[0]), DigitValue(s[1]);
    var v := HexValue(s);
    DivMod16(hi, lo);
    DigitRoundTrip(s[0]);
    DigitRoundTrip(s[1]);
    assert HexPair(v) == s;
  }

  /** `dechex` is injective on bytes. */
  lemma DechexInjective(a: Byte, b: Byte)
    requires Dechex(a) == Dechex(b)
    ensures a == b
  {
    assert HexValue(Dechex(a)) == a as int;
  }

  /** The character a byte decodes to (`hex2bin` of one byte). */
  function ByteChar(b: Byte): char {
    (b as int) as char
  }

  /** `Hex::hexArrayToStr`: the text whose bytes are `hs` ('' for an empty array). */
  function HexArrayToStr(hs: seq<Byte>): string {
    seq(|hs|, i requires 0 <= i < |hs| => ByteChar(hs[i]))
  }

  // ---------------------------------------------------------------------------
  // Readability

  /**
   * The per-character test of `Hex::isReadable`: the negation of the source's
   * condition for rejecting a character (outside a-z, outside A-Z, not numeric,
   * and none of space , . ! ?). A one-character string is numeric exactly when
   * it is a decimal digit.
   */
  predicate ReadableChar(c: char) {
    !(
      (c < 'a' || c > 'z')
      && (c < 'A' || c > 'Z')
      && !('0' <= c <= '9')
      && c != ' '
      && c != ','
      && c != '.'
      && c != '!'
      && c != '?'
    )
  }

  /** `n` consecutive characters starting at `first`. */
  function CharRun(first: char, n: nat): (r: seq<char>)
    requires first as int + n <= 0xD800
  {
    seq(n, i requires 0 <= i < n => (first as int + i) as char)
  }

  /** The accepted characters, enumerated: the alphabets, the digits and five punctuation marks. */
  const ReadableAlphabet: seq<char> :=
    CharRun('a', 26) + CharRun('A', 26) + CharRun('0', 10) + [' ', ',', '.', '!', '?']

  /** The loop of `Hex::isReadable` over the decoded characters: false at the first rejected one. */
  predicate AllReadable(s: string)
    decreases |s|
  {
    s == [] || (ReadableChar(s[0]) && AllReadable(s[1..]))
  }

  /** `Hex::isReadable`. */
  predicate IsReadable(hs: seq<Byte>) {
    AllReadable(HexArrayToStr(hs))
  }

  lemma ReadableCharIsAlphabet(c: char)
    ensures ReadableChar(c) <==> c in ReadableAlphabet
  {
    var lower, upper, digits := CharRun('a', 26), CharRun('A', 26), CharRun('0', 10);
    var punct := [' ', ',', '.', '!', '?'];
    assert ReadableAlphabet == lower + upper + digits + punct;
    if 'a' <= c <= 'z' {
      assert c == lower[c as int - 'a' as int];
    } else if 'A' <= c <= 'Z' {
      assert c == upper[c as int - 'A' as int];
    } else if '0' <= c <= '9' {
      assert c == digits[c as int - '0' as int];
    } else if c in punct {
      assert c == ReadableAlphabet[62 + (if c == ' ' then 0 else if c == ',' then 1 else if c == '.' then 2 else if c == '!' then 3 else 4)];
    } else {
      assert c !in lower && c !in upper && c !in digits;
    }
  }

  lemma {:induction false} AllReadableIff(s: string)
    ensures AllReadable(s) <==> forall i :: 0 <= i < |s| ==> s[i] in ReadableAlphabet
    decreases |s|
  {
    if s != [] {
      ReadableCharIsAlphabet(s[0]);
      AllReadableIff(s[1..]);
      assert forall i :: 1 <= i < |s| ==> s[i] == s[1..][i - 1];
    }
  }

  /**
   * A non-empty hex array is readable exactly when every byte decodes to a
   * letter, a digit, a space or one of , . ! ?
   */
  lemma IsReadableIff(hs: seq<Byte>)
    requires |hs| > 0
    ensures IsReadable(hs) <==> forall i :: 0 <= i < |hs| ==> ByteChar(hs[i]) in ReadableAlphabet
  {
    var text := HexArrayToStr(hs);
    AllReadableIff(text);
    assert forall i :: 0 <= i < |hs| ==> text[i] == ByteChar(hs[i]);
  }

  // ---------------------------------------------------------------------------
  // XOR of byte sequences and the crib drag

  function Min(a: int, b: int): int {
    if a <= b then a else b
  }

  /** Position-wise XOR of two sequences, as long as the first. */
  function XorSeq(a: seq<Byte>, b: seq<Byte>): (r: seq<Byte>)
    requires |a| <= |b|
  {
    seq(|a|, i requires 0 <= i < |a| => a[i] ^ b[i])
  }

  /**
   * The inner loop of `Hex::xorStrings` for cursor start `j`: the guess XORed
   * byte by byte against the stream from `j`, stopping at the end of the stream.
   */
  function DragAt(stream: seq<Byte>, guess: seq<Byte>, j: nat): (h: seq<Byte>)
    requires j <= |stream|
  {
    seq(Min(|guess|, |stream| - j), k requires 0 <= k < Min(|guess|, |stream| - j) => guess[k] ^ stream[j + k])
  }

  /** One entry of the crib-drag result: the decoded text and its hex array. */
  datatype CribEntry = CribEntry(text: string, hex: seq<Byte>)

  /**
   * `Hex::xorStrings`: one entry per offset of the stream, entry `i` holding the
   * guess XORed against the stream from `i` on (truncated at its end).
   */
  method XorStrings(encryptedMessage: seq<Byte>, hexArray: seq<Byte>) returns (stringsCombined: seq<CribEntry>)
    ensures |stringsCombined| == |encryptedMessage|
    ensures forall i :: 0 <= i < |stringsCombined| ==>
      |stringsCombined[i].hex| == Min(|hexArray|, |encryptedMessage| - i) &&
      forall k :: 0 <= k < |stringsCombined[i].hex| ==>
        stringsCombined[i].hex[k] == hexArray[k] ^ encryptedMessage[i + k]
    ensures forall i :: 0 <= i < |stringsCombined| ==>
      stringsCombined[i].hex == DragAt(encryptedMessage, hexArray, i) &&
      stringsCombined[i].text == HexArrayToStr(stringsCombined[i].hex)
  {
    stringsCombined := [];
    var i := 0;
    while i < |encryptedMessage|
      invariant 0 <= i <= |encryptedMessage|
      invariant |stringsCombined| == i
      invariant forall q :: 0 <= q < i ==>
        stringsCombined[q] == CribEntry(HexArrayToStr(DragAt(encryptedMessage, hexArray, q)), DragAt(encryptedMessage, hexArray, q))
    {
      var hexTmp: seq<Byte> := [];
      var j := i;
      var k := 0;
      while k < |hexArray|
        invariant 0 <= k <= |hexArray|
        invariant j == i + k <= |encryptedMessage|
        invariant |hexTmp| == k
        invariant forall m :: 0 <= m < k ==> hexTmp[m] == hexArray[m] ^ encryptedMessage[i + m]
      {
        if j < |encryptedMessage| {
          hexTmp := hexTmp + [hexArray[k] ^ encryptedMessage[j]];
          j := j + 1;
        } else {
          break;
        }
        k := k + 1;
      }
      assert |hexTmp| == Min(|hexArray|, |encryptedMessage| - i);
      assert hexTmp == DragAt(encryptedMessage, hexArray, i);
      stringsCombined := stringsCombined + [CribEntry(HexArrayToStr(hexTmp), hexTmp)];
      i := i + 1;
    }
  }

  /**
   * Crib dragging recovers the other message: if the stream is `p1 XOR p2` and
   * the guess is the text of `p1` from offset `i`, the entry at `i` is the text
   * of `p2` from `i`, truncated at the end of the stream.
   */
  lemma {:induction false} DragRecoversOther(p1: seq<Byte>, p2: seq<Byte>, guess: seq<Byte>, i: nat)
    requires |p1| == |p2| && i <= |p1|
    requires i + |guess| <= |p1| ==> guess == p1[i..i + |guess|]
    requires i + |guess| > |p1| ==> guess[..|p1| - i] == p1[i..]
    ensures DragAt(XorSeq(p1, p2), guess, i) == p2[i..i + Min(|guess|, |p1| - i)]
  {
    var h := DragAt(XorSeq(p1, p2), guess, i);
    var m := Min(|guess|, |p1| - i);
    forall k | 0 <= k < m
      ensures h[k] == p2[i + k]
    {
      if i + |guess| <= |p1| {
        assert guess[k] == p1[i..i + |guess|][k];
      } else {
        assert guess[k] == guess[..|p1| - i][k] == p1[i..][k];
      }
    }
  }

  /** Dragging the result of a drag at the same offset gives back the (truncated) guess. */
  lemma {:induction false} DragTwice(stream: seq<Byte>, guess: seq<Byte>, i: nat)
    requires i <= |stream|
    ensures DragAt(stream, DragAt(stream, guess, i), i) == guess[..Min(|guess|, |stream| - i)]
  {
    var h := DragAt(stream, guess, i);
    var g := DragAt(stream, h, i);
    forall k | 0 <= k < |g|
      ensures g[k] == guess[k]
    {
      assert g[k] == (guess[k] ^ stream[i + k]) ^ stream[i + k];
    }
  }
}
