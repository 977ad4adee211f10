/**
 * Class `Encrypted` of decrypt.php: what is known so far about one of the two
 * messages. It holds guesses by combined-stream value (`decryptedChars`),
 * plaintext bytes fixed at positions (`charsAtIndex`), and it renders the
 * message and the key stream recovered from those positions.
 *
 * Hex strings of the source are modelled as the bytes they denote; the
 * empty string `''` that marks "no guess" is `None`.
 */
module Encrypt {
  import opened Wrappers
  import opened Hex

  // ---------------------------------------------------------------------------
  // Specification functions on the object's values

  /** `$decryptedChars[$h] ?? ''`: the guess stored under the hex string `h`, `None` if there is none. */
  function GuessOf(decrypted: map<string, Option<Byte>>, h: string): Option<Byte> {
    if h in decrypted then decrypted[h] else None
  }

  /**
   * The character `__toString` shows for position `p` whose combined value is
   * `c`: a byte fixed at `p` wins over a guess for `c`, and `.` stands for
   * nothing known. A guess is always a two-digit hex string, which PHP treats
   * as true, so only the empty string falls back to `.`.
   */
  function Cell(c: Byte, decrypted: map<string, Option<Byte>>, chars: map<int, Byte>, p: int): char {
    if p in chars then ByteChar(chars[p])
    else match GuessOf(decrypted, Dechex(c))
      case Some(b) => ByteChar(b)
      case None => '.'
  }

  /** The text of the message, one character per position of the combined stream. */
  function Rendered(combined: seq<Byte>, decrypted: map<string, Option<Byte>>, chars: map<int, Byte>): string {
    seq(|combined|, p requires 0 <= p < |combined| => Cell(combined[p], decrypted, chars, p))
  }

  /** The positions after the bytes of `hs` have been fixed one by one from position `i` on. */
  function AddedAt(chars: map<int, Byte>, hs: seq<Byte>, i: int): map<int, Byte>
    decreases |hs|
  {
    if hs == [] then chars
    else AddedAt(chars, hs[..|hs| - 1], i)[i + |hs| - 1 := hs[|hs| - 1]]
  }

  /** The positions after positions `i .. i + length - 1` have been cleared. */
  function Removed(chars: map<int, Byte>, i: int, length: int): map<int, Byte> {
    map p | p in chars && !(i <= p < i + length) :: chars[p]
  }

  /** The key byte at each position of the own ciphertext whose plaintext byte is fixed. */
  function KeyCells(enc: seq<Byte>, chars: map<int, Byte>): seq<Option<Byte>> {
    seq(|enc|, p requires 0 <= p < |enc| => if p in chars then Some(enc[p] ^ chars[p]) else None)
  }

  /** One position of the key text: the key byte's two digits and a space, or `.`. */
  function CellText(c: Option<Byte>): string {
    match c
    case Some(b) => Dechex(b) + " "
    case None => "."
  }

  /** The key text, built position by position as `getKey` appends it. */
  function KeyText(cells: seq<Option<Byte>>): string
    decreases |cells|
  {
    if cells == [] then "" else KeyText(cells[..|cells| - 1]) + CellText(cells[|cells| - 1])
  }

  /** Reads a key text back into its positions; `None` if it is not one. */
  function ParseKey(t: string): Option<seq<Option<Byte>>>
    decreases |t|
  {
    if t == [] then Some([])
    else if t[0] == '.' then
      match ParseKey(t[1..])
      case Some(rest) => Some([None] + rest)
      case None => None
    else if |t| >= 3 && IsHex2(t[..2]) && t[2] == ' ' then
      match ParseKey(t[3..])
      case Some(rest) => Some([Some(ByteOf(HexValue(t[..2])))] + rest)
      case None => None
    else None
  }

  // ---------------------------------------------------------------------------
  // Properties of the specification functions

  lemma {:induction false} KeyTextCons(c: Option<Byte>, cells: seq<Option<Byte>>)
    ensures KeyText([c] + cells) == CellText(c) + KeyText(cells)
    decreases |cells|
  {
    if cells != [] {
      var init, last := cells[..|cells| - 1], cells[|cells| - 1];
      var whole := [c] + cells;
      assert whole[..|whole| - 1] == [c] + init;
      assert whole[|whole| - 1] == last;
      assert KeyText(whole) == KeyText([c] + init) + CellText(last);
      KeyTextCons(c, init);
      assert KeyText(cells) == KeyText(init) + CellText(last);
    } else {
      assert [c] + cells == [c];
      assert [c][..0] == [];
    }
  }

  /** One more position of the key text. */
  lemma KeyTextStep(cells: seq<Option<Byte>>, n: nat)
    requires n < |cells|
    ensures KeyText(cells[..n + 1]) == KeyText(cells[..n]) + CellText(cells[n])
  {
    assert cells[..n + 1][..n] == cells[..n];
  }

  /** The key text is unambiguous: reading it back gives every position, known or not. */
  lemma {:induction false} KeyRoundTrip(cells: seq<Option<Byte>>)
    ensures ParseKey(KeyText(cells)) == Some(cells)
    decreases |cells|
  {
    if cells != [] {
      var c, rest := cells[0], cells[1..];
      assert cells == [c] + rest;
      KeyTextCons(c, rest);
      KeyRoundTrip(rest);
      var t := KeyText(cells);
      match c
      case None =>
        assert t[1..] == KeyText(rest);
      case Some(b) =>
        var d := Dechex(b);
        assert t[..2] == d && t[2] == ' ' && t[3..] == KeyText(rest);
        ByteValueInjective(ByteOf(b as int), b);
    }
  }

  /**
   * The key is recovered where the plaintext is right: if the ciphertext is
   * the plaintext XOR a key stream and every fixed byte is the plaintext's,
   * each fixed position yields that key byte.
   */
  lemma KeyRecovered(enc: seq<Byte>, plain: seq<Byte>, key: seq<Byte>, chars: map<int, Byte>)
    requires |plain| == |enc| && |enc| <= |key|
    requires forall p :: 0 <= p < |enc| ==> enc[p] == plain[p] ^ key[p]
    requires forall p :: p in chars && 0 <= p < |enc| ==> chars[p] == plain[p]
    ensures forall p :: 0 <= p < |enc| ==> KeyCells(enc, chars)[p] == if p in chars then Some(key[p]) else None
  {
    forall p | 0 <= p < |enc| && p in chars
      ensures enc[p] ^ chars[p] == key[p]
    {
      assert (plain[p] ^ key[p]) ^ plain[p] == key[p];
    }
  }

  /** After writing `hs` from `i`, exactly the old positions and `i .. i + |hs| - 1` are fixed, the latter to `hs`. */
  lemma {:induction false} AddedAtPositions(chars: map<int, Byte>, hs: seq<Byte>, i: int)
    ensures forall p :: p in AddedAt(chars, hs, i) <==> p in chars || i <= p < i + |hs|
    ensures forall p :: p in AddedAt(chars, hs, i) ==>
      AddedAt(chars, hs, i)[p] == if i <= p < i + |hs| then hs[p - i] else chars[p]
    decreases |hs|
  {
    if hs != [] {
      var init := hs[..|hs| - 1];
      AddedAtPositions(chars, init, i);
      assert forall k :: 0 <= k < |init| ==> hs[k] == init[k];
    }
  }

  /** `AddedAtPositions` at one position. */
  lemma {:induction false} AddedAtPoint(chars: map<int, Byte>, hs: seq<Byte>, i: int, p: int)
    ensures p in AddedAt(chars, hs, i) <==> p in chars || i <= p < i + |hs|
    ensures p in AddedAt(chars, hs, i) ==>
      AddedAt(chars, hs, i)[p] == if i <= p < i + |hs| then hs[p - i] else chars[p]
    decreases |hs|
  {
    if hs != [] {
      var init := hs[..|hs| - 1];
      AddedAtPoint(chars, init, i, p);
      if i <= p < i + |init| {
        assert hs[p - i] == init[p - i];
      }
    }
  }

  /** Writing a fragment shows it: the rendered text at `i ..` is the fragment's text, elsewhere nothing changes. */
  lemma RenderAfterAdd(combined: seq<Byte>, decrypted: map<string, Option<Byte>>, chars: map<int, Byte>, hs: seq<Byte>, i: nat)
    requires i + |hs| <= |combined|
    ensures Rendered(combined, decrypted, AddedAt(chars, hs, i))[i..i + |hs|] == HexArrayToStr(hs)
    ensures forall p :: 0 <= p < |combined| && !(i <= p < i + |hs|) ==>
      Rendered(combined, decrypted, AddedAt(chars, hs, i))[p] == Rendered(combined, decrypted, chars)[p]
  {
    var chars' := AddedAt(chars, hs, i);
    AddedAtPositions(chars, hs, i);
    var r := Rendered(combined, decrypted, chars');
    forall k | 0 <= k < |hs|
      ensures r[i + k] == ByteChar(hs[k])
    {
      assert i + k in chars';
    }
  }

  /** Clearing positions falls back to the guesses for their combined values, or `.`. */
  lemma RenderAfterRemove(combined: seq<Byte>, decrypted: map<string, Option<Byte>>, chars: map<int, Byte>, i: int, length: int)
    ensures forall p :: 0 <= p < |combined| ==>
      Rendered(combined, decrypted, Removed(chars, i, length))[p]
        == if i <= p < i + length then Cell(combined[p], decrypted, map[], p)
           else Rendered(combined, decrypted, chars)[p]
  {
  }

  // ---------------------------------------------------------------------------
  // The class

  /** `Encrypted`: one message's partial decryption. */
  class Encrypted {
    /** Guess per combined-stream value (`None` for the source's `''`). */
    var decryptedChars: map<string, Option<Byte>>
    /** The combined stream `c1 XOR c2`, one byte per position. */
    const combinedEncryptedMessage: seq<Byte>
    /** Plaintext bytes fixed at positions. */
    var charsAtIndex: map<int, Byte>
    /** This message's own ciphertext. */
    const encryptedMessage: seq<Byte>

    /**
     * `Encrypted::__construct`: keeps the keys of `decryptedChars` with every
     * guess emptied, and no position fixed.
     */
    constructor (decryptedChars: map<string, int>, combinedEncryptedMessage: seq<Byte>, encryptedMessage: seq<Byte>)
      ensures this.decryptedChars.Keys == decryptedChars.Keys
      ensures forall h :: h in this.decryptedChars ==> this.decryptedChars[h] == None
      ensures charsAtIndex == map[]
      ensures this.combinedEncryptedMessage == combinedEncryptedMessage
      ensures this.encryptedMessage == encryptedMessage
    {
      var guesses: map<string, Option<Byte>> := map[];
      var todo := decryptedChars.Keys;
      while todo != {}
        invariant todo <= decryptedChars.Keys
        invariant guesses.Keys == decryptedChars.Keys - todo
        invariant forall h :: h in guesses ==> guesses[h] == None
        decreases todo
      {
        var h :| h in todo;
        guesses := guesses[h := None];
        todo := todo - {h};
      }
      this.decryptedChars := guesses;
      this.combinedEncryptedMessage := combinedEncryptedMessage;
      this.charsAtIndex := map[];
      this.encryptedMessage := encryptedMessage;
    }

    /**
     * `Encrypted::add`: a guess for combined value `cryptHex`; for the value
     * `00` (equal ciphertext bytes) the byte is fixed at `index` instead.
     */
    method Add(cryptHex: string, correctHex: Byte, index: int)
      modifies this
      ensures cryptHex == "00" ==> charsAtIndex == old(charsAtIndex)[index := correctHex] && decryptedChars == old(decryptedChars)
      ensures cryptHex != "00" ==> decryptedChars == old(decryptedChars)[cryptHex := Some(correctHex)] && charsAtIndex == old(charsAtIndex)
      ensures cryptHex != "00" ==> GetDecryptedChar(cryptHex) == Some(correctHex)
    {
      if cryptHex == "00" {
        AddAtIndex(index, correctHex);
        return;
      }
      decryptedChars := decryptedChars[cryptHex := Some(correctHex)];
    }

    /** `Encrypted::addAtIndex`: fixes `correctHex` at `index`, replacing any earlier byte there. */
    method AddAtIndex(index: int, correctHex: Byte)
      modifies this
      ensures charsAtIndex == old(charsAtIndex)[index := correctHex]
      ensures decryptedChars == old(decryptedChars)
    {
      charsAtIndex := charsAtIndex[index := correctHex];
    }

    /** `Encrypted::deleteAtIndex`: clears positions `index .. index + length - 1` (none when `length <= 0`). */
    method DeleteAtIndex(index: int, length: int := 1)
      modifies this
      ensures charsAtIndex == Removed(old(charsAtIndex), index, length)
      ensures decryptedChars == old(decryptedChars)
    {
      var i := 0;
      while i < length
        invariant 0 <= i && (i <= length || i == 0)
        invariant charsAtIndex == Removed(old(charsAtIndex), index, i)
        invariant decryptedChars == old(decryptedChars)
      {
        assert Removed(old(charsAtIndex), index, i + 1) == Removed(old(charsAtIndex), index, i) - {index + i};
        charsAtIndex := charsAtIndex - {index + i};
        i := i + 1;
      }
      if length < 0 {
        assert Removed(old(charsAtIndex), index, length) == old(charsAtIndex);
        assert Removed(old(charsAtIndex), index, 0) == old(charsAtIndex);
      }
    }

    /** `Encrypted::addHexAtIndex`: fixes the bytes of `hexMsg` at `index`, `index + 1`, and so on. */
    method AddHexAtIndex(hexMsg: seq<Byte>, index: int)
      modifies this
      ensures charsAtIndex == AddedAt(old(charsAtIndex), hexMsg, index)
      ensures decryptedChars == old(decryptedChars)
    {
      var i := 0;
      while i < |hexMsg|
        invariant 0 <= i <= |hexMsg|
        invariant charsAtIndex == AddedAt(old(charsAtIndex), hexMsg[..i], index)
        invariant decryptedChars == old(decryptedChars)
      {
        assert hexMsg[..i + 1][..i] == hexMsg[..i];
        AddAtIndex(index + i, hexMsg[i]);
        i := i + 1;
      }
      assert hexMsg[..i] == hexMsg;
    }

    /** `Encrypted::getDecryptedChar`: the guess for combined value `hex`, `None` for none. */
    function GetDecryptedChar(hex: string): (r: Option<Byte>)
      reads this
      ensures r.Some? ==> hex in decryptedChars
      ensures hex in decryptedChars ==> r == decryptedChars[hex]
    {
      GuessOf(decryptedChars, hex)
    }

    /**
     * `Encrypted::getKey`: for each byte of the own ciphertext, the key byte
     * (ciphertext XOR the fixed plaintext byte) followed by a space, or `.`.
     */
    method GetKey() returns (s: string)
      ensures s == KeyText(KeyCells(encryptedMessage, charsAtIndex))
    {
      ghost var cells := KeyCells(encryptedMessage, charsAtIndex);
      s := "";
      var index := 0;
      while index < |encryptedMessage|
        invariant 0 <= index <= |encryptedMessage|
        invariant s == KeyText(cells[..index])
      {
        KeyTextStep(cells, index);
        if index in charsAtIndex {
          s := s + (Dechex(encryptedMessage[index] ^ charsAtIndex[index]) + " ");
        } else {
          s := s + ".";
        }
        index := index + 1;
      }
      assert cells[..index] == cells;
    }

    /** `Encrypted::__toString`: the message, one character per position, then a newline. */
    method ToString() returns (s: string)
      ensures s == Rendered(combinedEncryptedMessage, decryptedChars, charsAtIndex) + "\n"
    {
      ghost var text := Rendered(combinedEncryptedMessage, decryptedChars, charsAtIndex);
      s := "";
      var index := 0;
      while index < |combinedEncryptedMessage|
        invariant 0 <= index <= |combinedEncryptedMessage|
        invariant s == text[..index]
      {
        var hex := Dechex(combinedEncryptedMessage[index]);
        assert text[..index + 1] == text[..index] + [text[index]];
        if index in charsAtIndex {
          assert HexArrayToStr([charsAtIndex[index]]) == [text[index]];
          s := s + HexArrayToStr([charsAtIndex[index]]);
        } else {
          var guess := if hex in decryptedChars then decryptedChars[hex] else None;
          assert guess == GuessOf(decryptedChars, hex);
          if guess.Some? {
            assert HexArrayToStr([guess.value]) == [text[index]];
          }
          s := s + (if guess.Some? then HexArrayToStr([guess.value]) else ".");
        }
        index := index + 1;
      }
      assert text[..index] == text;
      s := s + "\n";
    }
  }

  /** A fresh object shows `.` everywhere and its key text is all `.`. */
  lemma FreshRendersDots(combined: seq<Byte>, enc: seq<Byte>, decrypted: map<string, Option<Byte>>)
    requires forall h :: h in decrypted ==> decrypted[h] == None
    ensures forall p :: 0 <= p < |combined| ==> Rendered(combined, decrypted, map[])[p] == '.'
    ensures forall p :: 0 <= p < |enc| ==> KeyCells(enc, map[])[p] == None
  {
  }
}
