/**
 * The state changes the command loop of decrypt.php makes on the pair of
 * `Encrypted` objects: the start-up (combining the two ciphertexts and
 * creating one object per message), the paired commits of `/set` and
 * `/index`, which fix a fragment in the target message and its XOR with the
 * combined stream in the other, and `/unset`.
 *
 * The command parsing, the terminal handling and the printing around these
 * steps are not part of the model; the parsed arguments are parameters.
 */
module Session {
  import opened Wrappers
  import opened Hex
  import opened Ascii
  import opened Encrypt

  /** Which message a command writes into. */
  datatype Target = Msg1 | Msg2

  // ---------------------------------------------------------------------------
  // Start-up

  /**
   * The combine step: the two ciphertexts XORed position by position, as long
   * as the first. The source fails when the second is shorter.
   */
  method Combine(encryptedMessage1: seq<Byte>, encryptedMessage2: seq<Byte>) returns (combined: seq<Byte>)
    requires |encryptedMessage1| <= |encryptedMessage2|
    ensures combined == XorSeq(encryptedMessage1, encryptedMessage2)
  {
    combined := [];
    var i := 0;
    while i < |encryptedMessage1|
      invariant 0 <= i <= |encryptedMessage1|
      invariant combined == XorSeq(encryptedMessage1[..i], encryptedMessage2)
    {
      combined := combined + [encryptedMessage1[i] ^ encryptedMessage2[i]];
      i := i + 1;
    }
    assert encryptedMessage1[..i] == encryptedMessage1;
  }

  /**
   * Two ciphertexts under the same key stream: the key cancels, and the
   * combined stream is the XOR of the two plaintexts.
   */
  lemma KeyCancels(p1: seq<Byte>, p2: seq<Byte>, key: seq<Byte>)
    requires |p1| <= |p2| && |p2| <= |key|
    ensures XorSeq(XorSeq(p1, key), XorSeq(p2, key)) == XorSeq(p1, p2)
  {
    var c1, c2 := XorSeq(p1, key), XorSeq(p2, key);
    forall i | 0 <= i < |p1|
      ensures c1[i] ^ c2[i] == p1[i] ^ p2[i]
    {
      assert (p1[i] ^ key[i]) ^ (p2[i] ^ key[i]) == p1[i] ^ p2[i];
    }
  }

  /**
   * `array_flip(array_values($combined))`: each `dechex` string of the stream
   * mapped to the last position holding it.
   */
  function Flip(combined: seq<Byte>): map<string, int>
    decreases |combined|
  {
    if combined == [] then map[]
    else Flip(combined[..|combined| - 1])[Dechex(combined[|combined| - 1]) := |combined| - 1]
  }

  /** Every hex of the stream is a key of the flipped stream. */
  lemma {:induction false} FlipHas(combined: seq<Byte>, p: nat)
    requires p < |combined|
    ensures Dechex(combined[p]) in Flip(combined)
    decreases |combined|
  {
    var init := combined[..|combined| - 1];
    if p < |init| {
      FlipHas(init, p);
      assert init[p] == combined[p];
    }
  }

  /** Every key of the flipped stream is the hex at its value, a position no later one repeats. */
  lemma {:induction false} FlipLast(combined: seq<Byte>, h: string)
    requires h in Flip(combined)
    ensures 0 <= Flip(combined)[h] < |combined| && Dechex(combined[Flip(combined)[h]]) == h
    ensures forall q :: Flip(combined)[h] < q < |combined| ==> Dechex(combined[q]) != h
    decreases |combined|
  {
    var init, last := combined[..|combined| - 1], combined[|combined| - 1];
    if Dechex(last) != h {
      FlipLast(init, h);
      assert init[Flip(init)[h]] == combined[Flip(init)[h]];
      forall q | Flip(combined)[h] < q < |combined| - 1
        ensures Dechex(combined[q]) != h
      {
        assert init[q] == combined[q];
      }
    }
  }

  /** The two objects fix the same positions, inside the stream, with bytes that XOR to the combined byte. */
  ghost predicate PairedMaps(chars1: map<int, Byte>, chars2: map<int, Byte>, combined: seq<Byte>) {
    && chars1.Keys == chars2.Keys
    && forall p :: p in chars1 ==> 0 <= p < |combined| && chars1[p] ^ chars2[p] == combined[p]
  }

  ghost predicate Paired(msg1: Encrypted, msg2: Encrypted, combined: seq<Byte>)
    reads msg1, msg2
  {
    PairedMaps(msg1.charsAtIndex, msg2.charsAtIndex, combined)
  }

  /**
   * The start-up of decrypt.php: the combined stream and one object per
   * message, both with an empty guess for every hex of the stream and no
   * position fixed.
   */
  method Start(encryptedMessage1: seq<Byte>, encryptedMessage2: seq<Byte>)
    returns (combined: seq<Byte>, msg1: Encrypted, msg2: Encrypted)
    requires |encryptedMessage1| <= |encryptedMessage2|
    ensures combined == XorSeq(encryptedMessage1, encryptedMessage2)
    ensures fresh(msg1) && fresh(msg2) && msg1 != msg2
    ensures msg1.combinedEncryptedMessage == combined && msg1.encryptedMessage == encryptedMessage1
    ensures msg2.combinedEncryptedMessage == combined && msg2.encryptedMessage == encryptedMessage2
    ensures msg1.decryptedChars.Keys == msg2.decryptedChars.Keys == Flip(combined).Keys
    ensures forall h :: h in msg1.decryptedChars ==> msg1.decryptedChars[h] == None
    ensures forall h :: h in msg2.decryptedChars ==> msg2.decryptedChars[h] == None
    ensures msg1.charsAtIndex == msg2.charsAtIndex == map[]
    ensures Paired(msg1, msg2, combined)
  {
    combined := Combine(encryptedMessage1, encryptedMessage2);
    msg1 := new Encrypted(Flip(combined), combined, encryptedMessage1);
    msg2 := new Encrypted(Flip(combined), combined, encryptedMessage2);
  }

  // ---------------------------------------------------------------------------
  // The pairing invariant under the commits

  /** `PairedMaps` does not depend on which object is called the first. */
  lemma PairedSwap(chars1: map<int, Byte>, chars2: map<int, Byte>, combined: seq<Byte>)
    requires PairedMaps(chars1, chars2, combined)
    ensures PairedMaps(chars2, chars1, combined)
  {
    forall p | p in chars2
      ensures chars2[p] ^ chars1[p] == combined[p]
    {
      assert chars2[p] ^ chars1[p] == chars1[p] ^ chars2[p];
    }
  }

  /**
   * Fixing a fragment in one message and its crib drag in the other keeps
   * the pairing: at every written position the two bytes XOR to the
   * combined byte.
   */
  lemma PairedAfterWrite(chars1: map<int, Byte>, chars2: map<int, Byte>, combined: seq<Byte>, g: seq<Byte>, i: nat)
    requires PairedMaps(chars1, chars2, combined)
    requires i + |g| <= |combined|
    ensures PairedMaps(AddedAt(chars1, g, i), AddedAt(chars2, DragAt(combined, g, i), i), combined)
  {
    var h := DragAt(combined, g, i);
    SameKeysAfterWrite(chars1, chars2, g, h, i);
    var n1, n2 := AddedAt(chars1, g, i), AddedAt(chars2, h, i);
    forall p | p in n1
      ensures 0 <= p < |combined| && n1[p] ^ n2[p] == combined[p]
    {
      PairedAtAfterWrite(chars1, chars2, combined, g, i, p);
    }
  }

  /** One position of `PairedAfterWrite`. */
  lemma PairedAtAfterWrite(chars1: map<int, Byte>, chars2: map<int, Byte>, combined: seq<Byte>, g: seq<Byte>, i: nat, p: int)
    requires PairedMaps(chars1, chars2, combined)
    requires i + |g| <= |combined|
    requires p in AddedAt(chars1, g, i)
    ensures p in AddedAt(chars2, DragAt(combined, g, i), i)
    ensures 0 <= p < |combined|
    ensures AddedAt(chars1, g, i)[p] ^ AddedAt(chars2, DragAt(combined, g, i), i)[p] == combined[p]
  {
    var h := DragAt(combined, g, i);
    AddedAtPoint(chars1, g, i, p);
    AddedAtPoint(chars2, h, i, p);
    if i <= p < i + |g| {
      WrittenPair(combined, g, i, p - i);
    }
  }

  /** Writing equally long fragments at the same place into maps with the same positions keeps them the same. */
  lemma SameKeysAfterWrite(chars1: map<int, Byte>, chars2: map<int, Byte>, g: seq<Byte>, h: seq<Byte>, i: int)
    requires chars1.Keys == chars2.Keys && |g| == |h|
    ensures AddedAt(chars1, g, i).Keys == AddedAt(chars2, h, i).Keys
  {
    AddedAtPositions(chars1, g, i);
    AddedAtPositions(chars2, h, i);
    forall p
      ensures p in AddedAt(chars1, g, i) <==> p in AddedAt(chars2, h, i)
    {
      assert p in chars1 <==> p in chars2;
    }
  }

  /** At a written position the fragment byte and the dragged byte XOR to the stream byte. */
  lemma WrittenPair(combined: seq<Byte>, g: seq<Byte>, i: nat, k: nat)
    requires i + |g| <= |combined| && k < |g|
    ensures g[k] ^ DragAt(combined, g, i)[k] == combined[i + k]
  {
    var b, c := g[k], combined[i + k];
    assert b ^ (b ^ c) == c;
  }

  /** Clearing the same positions in both messages keeps the pairing. */
  lemma PairedAfterRemove(chars1: map<int, Byte>, chars2: map<int, Byte>, combined: seq<Byte>, i: int, length: int)
    requires PairedMaps(chars1, chars2, combined)
    ensures PairedMaps(Removed(chars1, i, length), Removed(chars2, i, length), combined)
  {
  }

  // ---------------------------------------------------------------------------
  // The commits

  /**
   * Writes `g` into the target message and its crib drag against the stream
   * into the other, at `index`; the two `addHexAtIndex` calls of `/set` and
   * `/index`.
   */
  method WritePair(msg1: Encrypted, msg2: Encrypted, combined: seq<Byte>, target: Target,
                   g: seq<Byte>, h: seq<Byte>, index: nat)
    requires msg1 != msg2
    requires index + |g| <= |combined| && h == DragAt(combined, g, index)
    modifies msg1, msg2
    ensures target == Msg1 ==>
      msg1.charsAtIndex == AddedAt(old(msg1.charsAtIndex), g, index) && msg2.charsAtIndex == AddedAt(old(msg2.charsAtIndex), h, index)
    ensures target == Msg2 ==>
      msg1.charsAtIndex == AddedAt(old(msg1.charsAtIndex), h, index) && msg2.charsAtIndex == AddedAt(old(msg2.charsAtIndex), g, index)
    ensures msg1.decryptedChars == old(msg1.decryptedChars) && msg2.decryptedChars == old(msg2.decryptedChars)
    ensures old(Paired(msg1, msg2, combined)) ==> Paired(msg1, msg2, combined)
  {
    ghost var chars1, chars2 := msg1.charsAtIndex, msg2.charsAtIndex;
    if target == Msg1 {
      msg1.AddHexAtIndex(g, index);
      msg2.AddHexAtIndex(h, index);
      if PairedMaps(chars1, chars2, combined) {
        PairedAfterWrite(chars1, chars2, combined, g, index);
      }
    } else {
      msg1.AddHexAtIndex(h, index);
      msg2.AddHexAtIndex(g, index);
      if PairedMaps(chars1, chars2, combined) {
        PairedSwap(chars1, chars2, combined);
        PairedAfterWrite(chars2, chars1, combined, g, index);
        PairedSwap(AddedAt(chars2, g, index), AddedAt(chars1, h, index), combined);
      }
    }
  }

  /** The bytes of printable text (every `strToHexArray` entry is then present). */
  function TextBytes(table: AsciiTable, msg: string): (r: seq<Byte>)
    requires table.Valid()
    requires forall k :: 0 <= k < |msg| ==> IsPrintable(msg[k])
    reads table, table.symbols
    ensures |r| == |msg| && HexArrayToStr(r) == msg
  {
    TextRoundTrip(table, msg);
    Unwrapped(StrToHexArray(table, msg))
  }

  /**
   * The bytes of the part of the text the drag reads: its first `|combined|`
   * characters, which must be printable.
   */
  function ReadBytes(table: AsciiTable, combined: seq<Byte>, msg: string): (r: seq<Byte>)
    requires table.Valid()
    requires forall k :: 0 <= k < Min(|msg|, |combined|) ==> IsPrintable(msg[k])
    reads table, table.symbols
    ensures |r| == Min(|msg|, |combined|) && HexArrayToStr(r) == msg[..Min(|msg|, |combined|)]
  {
    var read := msg[..Min(|msg|, |combined|)];
    assert forall k :: 0 <= k < |read| ==> IsPrintable(read[k]);
    TextBytes(table, read)
  }

  /**
   * `/set msg1|msg2 index text`: the text, cut at the end of the stream, is
   * fixed in the target message from `index` on, and its XOR with the
   * stream in the other. An index past the stream is the source's TypeError:
   * nothing changes. Only the first `|combined|` characters are ever read
   * (the drag at offset 0 stops at the end of the stream), so only they
   * must be printable; they are then single bytes, and the rest of the text
   * plays no part.
   */
  method SetCommit(table: AsciiTable, combined: seq<Byte>, msg1: Encrypted, msg2: Encrypted,
                   target: Target, index: nat, msg: string) returns (ok: bool)
    requires table.Valid()
    requires forall k :: 0 <= k < Min(|msg|, |combined|) ==> IsPrintable(msg[k])
    requires msg1 != msg2
    modifies msg1, msg2
    ensures ok <==> index < |combined|
    ensures !ok ==> msg1.charsAtIndex == old(msg1.charsAtIndex) && msg2.charsAtIndex == old(msg2.charsAtIndex)
    ensures ok ==>
      var read := ReadBytes(table, combined, msg);
      var g := read[..Min(|read|, |combined| - index)];
      var h := DragAt(combined, g, index);
      && (target == Msg1 ==>
            msg1.charsAtIndex == AddedAt(old(msg1.charsAtIndex), g, index) && msg2.charsAtIndex == AddedAt(old(msg2.charsAtIndex), h, index))
      && (target == Msg2 ==>
            msg1.charsAtIndex == AddedAt(old(msg1.charsAtIndex), h, index) && msg2.charsAtIndex == AddedAt(old(msg2.charsAtIndex), g, index))
    ensures msg1.decryptedChars == old(msg1.decryptedChars) && msg2.decryptedChars == old(msg2.decryptedChars)
    ensures old(Paired(msg1, msg2, combined)) ==> Paired(msg1, msg2, combined)
  {
    var typed := ReadBytes(table, combined, msg);
    ok := SetBytes(combined, msg1, msg2, target, index, typed);
  }

  /** `/set` once the text has been turned into its bytes. */
  method SetBytes(combined: seq<Byte>, msg1: Encrypted, msg2: Encrypted, target: Target, index: nat, typed: seq<Byte>)
    returns (ok: bool)
    requires msg1 != msg2
    modifies msg1, msg2
    ensures ok <==> index < |combined|
    ensures !ok ==> msg1.charsAtIndex == old(msg1.charsAtIndex) && msg2.charsAtIndex == old(msg2.charsAtIndex)
    ensures ok ==>
      var g := typed[..Min(|typed|, |combined| - index)];
      var h := DragAt(combined, g, index);
      && (target == Msg1 ==>
            msg1.charsAtIndex == AddedAt(old(msg1.charsAtIndex), g, index) && msg2.charsAtIndex == AddedAt(old(msg2.charsAtIndex), h, index))
      && (target == Msg2 ==>
            msg1.charsAtIndex == AddedAt(old(msg1.charsAtIndex), h, index) && msg2.charsAtIndex == AddedAt(old(msg2.charsAtIndex), g, index))
    ensures msg1.decryptedChars == old(msg1.decryptedChars) && msg2.decryptedChars == old(msg2.decryptedChars)
    ensures old(Paired(msg1, msg2, combined)) ==> Paired(msg1, msg2, combined)
  {
    var asciiHexMsg := XorStrings(combined, typed);
    if index >= |asciiHexMsg| {
      return false;
    }
    var otherTarget := XorStrings(combined, asciiHexMsg[index].hex);
    var g := otherTarget[index].hex;
    DragTwice(combined, typed, index);
    assert g == typed[..Min(|typed|, |combined| - index)];
    assert asciiHexMsg[index].hex == DragAt(combined, g, index);
    WritePair(msg1, msg2, combined, target, g, asciiHexMsg[index].hex, index);
    ok := true;
  }

  /**
   * `/index msg1|msg2 index`: the entry at `index` of the last search (the
   * search text XOR the stream there) is fixed in the target message, and
   * its XOR with the stream, the search text, in the other. Without a
   * search, or with an index past it or past the stream (the source's
   * TypeError), nothing changes.
   */
  method IndexCommit(combined: seq<Byte>, stringsCombined: Option<seq<CribEntry>>, msg1: Encrypted, msg2: Encrypted,
                     target: Target, index: nat) returns (ok: bool)
    requires msg1 != msg2
    modifies msg1, msg2
    ensures ok <==> stringsCombined.Some? && index < |stringsCombined.value| && index < |combined|
    ensures !ok ==> msg1.charsAtIndex == old(msg1.charsAtIndex) && msg2.charsAtIndex == old(msg2.charsAtIndex)
    ensures ok ==>
      var s := stringsCombined.value[index].hex;
      var g := s[..Min(|s|, |combined| - index)];
      var h := DragAt(combined, s, index);
      && (target == Msg1 ==>
            msg1.charsAtIndex == AddedAt(old(msg1.charsAtIndex), g, index) && msg2.charsAtIndex == AddedAt(old(msg2.charsAtIndex), h, index))
      && (target == Msg2 ==>
            msg1.charsAtIndex == AddedAt(old(msg1.charsAtIndex), h, index) && msg2.charsAtIndex == AddedAt(old(msg2.charsAtIndex), g, index))
    ensures msg1.decryptedChars == old(msg1.decryptedChars) && msg2.decryptedChars == old(msg2.decryptedChars)
    ensures old(Paired(msg1, msg2, combined)) ==> Paired(msg1, msg2, combined)
  {
    if stringsCombined.None? || stringsCombined.value == [] || index >= |stringsCombined.value| {
      return false;
    }
    var s := stringsCombined.value[index].hex;
    var stringsMsg1 := XorStrings(combined, s);
    if index >= |stringsMsg1| {
      return false;
    }
    var stringsMsg2 := XorStrings(combined, stringsMsg1[index].hex);
    var g := stringsMsg2[index].hex;
    DragTwice(combined, s, index);
    assert g == s[..Min(|s|, |combined| - index)];
    assert stringsMsg1[index].hex == DragAt(combined, g, index);
    WritePair(msg1, msg2, combined, target, g, stringsMsg1[index].hex, index);
    ok := true;
  }

  /** `/unset index length`: clears the same positions in both messages. */
  method Unset(combined: seq<Byte>, msg1: Encrypted, msg2: Encrypted, index: int, length: int)
    requires msg1 != msg2
    modifies msg1, msg2
    ensures msg1.charsAtIndex == Removed(old(msg1.charsAtIndex), index, length)
    ensures msg2.charsAtIndex == Removed(old(msg2.charsAtIndex), index, length)
    ensures msg1.decryptedChars == old(msg1.decryptedChars) && msg2.decryptedChars == old(msg2.decryptedChars)
    ensures old(Paired(msg1, msg2, combined)) ==> Paired(msg1, msg2, combined)
  {
    ghost var chars1, chars2 := msg1.charsAtIndex, msg2.charsAtIndex;
    msg1.DeleteAtIndex(index, length);
    msg2.DeleteAtIndex(index, length);
    if PairedMaps(chars1, chars2, combined) {
      PairedAfterRemove(chars1, chars2, combined, index, length);
    }
  }

  // ---------------------------------------------------------------------------
  // What a right guess reveals

  /**
   * A right guess reveals the other message: if the stream is `p1 XOR p2`
   * and `g` is `p1` from `i` on, the byte the commit writes into the other
   * message is `p2` there.
   */
  lemma RightGuessRevealsOther(p1: seq<Byte>, p2: seq<Byte>, g: seq<Byte>, i: nat)
    requires |p1| == |p2| && i + |g| <= |p1|
    requires g == p1[i..i + |g|]
    ensures DragAt(XorSeq(p1, p2), g, i) == p2[i..i + |g|]
  {
    DragRecoversOther(p1, p2, g, i);
  }
}
