# Two-time-pad crib dragging, modelled in Dafny

`decrypt.php` helps recover two messages that were encrypted with the same
key stream. XOR-ing the two ciphertexts cancels the key. What remains is the
combined stream, which is the XOR of the two plaintexts. The user then
"crib drags": they guess a fragment of one plaintext and XOR it against the
combined stream at every offset. Where the guess is right, the result is
the other plaintext at that offset. A confirmed fragment is committed into
both messages at once: the guess into one message, its XOR with the stream
into the other.

This project models the core of that program:

- the printable-ASCII catalog and the table of all pairwise XORs
  (`AsciiXOR`, `AsciiChar`, `AsciiTable`; module `Ascii`);
- the byte utilities of class `Hex` (module `Hex`);
- the per-message state `Encrypted` (module `Encrypt`);
- the start-up and the `/set`, `/index` and `/unset` state changes of the
  command loop (module `Session`).

## Model conventions

- Every two-digit hex string of the source is modelled as the byte it
  denotes (`Hex.Byte`, a `bv8`). The string form is kept only where it is
  observable: the catalog's `hex` field, the `hexMapping` keys, the keys of
  `decryptedChars`, and the rendered key text.
- `Dechex` is injective and onto the two-digit lower-case strings, so
  nothing is lost by this choice.
- PHP's ordered arrays become a `map` for lookup. For the catalog, whose
  order is observable, a `seq` is added: `AsciiTable.symbols` is
  `getAll()`. An entry's own relation map `AsciiChar.xor` has no such
  `seq` (see "## Left out").
- The relation lists are specified by pure functions:
  - `AllPairs` lists every ordered pair, source-major;
  - `Index` appends each pair to the list under its XOR;
  - `Select` filters a list by XOR.
- The table's invariant `Valid()` ties `xorMapping` and every entry's `xor`
  map to these functions. The properties are proved about the functions.
- Classes are used where the source updates fields in place: `AsciiChar`
  (its `xor` map, filled by `addXor`), `AsciiTable` and `Encrypted`. Loops
  of the source that build or update state are methods with loop
  invariants. Two loops that only compute a value are functions: the
  early-exit loop of `Hex::isReadable` (decrypt.php:259-272) is
  `Hex.AllReadable`, and the filtering loop of `getReadableXor`
  (decrypt.php:55-61) is a map comprehension in
  `Ascii.AsciiChar.GetReadableXor`.
- In `Encrypted`, the empty string `''` that marks "no guess" is `None`.
- The catalog singleton `AsciiTable::instance()` is passed as a parameter.

Two error paths of the program are modelled as follows:

- A second ciphertext shorter than the first makes the combine loop read a
  missing element. Under strict types, `hexdec(null)` is a TypeError, so the
  program stops; it does not truncate. `Combine` and `Start` therefore
  require the first ciphertext to be no longer than the second.
- `/set` or `/index` with an index past the stream also ends in a TypeError,
  before any state changes. The model returns `ok == false` and changes
  nothing.

## Model

| member | source | states |
|---|---|---|
| Hex.Dechex | decrypt.php:277-280 | `dechex` gives two lower-case hex digits whose value is the byte |
| Hex.DechexOfHexValue | decrypt.php:277-280 | every two-digit lower-case hex string is the `dechex` of its value, so hex strings and bytes correspond one to one |
| Hex.DechexInjective | decrypt.php:277-280 | different bytes have different `dechex` strings |
| Hex.IsReadableIff | decrypt.php:257-275 | a non-empty hex array is readable iff every byte decodes to a letter, a digit, a space or one of `, . ! ?`; both directions |
| Hex.AllReadableIff | decrypt.php:259-274 | the early-exit loop accepts a text iff every character is in the accepted alphabet |
| Hex.ReadableCharIsAlphabet | decrypt.php:260-269 | the rejection condition fails exactly for the 67 accepted characters |
| Hex.XorStrings | decrypt.php:231-255 | one entry per stream offset; entry `i` has `min(|guess|, |stream|-i)` bytes, byte `k` being `guess[k] XOR stream[i+k]`, and its text is those bytes decoded |
| Hex.DragRecoversOther | decrypt.php:231-255 | if the stream is `p1 XOR p2` and the guess is `p1` from offset `i`, entry `i` is `p2` from `i`, cut at the end of the stream |
| Hex.DragTwice | decrypt.php:231-255 | dragging the result of a drag at the same offset gives back the guess, cut at the end of the stream |
| Ascii.AsciiChar.constructor | decrypt.php:35-41 | the entry keeps its character, hex and code, and starts with no relations |
| Ascii.AsciiChar.AddXor | decrypt.php:43-46 | records the relation under the character, replacing an earlier one and changing nothing else |
| Ascii.AsciiChar.GetReadableXor | decrypt.php:51-64 | keeps exactly the relations whose XOR byte is readable, each unchanged under its key |
| Ascii.ReadableRelations | decrypt.php:51-64 | after construction, entry `a` keeps its relation with `b` iff `a XOR b` decodes to an accepted character |
| Ascii.BuildCatalog | decrypt.php:92-98 | the catalog holds exactly the codes 32..126, in order; each is indexed by character, by hex and by code, and all three indexes give the same entry |
| Ascii.CatalogCharsDistinct | decrypt.php:92-98 | the catalog's characters are distinct and are exactly the printable ones |
| Ascii.BuildXor | decrypt.php:101-108 | the nested loops leave `xorMapping` equal to the index of all ordered pairs, in source-major order, and each entry's `xor` equal to its row |
| Ascii.AddSourceRow | decrypt.php:101-107 | one outer iteration adds the row of source `s` and fills only that entry's map |
| Ascii.AddRow | decrypt.php:102-107 | the inner loop appends each pair to the index under its XOR and records it in the source's map under the target's character |
| Ascii.IndexSelect | decrypt.php:105 | appending under `dechex(a^b)` lists under each byte exactly the relations with that XOR, in order; a byte with none has no key |
| Ascii.AddRelationAt | decrypt.php:105 | appending one relation changes only the list under its own XOR |
| Ascii.RelationOrder | decrypt.php:101-108 | there are 95 * 95 = 9025 relations, the pair (s, t) at position `s*95+t` |
| Ascii.PairIndexed | decrypt.php:101-108 | every ordered pair is recorded under the XOR of its codes |
| Ascii.OwnRelations | decrypt.php:101-107 | each entry's own map has exactly the printable characters as keys, the one of `b` holding the relation (a, b) |
| Ascii.RecordedBytes | decrypt.php:101-108 | the index has an entry for exactly the bytes below 128; for any other byte nothing is recorded |
| Ascii.RecordedIff | decrypt.php:101-108 | the relations under `h` are non-empty iff `h < 128`; both directions |
| Ascii.AsciiTable.constructor | decrypt.php:90-111 | the new table satisfies its invariant: the full catalog, the index of all ordered pairs, and each entry's own relations |
| Ascii.AsciiTable.GetAll | decrypt.php:177-180 | 95 entries, entry `k` being code `32+k` |
| Ascii.AsciiTable.GetAsciiCharByDecimal | decrypt.php:143-146 | an entry exactly for codes 32..126, the one of that code; `None` otherwise |
| Ascii.AsciiTable.GetAsciiCharByHex | decrypt.php:148-151 | an entry exactly for two-digit hex strings of value 32..126, the one with that hex; `None` for any other string |
| Ascii.AsciiTable.GetAsciiCharByString | decrypt.php:153-156 | an entry exactly for a one-character printable string, the one of that character; `None` otherwise |
| Ascii.AsciiTable.LookupsAgree | decrypt.php:143-156 | for every code 32..126 the lookups by code, by character and by hex give the same entry, the one `getAll` lists |
| Ascii.AsciiTable.GetAsciiCharsByHex | decrypt.php:163-172 | one lookup per element, in order; present iff the byte is 32..126, and then the entry of that byte |
| Ascii.AsciiTable.GetReadableXorForHex | decrypt.php:118-121 | the relations recorded under the byte, in recording order; `[]` when nothing is recorded |
| Ascii.DistinctEndpoints | decrypt.php:128-140 | the loop keeps the left and right symbol of each relation on first sight of its hex; the result has no repeated hex and covers every hex seen |
| Ascii.DedupPrefix | decrypt.php:131-137 | the loop only appends: the symbols kept for a prefix of the relations stay, in order, at the front of the result for the whole list |
| Ascii.DedupProperties | decrypt.php:131-137 | first-occurrence de-duplication leaves no repeated hex, adds no symbol and keeps every hex |
| Ascii.AsciiTable.GetXorPossibleSolutions | decrypt.php:126-141 | the distinct endpoints of the relations under `hex`: no repeated hex; exactly the entries whose code XOR `hex` is printable; each one's partner is also present; empty iff `hex >= 128` |
| Ascii.SolutionsOf | decrypt.php:126-141 | the same four properties, stated over the catalog's pair list |
| Ascii.StrToHexArray | decrypt.php:216-220 | one element per character; present iff the character is printable, and then its code |
| Ascii.TextRoundTrip | decrypt.php:216-229 | printable text survives `strToHexArray` followed by `hexArrayToStr` |
| Ascii.BytesRoundTrip | decrypt.php:216-229 | printable bytes survive `hexArrayToStr` followed by `strToHexArray` |
| Encrypt.Encrypted.constructor | decrypt.php:296-306 | keeps the keys of the given guesses, all emptied; no position fixed; both streams stored |
| Encrypt.FreshRendersDots | decrypt.php:303-305 | with every guess empty and no position fixed, each rendered position is `.` and each key position unknown |
| Encrypt.Encrypted.Add | decrypt.php:308-316 | value `00` fixes the byte at the index; any other value records the guess, which `getDecryptedChar` then returns; the other map is unchanged |
| Encrypt.Encrypted.AddAtIndex | decrypt.php:318-321 | fixes the byte at the index, replacing any earlier one; the guesses are unchanged |
| Encrypt.Encrypted.DeleteAtIndex | decrypt.php:323-328 | clears exactly positions `index .. index+length-1` (none when `length <= 0`); nothing else changes |
| Encrypt.Encrypted.AddHexAtIndex | decrypt.php:330-335 | fixes the array's bytes from `index` on, in order; the guesses are unchanged |
| Encrypt.AddedAtPositions | decrypt.php:330-335 | after the write, exactly the old positions and `index .. index+n-1` are fixed, the latter to the array's bytes |
| Encrypt.Encrypted.GetDecryptedChar | decrypt.php:337-340 | the guess stored under the hex, `None` when the hex is not a key |
| Encrypt.Encrypted.GetKey | decrypt.php:342-358 | the key text: per ciphertext position, the two digits of ciphertext XOR fixed byte plus a space, or `.` |
| Encrypt.KeyRoundTrip | decrypt.php:342-358 | the key text is unambiguous: parsing it back gives every position, known or unknown |
| Encrypt.KeyRecovered | decrypt.php:342-358 | when the ciphertext is plaintext XOR key and the fixed bytes are right, each fixed position yields the key byte |
| Encrypt.Encrypted.ToString | decrypt.php:360-379 | one character per stream position, then a newline: a fixed byte wins over a guess for the stream value, and `.` stands for nothing known |
| Encrypt.RenderAfterAdd | decrypt.php:330-335 | after writing a fragment, the rendered text shows the fragment at its place and is unchanged elsewhere |
| Encrypt.RenderAfterRemove | decrypt.php:323-328 | cleared positions fall back to the guess for their stream value, or `.`; other positions are unchanged |
| Session.Combine | decrypt.php:398-400 | the combined stream is the position-wise XOR of the two ciphertexts, as long as the first |
| Session.KeyCancels | decrypt.php:398-400 | under a shared key stream, the combined stream is the XOR of the two plaintexts |
| Session.FlipHas | decrypt.php:403 | every hex of the stream is a key of `array_flip` |
| Session.FlipLast | decrypt.php:403 | each key of `array_flip` maps to the last position holding that hex |
| Session.Start | decrypt.php:392-411 | the combined stream and two distinct new objects: each holds an empty guess for every hex of the stream, no fixed position, and its own ciphertext |
| Session.PairedAfterWrite | decrypt.php:528-534 | writing a fragment into one message and its drag into the other keeps the two messages paired: the same fixed positions, whose bytes XOR to the stream byte |
| Session.PairedAfterRemove | decrypt.php:562-563 | clearing the same positions in both messages keeps them paired |
| Session.WritePair | decrypt.php:528-534 | the two `addHexAtIndex` calls: the fragment goes into the target, its drag into the other; the guesses are unchanged; pairing is preserved |
| Session.TextBytes | decrypt.php:576 | the bytes of printable text, one per character, decoding back to the text |
| Session.ReadBytes | decrypt.php:576 | the bytes of the characters of the text that the drag reads (as many as the stream is long), one byte per character, decoding back to those characters |
| Session.SetCommit | decrypt.php:576-585 | for text printable within the stream's length: succeeds iff the index is inside the stream. Then the typed text, cut at the stream's end, is fixed in the target and its XOR with the stream in the other. Otherwise nothing changes. Guesses unchanged; pairing preserved |
| Session.SetBytes | decrypt.php:576-585 | the same commit, stated for the text's bytes |
| Session.IndexCommit | decrypt.php:519-534 | succeeds iff a search exists and the index is inside it and the stream. Then the search entry, cut at the stream's end, goes into the target and its drag (the search text) into the other. Otherwise nothing changes. Pairing preserved |
| Session.Unset | decrypt.php:558-563 | clears the same positions in both messages and keeps the pairing |
| Session.RightGuessRevealsOther | decrypt.php:525-534 | if the stream is `p1 XOR p2` and the fragment is `p1` at `i`, the bytes written into the other message are `p2` there |

## Left out

- The command loop's terminal handling, history and regular-expression
  parsing (decrypt.php:453-512, 588-608): the parsed target, index, length
  and text are parameters of the `Session` methods.
- The `/search` command itself (decrypt.php:512-514) is one `Hex.XorStrings`
  call; its result is the `stringsCombined` parameter of
  `Session.IndexCommit`.
- Reading the ciphertext files and unpacking them to hex (decrypt.php:385-396)
  is I/O; the ciphertexts are parameters of `Session.Start`.
- Printing:
  - `printMessages` (decrypt.php:413-422);
  - the readable-offset printing of `xorStrings` (its `$print` flag,
    decrypt.php:249-251);
  - `AsciiTable::__toString` (decrypt.php:182-203);
  - the `/lookup` listing (decrypt.php:537-557), which only prints the
    result of `getXorPossibleSolutions`.
- The static singleton `AsciiTable::instance()` (decrypt.php:83-88, 110):
  the table is passed to `StrToHexArray` explicitly.
- The insertion order of an entry's relations: `AsciiChar::addXor`
  fills `$xor` in target order (decrypt.php:102-106), `getReadableXor`
  returns an ordered array (decrypt.php:55-63), and
  `AsciiTable::__toString` lists `$xor` in that order (decrypt.php:195). The
  model's `AsciiChar.xor` and `GetReadableXor` are maps keyed by the
  target character, so that order is not captured; the contents are.
- The optional fourth argument of the `AsciiChar` constructor is not
  modelled: the only call passes none, so the entry starts with no
  relations.
- `AsciiTable.charMapping` is keyed by the character rather than by the
  one-character string; `xorMapping` is keyed by the byte's value rather
  than by its `dechex` string. `GetAsciiCharByString` and
  `GetAsciiCharByHex` keep the source's string parameters. The lookups
  `GetAsciiCharsByHex`, `GetReadableXorForHex` and `GetXorPossibleSolutions`
  take bytes rather than hex strings (decrypt.php:118, 126, 163), so a key
  that is not two hex digits, such as `"zz"` (an empty array or `null` in
  the source), cannot be asked of them.
- PHP converts array keys that look like decimal integers ("10", "42") to
  integers. The conversion is applied the same way when a key is stored
  and when it is looked up, so `Encrypted.decryptedChars` is modelled with
  plain string keys.
- `PHP_EOL` is modelled as `"\n"`.
- Hex.IsReadableIff: stated for non-empty arrays only. `isReadable([])`
  depends on the PHP version (`str_split('')`); the model's `IsReadable`
  returns true there, as PHP 8.2 does.
- Ascii.StrToHexArray: works per character, where PHP's `str_split` works
  per byte. A multi-byte character is one missing entry here, but one
  missing entry per byte in the source. For the empty string the model
  gives `[]`, as PHP 8.2 does; before PHP 8.2 `str_split('')` is `['']`,
  so the source gives `[null]`.
- Session.SetCommit: requires the text's first `|combined|` characters to
  be printable. The input loop tests only the first byte of each chunk read
  (decrypt.php:475), so a pasted chunk such as `"aé"` reaches `/set` whole.
  `strToHexArray` then yields `null` for the non-printable part
  (decrypt.php:218). The drag at offset 0 reads the guess up to the end of
  the stream (decrypt.php:239-244), so a non-printable character there
  reaches `hexdec(null)` (decrypt.php:241) and stops the source with a
  TypeError; that failure is not modelled. Characters past that point are
  never read, and the model accepts them as the source does.
- Session.Combine: requires the first ciphertext to be no longer than the
  second. For a shorter second ciphertext the source stops with a
  TypeError, which is not modelled.
- Session.Start: the same requirement as `Session.Combine`, for the same
  reason.
- Session.IndexCommit: the message printed for a missing search
  (decrypt.php:519-523) is not modelled; the command only reports
  `ok == false`.
- The `Add` and `GetDecryptedChar` guesses are never set by the command
  loop. They are modelled because `__toString` reads them.
