/**
 * The printable-ASCII catalog and the XOR relation table of decrypt.php:
 * classes `AsciiXOR`, `AsciiChar` and `AsciiTable`, and `Hex::strToHexArray`,
 * the one byte utility that consults the table.
 *
 * The source's ordered PHP arrays become a `map` for lookup plus, where the
 * order is observable, a `seq`; the relation lists are specified by the pure
 * functions `AllPairs`, `Index` and `Select` below.
 */
module Ascii {
  import opened Wrappers
  import opened Hex

  /**
   * `AsciiXOR`: the fact that `left XOR right` is the byte `hexXOR`. The source
   * stores the byte's two-digit `dechex` string; the model stores the byte, as
   * it does for every hex string of the source (`Dechex` is injective, see
   * `Hex.DechexInjective` and `Hex.DechexOfHexValue`).
   */
  datatype AsciiXOR = AsciiXOR(left: AsciiChar, right: AsciiChar, hexXOR: Byte)

  /** `AsciiChar`: one printable character with its hex and decimal forms and its XOR relations. */
  class AsciiChar {
    const character: char
    const hex: string
    const dec: Byte
    /** Relations with this character as left symbol, keyed by the right symbol's character. */
    var xor: map<char, AsciiXOR>

    constructor (character: char, hex: string, no: Byte)
      ensures this.character == character && this.hex == hex && dec == no
      ensures xor == map[]
    {
      this.character := character;
      this.hex := hex;
      this.dec := no;
      this.xor := map[];
    }

    /** `AsciiChar::addXor`: records `x` under the character `c`, replacing any earlier entry. */
    method AddXor(c: char, x: AsciiXOR)
      modifies this
      ensures xor == old(xor)[c := x]
    {
      xor := xor[c := x];
    }

    /** `AsciiChar::getReadableXor`: the relations whose XOR byte is itself readable. */
    function GetReadableXor(): (r: map<char, AsciiXOR>)
      reads this
      ensures forall c :: c in r <==> c in xor && IsReadable([xor[c].hexXOR])
      ensures forall c :: c in r ==> r[c] == xor[c]
    {
      map c | c in xor && IsReadable([xor[c].hexXOR]) :: xor[c]
    }
  }

  /** The printable range of the catalog, codes 32..126. */
  predicate IsPrintable(c: char) {
    32 <= c as int <= 126
  }

  // ---------------------------------------------------------------------------
  // The relation lists, as pure functions

  /** The relation the table records for the ordered pair (src, tgt). */
  function Relation(src: AsciiChar, tgt: AsciiChar): AsciiXOR {
    AsciiXOR(src, tgt, src.dec ^ tgt.dec)
  }

  /** The relations of one source symbol, in target order. */
  function Row(src: AsciiChar, tgts: seq<AsciiChar>): (r: seq<AsciiXOR>) {
    seq(|tgts|, t requires 0 <= t < |tgts| => Relation(src, tgts[t]))
  }

  /** Every ordered pair, source-major then target order: the order the constructor visits them. */
  function AllPairs(srcs: seq<AsciiChar>, tgts: seq<AsciiChar>): seq<AsciiXOR>
    decreases |srcs|
  {
    if srcs == [] then [] else AllPairs(srcs[..|srcs| - 1], tgts) + Row(srcs[|srcs| - 1], tgts)
  }

  /** The per-symbol map a sequence of `addXor` calls leaves behind. */
  function RowMap(src: AsciiChar, tgts: seq<AsciiChar>): map<char, AsciiXOR>
    decreases |tgts|
  {
    if tgts == [] then map[]
    else RowMap(src, tgts[..|tgts| - 1])[tgts[|tgts| - 1].character := Relation(src, tgts[|tgts| - 1])]
  }

  /** `$xorMapping[$x->hexXOR][] = $x`: append a relation to the list under its hex. */
  function AddRelation(m: map<int, seq<AsciiXOR>>, x: AsciiXOR): map<int, seq<AsciiXOR>> {
    var key := x.hexXOR as int;
    m[key := (if key in m then m[key] else []) + [x]]
  }

  /** The index built by appending the relations one by one. */
  function Index(rels: seq<AsciiXOR>): map<int, seq<AsciiXOR>>
    decreases |rels|
  {
    if rels == [] then map[] else AddRelation(Index(rels[..|rels| - 1]), rels[|rels| - 1])
  }

  /** The relations with XOR hex `h`, in their original order. */
  function Select(rels: seq<AsciiXOR>, h: Byte): seq<AsciiXOR>
    decreases |rels|
  {
    if rels == [] then []
    else (if rels[0].hexXOR == h then [rels[0]] else []) + Select(rels[1..], h)
  }

  lemma {:induction false} SelectSnoc(rels: seq<AsciiXOR>, x: AsciiXOR, h: Byte)
    ensures Select(rels + [x], h) == Select(rels, h) + (if x.hexXOR == h then [x] else [])
    decreases |rels|
  {
    if rels != [] {
      assert (rels + [x])[1..] == rels[1..] + [x];
      SelectSnoc(rels[1..], x, h);
    }
  }

  /** `Select` keeps exactly the relations under `h`. */
  lemma {:induction false} SelectMember(rels: seq<AsciiXOR>, h: Byte, x: AsciiXOR)
    ensures x in Select(rels, h) <==> x in rels && x.hexXOR == h
    decreases |rels|
  {
    if rels != [] {
      SelectMember(rels[1..], h, x);
      assert x in rels <==> x == rels[0] || x in rels[1..];
    }
  }

  /** The index holds, under each hex, exactly the relations with that hex, in order; no other key. */
  lemma {:induction false} IndexSelect(rels: seq<AsciiXOR>, h: Byte)
    ensures h as int in Index(rels) <==> Select(rels, h) != []
    ensures h as int in Index(rels) ==> Index(rels)[h as int] == Select(rels, h)
    decreases |rels|
  {
    if rels != [] {
      var init, x := rels[..|rels| - 1], rels[|rels| - 1];
      assert rels == init + [x];
      IndexSelect(init, h);
      SelectSnoc(init, x, h);
      AddRelationAt(Index(init), x, h);
      assert Index(rels) == AddRelation(Index(init), x);
    }
  }

  /** Appending a relation changes only the list under its own hex. */
  lemma AddRelationAt(m: map<int, seq<AsciiXOR>>, x: AsciiXOR, h: Byte)
    ensures h as int in AddRelation(m, x) <==> h as int in m || x.hexXOR == h
    ensures h as int in AddRelation(m, x) ==>
      AddRelation(m, x)[h as int] == (if h as int in m then m[h as int] else []) + (if x.hexXOR == h then [x] else [])
  {
    if x.hexXOR as int == h as int {
      ByteValueInjective(x.hexXOR, h);
    }
  }

  /** Every ordered pair is among the relations. */
  lemma {:induction false} AllPairsContains(srcs: seq<AsciiChar>, tgts: seq<AsciiChar>, s: nat, t: nat)
    requires s < |srcs| && t < |tgts|
    ensures Relation(srcs[s], tgts[t]) in AllPairs(srcs, tgts)
    decreases |srcs|
  {
    var init, last := srcs[..|srcs| - 1], srcs[|srcs| - 1];
    if s < |init| {
      AllPairsContains(init, tgts, s, t);
      assert init[s] == srcs[s];
    } else {
      assert Row(last, tgts)[t] == Relation(srcs[s], tgts[t]);
    }
  }

  /** Every relation is the relation of some ordered pair; the pair is returned. */
  lemma {:induction false} AllPairsOrigin(srcs: seq<AsciiChar>, tgts: seq<AsciiChar>, x: AsciiXOR) returns (s: nat, t: nat)
    requires x in AllPairs(srcs, tgts)
    ensures s < |srcs| && t < |tgts| && x == Relation(srcs[s], tgts[t])
    decreases |srcs|
  {
    var init, last := srcs[..|srcs| - 1], srcs[|srcs| - 1];
    if x in AllPairs(init, tgts) {
      s, t := AllPairsOrigin(init, tgts, x);
      assert init[s] == srcs[s];
    } else {
      var row := Row(last, tgts);
      assert x in row;
      t :| 0 <= t < |tgts| && row[t] == x;
      s := |srcs| - 1;
    }
  }

  lemma {:induction false} AllPairsLength(srcs: seq<AsciiChar>, tgts: seq<AsciiChar>)
    ensures |AllPairs(srcs, tgts)| == |srcs| * |tgts|
    decreases |srcs|
  {
    if srcs != [] {
      AllPairsLength(srcs[..|srcs| - 1], tgts);
      assert (|srcs| - 1) * |tgts| + |tgts| == |srcs| * |tgts|;
    }
  }

  function CharsOf(syms: seq<AsciiChar>): set<char> {
    set y | y in syms :: y.character
  }

  /** After the `addXor` calls of one row, each target's character maps to its relation and nothing else is keyed. */
  lemma {:induction false} RowMapEntries(src: AsciiChar, tgts: seq<AsciiChar>)
    requires forall i, j :: 0 <= i < j < |tgts| ==> tgts[i].character != tgts[j].character
    ensures RowMap(src, tgts).Keys == CharsOf(tgts)
    ensures forall t :: 0 <= t < |tgts| ==> RowMap(src, tgts)[tgts[t].character] == Relation(src, tgts[t])
    decreases |tgts|
  {
    if tgts != [] {
      var init, last := tgts[..|tgts| - 1], tgts[|tgts| - 1];
      RowMapEntries(src, init);
      assert tgts == init + [last];
      assert CharsOf(tgts) == CharsOf(init) + {last.character};
      forall t | 0 <= t < |tgts|
        ensures RowMap(src, tgts)[tgts[t].character] == Relation(src, tgts[t])
      {
        if t < |init| {
          assert init[t] == tgts[t];
        }
      }
    }
  }

  /** Recording the next relation of a row: the index gains it at the end of its hex's list. */
  lemma IndexStep(prefix: seq<AsciiXOR>, src: AsciiChar, tgts: seq<AsciiChar>, t: nat)
    requires t < |tgts|
    ensures Index(prefix + Row(src, tgts[..t + 1]))
         == AddRelation(Index(prefix + Row(src, tgts[..t])), Relation(src, tgts[t]))
  {
    var done := prefix + Row(src, tgts[..t]);
    var x := Relation(src, tgts[t]);
    assert prefix + Row(src, tgts[..t + 1]) == done + [x];
    assert (done + [x])[..|done + [x]| - 1] == done;
  }

  lemma RowMapStep(src: AsciiChar, tgts: seq<AsciiChar>, t: nat)
    requires t < |tgts|
    ensures RowMap(src, tgts[..t + 1]) == RowMap(src, tgts[..t])[tgts[t].character := Relation(src, tgts[t])]
  {
    assert tgts[..t + 1][..t] == tgts[..t];
  }

  lemma AllPairsStep(srcs: seq<AsciiChar>, tgts: seq<AsciiChar>, s: nat)
    requires s < |srcs|
    ensures AllPairs(srcs[..s + 1], tgts) == AllPairs(srcs[..s], tgts) + Row(srcs[s], tgts[..|tgts|])
  {
    assert srcs[..s + 1][..s] == srcs[..s];
    assert tgts[..|tgts|] == tgts;
  }

  // ---------------------------------------------------------------------------
  // De-duplication of candidate symbols

  /** The left and right symbol of each relation, in order. */
  function Endpoints(rels: seq<AsciiXOR>): seq<AsciiChar>
    decreases |rels|
  {
    if rels == [] then []
    else Endpoints(rels[..|rels| - 1]) + [rels[|rels| - 1].left, rels[|rels| - 1].right]
  }

  function HexesOf(syms: seq<AsciiChar>): set<string> {
    set y | y in syms :: y.hex
  }

  /** Keeps the first symbol of each hex, in first-occurrence order. */
  function Dedup(syms: seq<AsciiChar>): seq<AsciiChar>
    decreases |syms|
  {
    if syms == [] then []
    else
      var d := Dedup(syms[..|syms| - 1]);
      var y := syms[|syms| - 1];
      if y.hex in HexesOf(d) then d else d + [y]
  }

  /** Each endpoint comes from some relation; that relation is returned. */
  lemma {:induction false} EndpointOrigin(rels: seq<AsciiXOR>, y: AsciiChar) returns (x: AsciiXOR)
    requires y in Endpoints(rels)
    ensures x in rels && (y == x.left || y == x.right)
    decreases |rels|
  {
    var init, last := rels[..|rels| - 1], rels[|rels| - 1];
    if y in Endpoints(init) {
      x := EndpointOrigin(init, y);
      assert x in rels by {
        var k :| 0 <= k < |init| && init[k] == x;
        assert rels[k] == x;
      }
    } else {
      x := last;
    }
  }

  /** Both symbols of every relation are endpoints. */
  lemma {:induction false} EndpointOf(rels: seq<AsciiXOR>, x: AsciiXOR)
    requires x in rels
    ensures x.left in Endpoints(rels) && x.right in Endpoints(rels)
    decreases |rels|
  {
    var init, last := rels[..|rels| - 1], rels[|rels| - 1];
    if x != last {
      var k :| 0 <= k < |rels| && rels[k] == x;
      assert init[k] == x;
      EndpointOf(init, x);
    }
  }

  /** No two symbols of a de-duplicated sequence share a hex; its symbols and hexes are those of the input. */
  lemma {:induction false} DedupProperties(syms: seq<AsciiChar>)
    ensures forall i, j :: 0 <= i < j < |Dedup(syms)| ==> Dedup(syms)[i].hex != Dedup(syms)[j].hex
    ensures forall y :: y in Dedup(syms) ==> y in syms
    ensures HexesOf(Dedup(syms)) == HexesOf(syms)
    decreases |syms|
  {
    if syms != [] {
      var init, y := syms[..|syms| - 1], syms[|syms| - 1];
      DedupProperties(init);
      assert syms == init + [y];
      assert HexesOf(syms) == HexesOf(init) + {y.hex};
      var d := Dedup(init);
      assert forall i :: 0 <= i < |d| ==> d[i].hex in HexesOf(d);
      if y.hex !in HexesOf(d) {
        assert HexesOf(d + [y]) == HexesOf(d) + {y.hex};
      }
    }
  }

  /** Earlier first occurrences stay in front: the de-duplicated prefix is a prefix of the whole. */
  lemma {:induction false} DedupPrefix(a: seq<AsciiChar>, b: seq<AsciiChar>)
    ensures Dedup(a) <= Dedup(a + b)
    decreases |b|
  {
    if b != [] {
      var init := b[..|b| - 1];
      DedupPrefix(a, init);
      assert a + b == (a + init) + [b[|b| - 1]];
      assert (a + b)[..|a + b| - 1] == a + init;
    } else {
      assert a + b == a;
    }
  }

  /** When equal hexes mean equal symbols, de-duplication loses no symbol. */
  lemma DedupKeepsAll(syms: seq<AsciiChar>)
    requires forall y, z :: y in syms && z in syms && y.hex == z.hex ==> y == z
    ensures forall y :: y in syms <==> y in Dedup(syms)
  {
    DedupProperties(syms);
    forall y | y in syms
      ensures y in Dedup(syms)
    {
      assert y.hex in HexesOf(Dedup(syms));
      var z :| z in Dedup(syms) && z.hex == y.hex;
    }
  }

  lemma DedupSnoc(syms: seq<AsciiChar>, y: AsciiChar)
    ensures Dedup(syms + [y]) == if y.hex in HexesOf(Dedup(syms)) then Dedup(syms) else Dedup(syms) + [y]
  {
    assert (syms + [y])[..|syms|] == syms;
  }

  lemma HexesOfSnoc(syms: seq<AsciiChar>, y: AsciiChar)
    ensures HexesOf(syms + [y]) == HexesOf(syms) + {y.hex}
  {
    assert forall z :: z in syms + [y] <==> z in syms || z == y;
  }

  // ---------------------------------------------------------------------------
  // The catalog

  /** `sym` is the catalog entry of `code`: `chr(code)`, `dechex(code)`, `code`. */
  predicate IsSymbolOf(sym: AsciiChar, code: int) {
    32 <= code <= 126 && sym.dec as int == code && sym.character == code as char && sym.hex == Dechex(sym.dec)
  }

  /** The catalog after the constructor's first loop has handled the codes below `i`. */
  ghost predicate CatalogUpTo(cm: map<char, AsciiChar>, hm: map<string, AsciiChar>, dm: map<int, AsciiChar>,
                              all: seq<AsciiChar>, i: int)
  {
    && SymbolsUpTo(all, i)
    && CharIndexUpTo(cm, all, i)
    && DecIndexUpTo(dm, all, i)
    && HexIndexUpTo(hm, all, i)
  }

  /** The enumeration holds the entries of codes 32..i-1 in ascending order. */
  ghost predicate SymbolsUpTo(all: seq<AsciiChar>, i: int) {
    && 32 <= i <= 127 && |all| == i - 32
    && (forall k :: 0 <= k < |all| ==> IsSymbolOf(all[k], 32 + k))
  }

  /** The character index holds exactly the characters of codes 32..i-1. */
  ghost predicate CharIndexUpTo(cm: map<char, AsciiChar>, all: seq<AsciiChar>, i: int)
    requires SymbolsUpTo(all, i)
  {
    && (forall c :: c in cm <==> 32 <= c as int < i)
    && (forall c :: c in cm ==> cm[c] == all[c as int - 32])
  }

  /** The decimal index holds exactly the codes 32..i-1. */
  ghost predicate DecIndexUpTo(dm: map<int, AsciiChar>, all: seq<AsciiChar>, i: int)
    requires SymbolsUpTo(all, i)
  {
    && (forall d :: 32 <= d < i ==> d in dm)
    && (forall d :: d in dm ==> 32 <= d < i && dm[d] == all[d - 32])
  }

  /** The hex index holds exactly the dechex strings of codes 32..i-1. */
  ghost predicate HexIndexUpTo(hm: map<string, AsciiChar>, all: seq<AsciiChar>, i: int)
    requires SymbolsUpTo(all, i)
  {
    && (forall b: Byte :: 32 <= b as int < i ==> Dechex(b) in hm)
    && (forall h :: h in hm ==> IsHex2(h) && 32 <= HexValue(h) < i && hm[h] == all[HexValue(h) - 32])
  }

  lemma SymbolsStep(all: seq<AsciiChar>, i: int, entry: AsciiChar)
    requires SymbolsUpTo(all, i) && i <= 126 && IsSymbolOf(entry, i)
    ensures SymbolsUpTo(all + [entry], i + 1)
  {
    var all' := all + [entry];
    forall k | 0 <= k < |all'|
      ensures IsSymbolOf(all'[k], 32 + k)
    {
      if k < |all| {
        assert all'[k] == all[k];
      }
    }
  }

  lemma DecIndexStep(dm: map<int, AsciiChar>, all: seq<AsciiChar>, i: int, entry: AsciiChar)
    requires SymbolsUpTo(all, i) && DecIndexUpTo(dm, all, i) && i <= 126 && IsSymbolOf(entry, i)
    requires SymbolsUpTo(all + [entry], i + 1)
    ensures DecIndexUpTo(dm[entry.dec as int := entry], all + [entry], i + 1)
  {
    var dm', all' := dm[i := entry], all + [entry];
    forall d | d in dm'
      ensures 32 <= d < i + 1 && dm'[d] == all'[d - 32]
    {
      if d != i {
        assert all'[d - 32] == all[d - 32];
      }
    }
  }

  lemma HexIndexStep(hm: map<string, AsciiChar>, all: seq<AsciiChar>, i: int, entry: AsciiChar)
    requires SymbolsUpTo(all, i) && HexIndexUpTo(hm, all, i) && i <= 126 && IsSymbolOf(entry, i)
    requires SymbolsUpTo(all + [entry], i + 1)
    ensures HexIndexUpTo(hm[entry.hex := entry], all + [entry], i + 1)
  {
    var hm', all' := hm[entry.hex := entry], all + [entry];
    forall b: Byte | 32 <= b as int < i + 1
      ensures Dechex(b) in hm'
    {
      if b as int == i {
        ByteValueInjective(b, entry.dec);
      }
    }
    forall h | h in hm'
      ensures IsHex2(h) && 32 <= HexValue(h) < i + 1 && hm'[h] == all'[HexValue(h) - 32]
    {
      if h != entry.hex {
        assert hm'[h] == hm[h];
        assert HexValue(h) != i by {
          if HexValue(h) == i {
            DechexOfHexValue(h);
          }
        }
        assert all'[HexValue(h) - 32] == all[HexValue(h) - 32];
      }
    }
  }

  /** The hex index answers exactly the two-digit hex strings of codes 32..126, with their entries. */
  lemma HexLookup(hm: map<string, AsciiChar>, all: seq<AsciiChar>, h: string)
    requires SymbolsUpTo(all, 127) && HexIndexUpTo(hm, all, 127)
    ensures h in hm <==> IsHex2(h) && 32 <= HexValue(h) <= 126
    ensures h in hm ==> hm[h] == all[HexValue(h) - 32] && hm[h].hex == h
  {
    if IsHex2(h) {
      DechexOfHexValue(h);
    }
    if h in hm {
      var k := HexValue(h) - 32;
      assert IsSymbolOf(all[k], 32 + k);
    }
  }

  /** One iteration of the constructor's first loop keeps the catalog consistent. */
  lemma CatalogStep(cm: map<char, AsciiChar>, hm: map<string, AsciiChar>, dm: map<int, AsciiChar>,
                    all: seq<AsciiChar>, i: int, entry: AsciiChar)
    requires CatalogUpTo(cm, hm, dm, all, i) && i <= 126 && IsSymbolOf(entry, i)
    ensures CatalogUpTo(cm[entry.character := entry], hm[entry.hex := entry], dm[entry.dec as int := entry],
                        all + [entry], i + 1)
  {
    SymbolsStep(all, i, entry);
    DecIndexStep(dm, all, i, entry);
    HexIndexStep(hm, all, i, entry);
  }

  /**
   * The constructor's first loop: one fresh entry per code 32..126, indexed by
   * character, by hex and by decimal, with no relations yet.
   */
  method BuildCatalog() returns (cm: map<char, AsciiChar>, hm: map<string, AsciiChar>,
                                 dm: map<int, AsciiChar>, all: seq<AsciiChar>)
    ensures CatalogUpTo(cm, hm, dm, all, 127)
    ensures forall k :: 0 <= k < |all| ==> all[k].xor == map[] && fresh(all[k])
  {
    cm, hm, dm, all := map[], map[], map[], [];
    var i := 32;
    while i <= 126
      invariant CatalogUpTo(cm, hm, dm, all, i)
      invariant forall k :: 0 <= k < |all| ==> all[k].xor == map[] && fresh(all[k])
    {
      var code := ByteOf(i);
      var entry := new AsciiChar(i as char, Dechex(code), code);
      CatalogStep(cm, hm, dm, all, i, entry);
      cm := cm[entry.character := entry];
      hm := hm[entry.hex := entry];
      dm := dm[entry.dec as int := entry];
      all := all + [entry];
      i := i + 1;
    }
  }

  /** The symbols are the codes 32, 33, ... in order (so no two of them are the same object). */
  ghost predicate Numbered(all: seq<AsciiChar>) {
    forall k :: 0 <= k < |all| ==> all[k].dec as int == 32 + k
  }

  /**
   * The constructor's nested loops over `getAll()`: every ordered pair, source
   * major, is appended to the index under its XOR and recorded in the source
   * symbol's own map under the target's character. The index is returned; the
   * constructor stores it in `xorMapping`.
   */
  method BuildXor(all: seq<AsciiChar>) returns (xm: map<int, seq<AsciiXOR>>)
    requires Numbered(all)
    requires forall k :: 0 <= k < |all| ==> all[k].xor == map[]
    modifies all
    ensures xm == Index(AllPairs(all, all))
    ensures forall k :: 0 <= k < |all| ==> all[k].xor == RowMap(all[k], all)
  {
    xm := map[];
    var s := 0;
    assert all[..0] == [];
    while s < |all|
      invariant 0 <= s <= |all|
      invariant RowsBuilt(all, s, xm)
    {
      xm := AddSourceRow(all, s, xm);
      s := s + 1;
    }
    assert all[..s] == all;
  }

  /** The state after the outer loop has handled the first `s` source symbols. */
  ghost predicate RowsBuilt(all: seq<AsciiChar>, s: int, xm: map<int, seq<AsciiXOR>>)
    reads all
  {
    && 0 <= s <= |all|
    && Numbered(all)
    && xm == Index(AllPairs(all[..s], all))
    && (forall k :: 0 <= k < |all| ==> all[k].xor == if k < s then RowMap(all[k], all) else map[])
  }

  /** One iteration of the outer loop: the row of source symbol `s`. */
  method AddSourceRow(all: seq<AsciiChar>, s: int, xm: map<int, seq<AsciiXOR>>) returns (xm': map<int, seq<AsciiXOR>>)
    requires 0 <= s < |all| && RowsBuilt(all, s, xm)
    modifies all[s]
    ensures RowsBuilt(all, s + 1, xm')
  {
    var sourceChar := all[s];
    xm' := AddRow(sourceChar, all, xm, AllPairs(all[..s], all));
    forall k | 0 <= k < |all|
      ensures all[k].xor == if k < s + 1 then RowMap(all[k], all) else map[]
    {
      if k != s {
        assert all[k].dec != sourceChar.dec;
      }
    }
    AllPairsStep(all, all, s);
    assert all[..|all|] == all;
  }

  /** The inner loop of the constructor: one source symbol against every target. */
  method AddRow(sourceChar: AsciiChar, all: seq<AsciiChar>, xm: map<int, seq<AsciiXOR>>, ghost prefix: seq<AsciiXOR>)
    returns (xm': map<int, seq<AsciiXOR>>)
    requires xm == Index(prefix) && sourceChar.xor == map[]
    modifies sourceChar
    ensures xm' == Index(prefix + Row(sourceChar, all))
    ensures sourceChar.xor == RowMap(sourceChar, all)
  {
    xm' := xm;
    assert all[..0] == [];
    assert prefix + Row(sourceChar, all[..0]) == prefix;
    var t := 0;
    while t < |all|
      invariant 0 <= t <= |all|
      invariant xm' == Index(prefix + Row(sourceChar, all[..t]))
      invariant sourceChar.xor == RowMap(sourceChar, all[..t])
    {
      var targetChar := all[t];
      var x := Relation(sourceChar, targetChar);
      IndexStep(prefix, sourceChar, all, t);
      RowMapStep(sourceChar, all, t);
      xm' := AddRelation(xm', x);
      sourceChar.AddXor(targetChar.character, x);
      t := t + 1;
    }
    assert all[..t] == all;
  }

  // ---------------------------------------------------------------------------
  // What the table says about one XOR byte

  /**
   * A byte that is the code of a catalog entry: `IsPrintable` stated on the
   * byte itself, so that the bit-vector proofs below need no conversion to
   * `char` or `int`.
   */
  predicate IsPrintableByte(b: Byte) {
    0x20 <= b <= 0x7e
  }

  /**
   * The codes of a catalog's entries, in order: 32..126. This is the part of
   * `SymbolsUpTo(syms, 127)` the lemmas about XOR bytes use (`CatalogCoded`
   * derives it); keeping it small keeps those proofs cheap.
   */
  ghost predicate Coded(syms: seq<AsciiChar>) {
    |syms| == 95 && Numbered(syms)
  }

  lemma CatalogCoded(syms: seq<AsciiChar>)
    requires SymbolsUpTo(syms, 127)
    ensures Coded(syms)
  {
    forall k | 0 <= k < |syms|
      ensures syms[k].dec as int == 32 + k
    {
      assert IsSymbolOf(syms[k], 32 + k);
    }
  }

  /** The catalog entry of a printable byte. */
  lemma SymbolOfByte(syms: seq<AsciiChar>, b: Byte) returns (k: nat)
    requires Coded(syms) && IsPrintableByte(b)
    ensures k < |syms| && syms[k].dec == b
  {
    k := b as int - 32;
    ByteValueInjective(syms[k].dec, b);
  }

  /** Every catalog entry's code is printable. */
  lemma SymbolPrintable(syms: seq<AsciiChar>, k: int)
    requires Coded(syms) && 0 <= k < |syms|
    ensures IsPrintableByte(syms[k].dec)
  {
    var b := syms[k].dec;
    assert 32 <= b as int <= 126;
  }

  /** No two catalog entries share a hex. */
  lemma CatalogHexInjective(syms: seq<AsciiChar>)
    requires SymbolsUpTo(syms, 127)
    ensures forall y, z :: y in syms && z in syms && y.hex == z.hex ==> y == z
  {
    forall y, z | y in syms && z in syms && y.hex == z.hex
      ensures y == z
    {
      var i :| 0 <= i < |syms| && syms[i] == y;
      var j :| 0 <= j < |syms| && syms[j] == z;
      assert IsSymbolOf(syms[i], 32 + i) && IsSymbolOf(syms[j], 32 + j);
      DechexInjective(y.dec, z.dec);
    }
  }

  /** Every byte below 128 is the XOR of two printable bytes; the first one is returned. */
  lemma XorPartner(h: Byte) returns (a: Byte)
    requires h < 0x80
    ensures IsPrintableByte(a) && IsPrintableByte(a ^ h)
  {
    if IsPrintableByte(0x20 ^ h) {
      a := 0x20;
    } else if IsPrintableByte(0x21 ^ h) {
      a := 0x21;
    } else if IsPrintableByte(0x40 ^ h) {
      a := 0x40;
    } else {
      a := 0x41;
    }
  }

  /** The XOR of two printable bytes is below 128. */
  lemma XorOfPrintable(a: Byte, b: Byte)
    requires IsPrintableByte(a) && IsPrintableByte(b)
    ensures a ^ b < 0x80
  {
  }

  /** An endpoint of a relation recorded under `h` is an entry whose code XOR `h` is printable. */
  lemma EndpointIsPartnered(syms: seq<AsciiChar>, h: Byte, y: AsciiChar)
    requires Coded(syms)
    requires y in Endpoints(Select(AllPairs(syms, syms), h))
    ensures y in syms && IsPrintableByte(y.dec ^ h)
  {
    var x := EndpointOrigin(Select(AllPairs(syms, syms), h), y);
    SelectMember(AllPairs(syms, syms), h, x);
    var s, t := AllPairsOrigin(syms, syms, x);
    var a, b := syms[s].dec, syms[t].dec;
    SymbolPrintable(syms, s);
    SymbolPrintable(syms, t);
    PrintablePair(a, b, h);
    if y == syms[s] {
      assert y.dec == a;
    } else {
      assert y.dec == b;
    }
  }

  /** Two printable codes whose XOR is `h` are each other's partner under `h`. */
  lemma PrintablePair(a: Byte, b: Byte, h: Byte)
    requires IsPrintableByte(a) && IsPrintableByte(b) && a ^ b == h
    ensures IsPrintableByte(a ^ h) && IsPrintableByte(b ^ h)
  {
    PairXor(a, b, h);
  }

  lemma PairXor(a: Byte, b: Byte, h: Byte)
    requires a ^ b == h
    ensures a ^ h == b && b ^ h == a
  {
  }

  lemma XorCancel(a: Byte, h: Byte)
    ensures a ^ (a ^ h) == h && (a ^ h) ^ h == a
  {
  }

  /** An entry whose code XOR `h` is printable is the left symbol of a relation recorded under `h`. */
  lemma PartneredIsEndpoint(syms: seq<AsciiChar>, h: Byte, s: nat)
    requires Coded(syms) && s < |syms| && IsPrintableByte(syms[s].dec ^ h)
    ensures syms[s] in Endpoints(Select(AllPairs(syms, syms), h))
  {
    var t := PartnerIndex(syms, s, h);
    PairUnder(syms, s, t, h);
    EndpointOf(Select(AllPairs(syms, syms), h), Relation(syms[s], syms[t]));
  }

  /** The entry whose code is `syms[s].dec ^ h`, when that code is printable. */
  lemma PartnerIndex(syms: seq<AsciiChar>, s: nat, h: Byte) returns (t: nat)
    requires Coded(syms) && s < |syms| && IsPrintableByte(syms[s].dec ^ h)
    ensures t < |syms| && syms[s].dec ^ syms[t].dec == h && IsPrintableByte(syms[t].dec ^ h)
  {
    var b := syms[s].dec ^ h;
    t := SymbolOfByte(syms, b);
    XorCancel(syms[s].dec, h);
    SymbolPrintable(syms, s);
  }

  /** The relation of an ordered pair whose XOR is `h` is among those recorded under `h`. */
  lemma PairUnder(syms: seq<AsciiChar>, s: nat, t: nat, h: Byte)
    requires s < |syms| && t < |syms| && syms[s].dec ^ syms[t].dec == h
    ensures Relation(syms[s], syms[t]) in Select(AllPairs(syms, syms), h)
  {
    AllPairsContains(syms, syms, s, t);
    SelectMember(AllPairs(syms, syms), h, Relation(syms[s], syms[t]));
  }

  /** The candidates for `h` are exactly the entries whose code XOR `h` is printable. */
  lemma SolutionsMembers(syms: seq<AsciiChar>, h: Byte)
    requires SymbolsUpTo(syms, 127)
    ensures forall y :: y in Dedup(Endpoints(Select(AllPairs(syms, syms), h))) <==> y in syms && IsPrintableByte(y.dec ^ h)
  {
    CatalogCoded(syms);
    var ends := Endpoints(Select(AllPairs(syms, syms), h));
    forall y | y in ends
      ensures y in syms && IsPrintableByte(y.dec ^ h)
    {
      EndpointIsPartnered(syms, h, y);
    }
    CatalogHexInjective(syms);
    DedupKeepsAll(ends);
    forall y | y in syms && IsPrintableByte(y.dec ^ h)
      ensures y in ends
    {
      var s :| 0 <= s < |syms| && syms[s] == y;
      PartneredIsEndpoint(syms, h, s);
    }
  }

  /**
   * Any collection holding exactly the entries whose code XOR `h` is printable
   * is closed under XOR with `h`, and is empty exactly when `h` is not below
   * 128 (the bytes the table never records).
   */
  lemma SolutionsShape(syms: seq<AsciiChar>, h: Byte, sol: seq<AsciiChar>)
    requires Coded(syms)
    requires forall y :: y in sol <==> y in syms && IsPrintableByte(y.dec ^ h)
    ensures forall y :: y in sol ==> exists z :: z in sol && y.dec ^ z.dec == h
    ensures sol == [] <==> h >= 0x80
  {
    forall y | y in sol
      ensures exists z :: z in sol && y.dec ^ z.dec == h
    {
      PartnerInSolutions(syms, h, sol, y);
    }
    if h >= 0x80 {
      if sol != [] {
        NoPartnerAbove(syms, h, sol[0]);
      }
    } else {
      var a := XorPartner(h);
      var k := SymbolOfByte(syms, a);
      assert syms[k] in syms;
    }
  }

  /**
   * `getXorPossibleSolutions(h)`, as a value: no two candidates share a hex,
   * the candidates are exactly the entries whose code XOR `h` is printable,
   * each has its partner among them, and there are none exactly when `h` is
   * not below 128.
   */
  lemma SolutionsOf(syms: seq<AsciiChar>, h: Byte)
    requires SymbolsUpTo(syms, 127)
    ensures var sol := Dedup(Endpoints(Select(AllPairs(syms, syms), h)));
      && (forall i, j :: 0 <= i < j < |sol| ==> sol[i].hex != sol[j].hex)
      && (forall y :: y in sol <==> y in syms && IsPrintableByte(y.dec ^ h))
      && (forall y :: y in sol ==> exists z :: z in sol && y.dec ^ z.dec == h)
      && (sol == [] <==> h >= 0x80)
  {
    var sol := Dedup(Endpoints(Select(AllPairs(syms, syms), h)));
    DedupProperties(Endpoints(Select(AllPairs(syms, syms), h)));
    SolutionsMembers(syms, h);
    CatalogCoded(syms);
    SolutionsShape(syms, h, sol);
  }

  /** The partner of a candidate is a candidate too. */
  lemma PartnerInSolutions(syms: seq<AsciiChar>, h: Byte, sol: seq<AsciiChar>, y: AsciiChar)
    requires Coded(syms)
    requires forall y :: y in sol <==> y in syms && IsPrintableByte(y.dec ^ h)
    requires y in sol
    ensures exists z :: z in sol && y.dec ^ z.dec == h
  {
    var s :| 0 <= s < |syms| && syms[s] == y;
    var t := PartnerIndex(syms, s, h);
    assert syms[t] in sol;
  }

  /** No entry's code XOR a byte of 128 or more is printable. */
  lemma NoPartnerAbove(syms: seq<AsciiChar>, h: Byte, y: AsciiChar)
    requires Coded(syms) && y in syms && h >= 0x80
    ensures !IsPrintableByte(y.dec ^ h)
  {
    var s :| 0 <= s < |syms| && syms[s] == y;
    SymbolPrintable(syms, s);
    if IsPrintableByte(y.dec ^ h) {
      XorOfPrintable(y.dec, y.dec ^ h);
    }
  }

  /** Exactly the bytes below 128 have relations among the catalog's pairs. */
  lemma RecordedIff(syms: seq<AsciiChar>, h: Byte)
    requires Coded(syms)
    ensures Select(AllPairs(syms, syms), h) != [] <==> h < 0x80
  {
    if h < 0x80 {
      var s, t := SomePairUnder(syms, h);
    }
    if Select(AllPairs(syms, syms), h) != [] {
      RecordedBelow(syms, h, Select(AllPairs(syms, syms), h)[0]);
    }
  }

  /** Below 128, some ordered pair of entries has XOR `h`; its relation is recorded under `h`. */
  lemma SomePairUnder(syms: seq<AsciiChar>, h: Byte) returns (s: nat, t: nat)
    requires Coded(syms) && h < 0x80
    ensures s < |syms| && t < |syms| && Relation(syms[s], syms[t]) in Select(AllPairs(syms, syms), h)
  {
    var a := XorPartner(h);
    s := SymbolOfByte(syms, a);
    t := PartnerIndex(syms, s, h);
    PairUnder(syms, s, t, h);
  }

  /** A relation recorded under `h` joins two printable codes, so `h` is below 128. */
  lemma RecordedBelow(syms: seq<AsciiChar>, h: Byte, x: AsciiXOR)
    requires Coded(syms) && x in Select(AllPairs(syms, syms), h)
    ensures h < 0x80
  {
    SelectMember(AllPairs(syms, syms), h, x);
    var s, t := AllPairsOrigin(syms, syms, x);
    SymbolPrintable(syms, s);
    SymbolPrintable(syms, t);
    XorOfPrintable(syms[s].dec, syms[t].dec);
  }

  /** The relation of an ordered pair is listed in the index under the XOR of its codes. */
  lemma PairIndexed(syms: seq<AsciiChar>, s: nat, t: nat)
    requires s < |syms| && t < |syms|
    ensures var h := syms[s].dec ^ syms[t].dec;
      && h as int in Index(AllPairs(syms, syms))
      && Relation(syms[s], syms[t]) in Select(AllPairs(syms, syms), h)
  {
    var h := syms[s].dec ^ syms[t].dec;
    PairUnder(syms, s, t, h);
    IndexSelect(AllPairs(syms, syms), h);
  }

  /** The relation of the pair (s, t) sits at position `s * |tgts| + t`: source-major order. */
  lemma {:induction false} AllPairsAt(srcs: seq<AsciiChar>, tgts: seq<AsciiChar>, s: nat, t: nat)
    requires s < |srcs| && t < |tgts|
    ensures |AllPairs(srcs, tgts)| == |srcs| * |tgts|
    ensures s * |tgts| + t < |AllPairs(srcs, tgts)|
    ensures AllPairs(srcs, tgts)[s * |tgts| + t] == Relation(srcs[s], tgts[t])
    decreases |srcs|
  {
    AllPairsLength(srcs, tgts);
    var init, last := srcs[..|srcs| - 1], srcs[|srcs| - 1];
    AllPairsLength(init, tgts);
    if s < |init| {
      AllPairsAt(init, tgts, s, t);
      assert init[s] == srcs[s];
    } else {
      assert Row(last, tgts)[t] == Relation(srcs[s], tgts[t]);
    }
  }

  /** The catalog's characters are pairwise distinct. */
  lemma CatalogCharsDistinct(syms: seq<AsciiChar>)
    requires SymbolsUpTo(syms, 127)
    ensures forall i, j :: 0 <= i < j < |syms| ==> syms[i].character != syms[j].character
    ensures forall c :: c in CharsOf(syms) <==> IsPrintable(c)
  {
    forall i, j | 0 <= i < j < |syms|
      ensures syms[i].character != syms[j].character
    {
      assert IsSymbolOf(syms[i], 32 + i) && IsSymbolOf(syms[j], 32 + j);
    }
    forall c | IsPrintable(c)
      ensures c in CharsOf(syms)
    {
      assert IsSymbolOf(syms[c as int - 32], c as int);
    }
    forall c | c in CharsOf(syms)
      ensures IsPrintable(c)
    {
      var y :| y in syms && y.character == c;
      var k :| 0 <= k < |syms| && syms[k] == y;
      assert IsSymbolOf(syms[k], 32 + k);
    }
  }

  /** Over the catalog, the relation list has 95 * 95 = 9025 entries, the pair (s, t) at `s * 95 + t`. */
  lemma RelationOrder(syms: seq<AsciiChar>, s: nat, t: nat)
    requires Coded(syms) && s < |syms| && t < |syms|
    ensures |AllPairs(syms, syms)| == 9025
    ensures AllPairs(syms, syms)[s * 95 + t] == Relation(syms[s], syms[t])
  {
    AllPairsAt(syms, syms, s, t);
  }

  /** The index of the catalog's pairs has an entry for exactly the bytes below 128. */
  lemma RecordedBytes(syms: seq<AsciiChar>, h: Byte)
    requires Coded(syms)
    ensures h as int in Index(AllPairs(syms, syms)) <==> h < 0x80
    ensures h >= 0x80 ==> Select(AllPairs(syms, syms), h) == []
  {
    IndexSelect(AllPairs(syms, syms), h);
    RecordedIff(syms, h);
  }

  /**
   * Each entry's own relations after the constructor: one per printable
   * character, the one keyed by b's character being the relation of (a, b).
   */
  lemma OwnRelations(syms: seq<AsciiChar>, a: nat, b: nat)
    requires SymbolsUpTo(syms, 127) && a < |syms| && b < |syms|
    ensures forall c :: c in RowMap(syms[a], syms) <==> IsPrintable(c)
    ensures syms[b].character in RowMap(syms[a], syms)
    ensures RowMap(syms[a], syms)[syms[b].character] == Relation(syms[a], syms[b])
  {
    CatalogCharsDistinct(syms);
    RowMapEntries(syms[a], syms);
  }

  /**
   * `getReadableXor` of entry a keeps its relation with b exactly when
   * a XOR b decodes to an accepted character.
   */
  lemma ReadableRelations(syms: seq<AsciiChar>, a: nat, b: nat)
    requires SymbolsUpTo(syms, 127) && a < |syms| && b < |syms|
    requires syms[a].xor == RowMap(syms[a], syms)
    ensures syms[b].character in syms[a].GetReadableXor()
        <==> ByteChar(syms[a].dec ^ syms[b].dec) in ReadableAlphabet
  {
    OwnRelations(syms, a, b);
    IsReadableIff([syms[a].dec ^ syms[b].dec]);
  }

  /**
   * The loop of `getXorPossibleSolutions`: walks the relations and keeps each
   * left and right symbol whose hex has not been seen yet.
   */
  method DistinctEndpoints(rels: seq<AsciiXOR>) returns (possibleChars: seq<AsciiChar>)
    ensures possibleChars == Dedup(Endpoints(rels))
    ensures forall i, j :: 0 <= i < j < |possibleChars| ==> possibleChars[i].hex != possibleChars[j].hex
    ensures HexesOf(possibleChars) == HexesOf(Endpoints(rels))
  {
    possibleChars := [];
    var seen: set<string> := {};
    var i := 0;
    while i < |rels|
      invariant 0 <= i <= |rels|
      invariant possibleChars == Dedup(Endpoints(rels[..i]))
      invariant seen == HexesOf(possibleChars)
    {
      var x := rels[i];
      ghost var ends := Endpoints(rels[..i]);
      assert rels[..i + 1][..i] == rels[..i];
      assert Endpoints(rels[..i + 1]) == (ends + [x.left]) + [x.right];
      DedupSnoc(ends, x.left);
      DedupSnoc(ends + [x.left], x.right);
      if x.left.hex !in seen {
        HexesOfSnoc(possibleChars, x.left);
        possibleChars := possibleChars + [x.left];
        seen := seen + {x.left.hex};
      }
      if x.right.hex !in seen {
        HexesOfSnoc(possibleChars, x.right);
        possibleChars := possibleChars + [x.right];
        seen := seen + {x.right.hex};
      }
      i := i + 1;
    }
    assert rels[..i] == rels;
    DedupProperties(Endpoints(rels));
  }

  // ---------------------------------------------------------------------------
  // The table

  /** `AsciiTable`: the catalog of codes 32..126 and the index of all pairwise XORs. */
  class AsciiTable {
    /** Keyed by the character (the source keys by the one-character string). */
    var charMapping: map<char, AsciiChar>
    var hexMapping: map<string, AsciiChar>
    var decMapping: map<int, AsciiChar>
    var xorMapping: map<int, seq<AsciiXOR>>
    /** The values of `charMapping` in insertion order (`getAll`). */
    var symbols: seq<AsciiChar>

    /** The catalog invariant: codes 32..126, each indexed by character, hex and decimal. */
    ghost predicate Catalog()
      reads this`charMapping, this`hexMapping, this`decMapping, this`symbols
    {
      CatalogUpTo(charMapping, hexMapping, decMapping, symbols, 127)
    }

    /** The full invariant: the catalog, the global XOR index and every symbol's own relations. */
    ghost predicate Valid()
      reads this, symbols
    {
      && Catalog()
      && XorIndexed()
    }

    /** The XOR part of the invariant: the global index and every symbol's own relations. */
    ghost predicate XorIndexed()
      reads this, symbols
    {
      && xorMapping == Index(AllPairs(symbols, symbols))
      && (forall k :: 0 <= k < |symbols| ==> symbols[k].xor == RowMap(symbols[k], symbols))
    }

    /** `AsciiTable::__construct`: the catalog of codes 32..126, then every ordered pair's relation. */
    constructor ()
      ensures Valid()
    {
      var cm, hm, dm, all := BuildCatalog();
      assert Numbered(all);
      var xm := BuildXor(all);
      charMapping, hexMapping, decMapping, symbols, xorMapping := cm, hm, dm, all, xm;
    }

    /** `AsciiTable::getAll`: the 95 catalog entries in ascending code order. */
    function GetAll(): (r: seq<AsciiChar>)
      requires Valid()
      reads this, symbols
      ensures |r| == 95
      ensures forall k :: 0 <= k < |r| ==> IsSymbolOf(r[k], 32 + k)
    {
      symbols
    }

    /** `AsciiTable::getAsciiCharByDecimal`: the entry of code `decimal`, `None` outside 32..126. */
    function GetAsciiCharByDecimal(decimal: int): (r: Option<AsciiChar>)
      requires Valid()
      reads this, symbols
      ensures r.Some? <==> 32 <= decimal <= 126
      ensures r.Some? ==> IsSymbolOf(r.value, decimal) && r.value == symbols[decimal - 32]
    {
      if decimal in decMapping then Some(decMapping[decimal]) else None
    }

    /** `AsciiTable::getAsciiCharByHex`: the entry whose `dechex` is `hex`, `None` for any other string. */
    function GetAsciiCharByHex(hex: string): (r: Option<AsciiChar>)
      requires Valid()
      reads this, symbols
      ensures r.Some? <==> IsHex2(hex) && 32 <= HexValue(hex) <= 126
      ensures r.Some? ==> r.value.hex == hex && r.value == symbols[HexValue(hex) - 32]
    {
      HexLookup(hexMapping, symbols, hex);
      if hex in hexMapping then Some(hexMapping[hex]) else None
    }

    /** `AsciiTable::getAsciiCharByString`: the entry of a one-character printable string, else `None`. */
    function GetAsciiCharByString(str: string): (r: Option<AsciiChar>)
      requires Valid()
      reads this, symbols
      ensures r.Some? <==> |str| == 1 && IsPrintable(str[0])
      ensures r.Some? ==> r.value.character == str[0] && r.value == symbols[str[0] as int - 32]
    {
      if |str| == 1 && str[0] in charMapping then Some(charMapping[str[0]]) else None
    }

    /** `AsciiTable::getAsciiCharsByHex`: one lookup per element of a hex array, in order. */
    method GetAsciiCharsByHex(hexMsg: seq<Byte>) returns (asciiHexMsg: seq<Option<AsciiChar>>)
      requires Valid()
      ensures |asciiHexMsg| == |hexMsg|
      ensures forall i :: 0 <= i < |hexMsg| ==> asciiHexMsg[i] == GetAsciiCharByHex(Dechex(hexMsg[i]))
      ensures forall i :: 0 <= i < |hexMsg| ==>
        (asciiHexMsg[i].Some? <==> 32 <= hexMsg[i] as int <= 126)
        && (asciiHexMsg[i].Some? ==> asciiHexMsg[i].value.dec == hexMsg[i])
    {
      asciiHexMsg := [];
      var i := 0;
      while i < |hexMsg|
        invariant 0 <= i <= |hexMsg|
        invariant |asciiHexMsg| == i
        invariant forall k :: 0 <= k < i ==> asciiHexMsg[k] == GetAsciiCharByHex(Dechex(hexMsg[k]))
      {
        var found := GetAsciiCharByHex(Dechex(hexMsg[i]));
        asciiHexMsg := asciiHexMsg + [found];
        i := i + 1;
      }
      forall i | 0 <= i < |hexMsg|
        ensures (asciiHexMsg[i].Some? <==> 32 <= hexMsg[i] as int <= 126)
             && (asciiHexMsg[i].Some? ==> asciiHexMsg[i].value.dec == hexMsg[i])
      {
        var r := asciiHexMsg[i];
        if r.Some? {
          ByteValueInjective(r.value.dec, hexMsg[i]);
        }
      }
    }

    /** `AsciiTable::getReadableXorForHex`: the relations recorded under the XOR byte `hex`, `[]` if none. */
    function GetReadableXorForHex(hex: Byte): (r: seq<AsciiXOR>)
      requires Valid()
      reads this, symbols
      ensures r == Select(AllPairs(symbols, symbols), hex)
    {
      IndexSelect(AllPairs(symbols, symbols), hex);
      if hex as int in xorMapping then xorMapping[hex as int] else []
    }

    /** `AsciiTable::getXorPossibleSolutions`: the distinct endpoints of the relations under `hex`. */
    method GetXorPossibleSolutions(hex: Byte) returns (possibleChars: seq<AsciiChar>)
      requires Valid()
      ensures possibleChars == Dedup(Endpoints(GetReadableXorForHex(hex)))
      ensures forall i, j :: 0 <= i < j < |possibleChars| ==> possibleChars[i].hex != possibleChars[j].hex
      ensures forall y :: y in possibleChars <==> y in symbols && IsPrintableByte(y.dec ^ hex)
      ensures forall y :: y in possibleChars ==> exists z :: z in possibleChars && y.dec ^ z.dec == hex
      ensures possibleChars == [] <==> hex >= 0x80
    {
      var rels := GetReadableXorForHex(hex);
      possibleChars := DistinctEndpoints(rels);
      SolutionsOf(symbols, hex);
    }

    /** Lookups by decimal, by one-character string and by hex find the same entry, the one `getAll` lists. */
    lemma LookupsAgree(code: int)
      requires Valid() && 32 <= code <= 126
      ensures GetAsciiCharByDecimal(code) == Some(GetAll()[code - 32])
      ensures GetAsciiCharByString([code as char]) == GetAsciiCharByDecimal(code)
      ensures GetAsciiCharByHex(Dechex(ByteOf(code))) == GetAsciiCharByDecimal(code)
    {
    }
  }

  // ---------------------------------------------------------------------------
  // Text to hex array

  /**
   * `Hex::strToHexArray`: each character's catalog hex, `None` (the source's
   * null) for a character outside the printable range.
   */
  function StrToHexArray(table: AsciiTable, toHex: string): (r: seq<Option<Byte>>)
    requires table.Valid()
    reads table, table.symbols
    ensures |r| == |toHex|
    ensures forall i :: 0 <= i < |toHex| ==> (r[i].Some? <==> IsPrintable(toHex[i]))
    ensures forall i :: 0 <= i < |toHex| ==> r[i].Some? ==> r[i].value as int == toHex[i] as int
  {
    seq(|toHex|, i requires 0 <= i < |toHex| && table.Valid() reads table, table.symbols =>
      var c := table.GetAsciiCharByString([toHex[i]]);
      if c.Some? then Some(c.value.dec) else None)
  }

  /** The bytes of a hex array with no null in it. */
  function Unwrapped(hs: seq<Option<Byte>>): seq<Byte>
    requires forall i :: 0 <= i < |hs| ==> hs[i].Some?
  {
    seq(|hs|, i requires 0 <= i < |hs| => hs[i].value)
  }

  /** Printable text survives `strToHexArray` followed by `hexArrayToStr`. */
  lemma TextRoundTrip(table: AsciiTable, s: string)
    requires table.Valid()
    requires forall i :: 0 <= i < |s| ==> IsPrintable(s[i])
    ensures forall i :: 0 <= i < |s| ==> StrToHexArray(table, s)[i].Some?
    ensures HexArrayToStr(Unwrapped(StrToHexArray(table, s))) == s
  {
    var hs := StrToHexArray(table, s);
    var text := HexArrayToStr(Unwrapped(hs));
    forall i | 0 <= i < |s|
      ensures text[i] == s[i]
    {
      assert hs[i].value as int == s[i] as int;
    }
  }

  /** Printable bytes survive `hexArrayToStr` followed by `strToHexArray`. */
  lemma BytesRoundTrip(table: AsciiTable, hs: seq<Byte>)
    requires table.Valid()
    requires forall i :: 0 <= i < |hs| ==> IsPrintableByte(hs[i])
    ensures forall i :: 0 <= i < |hs| ==> StrToHexArray(table, HexArrayToStr(hs))[i] == Some(hs[i])
  {
    var r := StrToHexArray(table, HexArrayToStr(hs));
    forall i | 0 <= i < |hs|
      ensures r[i] == Some(hs[i])
    {
      var b := hs[i];
      assert 32 <= b as int <= 126;
      ByteValueInjective(r[i].value, b);
    }
  }
}
