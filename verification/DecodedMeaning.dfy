/** What the Squirrel string decoder makes of JSON strings: which of them it decodes to the bytes they stand for. */
module DecodedMeaning {
  import opened Bytes
  import opened Utf8
  import opened Grammar
  import opened GrammarLaws
  import SquirrelString

  // ---------- Four digits ----------

  lemma DigitStep(h: bytes, k: nat, acc: nat)
    requires k < |h| && HexCharToInt(h[k]) != -1
    ensures SquirrelString.HexDigitsValue(h[k..], acc)
            == SquirrelString.HexDigitsValue(h[k + 1..], acc * 16 + HexCharToInt(h[k]))
  {
    hide HexCharToInt;
    assert h[k..][0] == h[k] && h[k..][1..] == h[k + 1..];
  }

  /** strtol gives the number that four hexadecimal digits spell. */
  lemma UnitValue(h: bytes, unit: nat)
    requires SpellsUnit(h, unit)
    ensures SquirrelString.StrtolHex(h) == unit
  {
    var d0, d1, d2, d3 := unit / 0x1000, unit / 0x100 % 16, unit / 0x10 % 16, unit % 16;
    HexIff(h[0], d0);
    HexIff(h[1], d1);
    HexIff(h[2], d2);
    HexIff(h[3], d3);
    FromHexDigits(unit);
    DigitStep(h, 0, 0);
    DigitStep(h, 1, d0);
    DigitStep(h, 2, d0 * 16 + d1);
    DigitStep(h, 3, d0 * 256 + d1 * 16 + d2);
    assert h[0..] == h && h[4..] == [];
    assert SquirrelString.HexDigitsValue([], unit) == unit;
    NoPrefix(h, unit);
  }

  lemma NoPrefix(h: bytes, unit: nat)
    requires SpellsUnit(h, unit)
    ensures SquirrelString.StrtolHex(h) == SquirrelString.HexDigitsValue(h, 0)
  {
    hide SquirrelString.HexDigitsValue;
    assert SquirrelString.AfterSpaces(h) == h;
  }

  // ---------- Characters ----------

  /** The characters the decoder takes: no \u escape beyond one byte and none of a backslash. */
  predicate Taken(c: Char) {
    match c
    case Plain(_) => true
    case Short(_) => true
    case Unit(cp, _) => cp < 0x100 && cp != 0x5C
    case Pair(_, _, _) => false
  }

  /** The one byte it makes of a character. */
  function TakenByte(c: Char): byte
    requires GoodChar(c) && Taken(c)
  {
    match c
    case Plain(b) => b
    case Short(letter) => ESCAPES[letter]
    case Unit(cp, _) => cp
  }

  predicate AllTaken(cs: seq<Char>) {
    forall k | 0 <= k < |cs| :: Taken(cs[k])
  }

  function TakenBytes(cs: seq<Char>): (r: bytes)
    requires GoodChars(cs) && AllTaken(cs)
    ensures |r| == |cs|
  {
    if cs == [] then [] else [TakenByte(cs[0])] + TakenBytes(cs[1..])
  }

  lemma CharIsTaken(t: bytes, i: nat, c: Char)
    requires GoodChar(c) && Occurs(t, i, CharText(c))
    ensures var j := i + |CharText(c)|;
            && i < j <= |t|
            && (SquirrelString.Accepts(t, i) <==> Taken(c) && SquirrelString.Accepts(t, j))
            && (SquirrelString.Accepts(t, i) ==>
                  SquirrelString.UnitAt(t, i).meaning == TakenByte(c) && SquirrelString.UnitAt(t, i).next == j)
  {
    hide SpellsUnit, SquirrelString.StrtolHex, Encode;
    OccursAt(t, i, CharText(c), 0);
    match c
    case Plain(b) =>
    case Short(letter) =>
      OccursAt(t, i, CharText(c), 1);
    case Unit(cp, hex) =>
      FourDigits(hex, cp);
      OccursAt(t, i, CharText(c), 1);
      OccursConcat(t, i, [BACKSLASH, LOWER_U], hex);
      UnitValue(hex, cp);
    case Pair(cp, lead, trail) =>
      var high := 0xD800 + (cp - 0x10000) / 0x400;
      FourDigits(lead, high);
      OccursAt(t, i, CharText(c), 1);
      OccursConcat(t, i, [BACKSLASH, LOWER_U] + lead + [BACKSLASH, LOWER_U], trail);
      OccursConcat(t, i, [BACKSLASH, LOWER_U] + lead, [BACKSLASH, LOWER_U]);
      OccursConcat(t, i, [BACKSLASH, LOWER_U], lead);
      UnitValue(lead, high);
  }

  lemma {:induction false} CharsAreTaken(t: bytes, i: nat, cs: seq<Char>)
    requires GoodChars(cs) && Occurs(t, i, CharsText(cs)) && i + |CharsText(cs)| == |t|
    ensures SquirrelString.Accepts(t, i) <==> AllTaken(cs)
    ensures SquirrelString.Accepts(t, i) ==> AllTaken(cs) && SquirrelString.Meaning(t, i) == TakenBytes(cs)
    decreases |cs|
  {
    hide GoodChar, CharText, CharBytes, Taken, TakenByte, SquirrelString.UnitAt, SquirrelString.Accepts;
    if cs == [] {
      NothingLeft(t, i);
    } else {
      var c, rest := cs[0], cs[1..];
      OccursConcat(t, i, CharText(c), CharsText(rest));
      CharIsTaken(t, i, c);
      CharsAreTaken(t, i + |CharText(c)|, rest);
      if Taken(c) && AllTaken(rest) {
        assert forall k | 0 < k < |cs| :: cs[k] == rest[k - 1];
      }
    }
  }

  lemma NothingLeft(t: bytes, i: nat)
    requires i == |t|
    ensures SquirrelString.Accepts(t, i) && SquirrelString.Meaning(t, i) == []
  {
  }

  // ---------- Strings ----------

  /** The characters that come out as the bytes they stand for: \u escapes only of ASCII but the backslash. */
  predicate ComesOut(c: Char) {
    match c
    case Plain(_) => true
    case Short(_) => true
    case Unit(cp, _) => cp < 0x80 && cp != 0x5C
    case Pair(_, _, _) => false
  }

  predicate AllComeOut(cs: seq<Char>) {
    forall k | 0 <= k < |cs| :: ComesOut(cs[k])
  }

  lemma ByteOfChar(c: Char)
    requires GoodChar(c) && Taken(c)
    ensures ComesOut(c) ==> CharBytes(c) == [TakenByte(c)]
    ensures |CharBytes(c)| == if ComesOut(c) then 1 else 2
  {
  }

  lemma {:induction false} BytesOfTaken(cs: seq<Char>)
    requires GoodChars(cs) && AllTaken(cs)
    ensures CharsBytes(cs) == TakenBytes(cs) <==> AllComeOut(cs)
    ensures |CharsBytes(cs)| >= |cs| && (|CharsBytes(cs)| == |cs| <==> AllComeOut(cs))
    decreases |cs|
  {
    hide GoodChar, CharBytes, Taken, TakenByte, ComesOut;
    if cs != [] {
      var c, rest := cs[0], cs[1..];
      ByteOfChar(c);
      BytesOfTaken(rest);
      if ComesOut(c) && AllComeOut(rest) {
        assert forall k | 0 < k < |cs| :: cs[k] == rest[k - 1];
      }
      assert AllComeOut(cs) ==> AllComeOut(rest) by {
        assert forall k | 0 <= k < |rest| :: rest[k] == cs[k + 1];
      }
    }
  }

  /** No plain byte 255, which is never part of UTF-8. */
  predicate NoMarker(cs: seq<Char>) {
    forall k | 0 <= k < |cs| :: cs[k] != Plain(SquirrelString.MARKER)
  }

  lemma {:induction false} NoMarkerComesOut(cs: seq<Char>)
    requires GoodChars(cs) && AllTaken(cs) && AllComeOut(cs) && NoMarker(cs)
    ensures SquirrelString.MARKER !in TakenBytes(cs)
    decreases |cs|
  {
    if cs != [] {
      NoMarkerComesOut(cs[1..]);
    }
  }

  /** A JSON string without the byte 255 is decoded to the UTF-8 bytes it stands for if and only if its \u escapes
      are all of ASCII characters other than the backslash. */
  lemma JsonStringDecodesIff(cs: seq<Char>)
    requires GoodChars(cs) && NoMarker(cs)
    ensures SquirrelString.Decoded(CharsText(cs)) == Some(CharsBytes(cs)) <==> AllComeOut(cs)
  {
    hide GoodChars, CharsText, CharsBytes, SquirrelString.Accepts, SquirrelString.Meaning, SquirrelString.Image;
    hide SquirrelString.Decoded, TakenBytes, SquirrelString.NothingMisplaced, SquirrelString.Compact;
    var t := CharsText(cs);
    assert t[0..|t|] == t;
    CharsAreTaken(t, 0, cs);
    SquirrelString.DecodedIff(t);
    if AllTaken(cs) {
      BytesOfTaken(cs);
      SquirrelString.DecodedIs(t);
      SquirrelString.DecodedIsMeaningIff(t);
      if AllComeOut(cs) {
        NoMarkerComesOut(cs);
      }
    } else {
      var k :| 0 <= k < |cs| && !Taken(cs[k]);
      assert !ComesOut(cs[k]);
    }
  }

  /** So the escape of a letter beyond ASCII comes out as one byte that is no UTF-8, and one beyond Latin-1 is
      refused. */
  lemma LatinEscapeGoesWrong()
    ensures SquirrelString.Decoded([BACKSLASH, LOWER_U, 0x30, 0x30, 0x65, 0x39]) == Some([0xE9])
    ensures SquirrelString.Decoded([BACKSLASH, LOWER_U, 0x32, 0x30, 0x61, 0x63]) == None
  {
    assert [BACKSLASH, LOWER_U] + [0x30, 0x30, 0x65, 0x39] == [BACKSLASH, LOWER_U, 0x30, 0x30, 0x65, 0x39];
    assert [BACKSLASH, LOWER_U] + [0x32, 0x30, 0x61, 0x63] == [BACKSLASH, LOWER_U, 0x32, 0x30, 0x61, 0x63];
    EscapeOfUnit(0xE9, [0x30, 0x30, 0x65, 0x39]);
    EscapeOfUnit(0x20AC, [0x32, 0x30, 0x61, 0x63]);
  }

  lemma EscapeOfUnit(cp: nat, hex: bytes)
    requires IsScalar(cp) && SpellsUnit(hex, cp) && cp != 0xFF && cp != 0x5C
    ensures SquirrelString.Decoded([BACKSLASH, LOWER_U] + hex) == if cp < 0x100 then Some([cp]) else None
  {
    hide SquirrelString.Accepts, SquirrelString.Meaning, SquirrelString.Image, SquirrelString.Decoded, SpellsUnit;
    hide SquirrelString.NothingMisplaced, SquirrelString.Compact;
    var cs := [Unit(cp, hex)];
    var t := [BACKSLASH, LOWER_U] + hex;
    assert cs[1..] == [] && CharsText(cs) == t + [] == t;
    assert t[0..|t|] == t;
    CharsAreTaken(t, 0, cs);
    SquirrelString.DecodedIff(t);
    if cp < 0x100 {
      assert TakenBytes(cs[1..]) == [] && TakenByte(cs[0]) == cp && TakenBytes(cs) == [cp];
      assert SquirrelString.Meaning(t, 0) == [cp];
      SquirrelString.DecodedIsMeaningIff(t);
    } else {
      assert !Taken(cs[0]);
    }
  }
}
