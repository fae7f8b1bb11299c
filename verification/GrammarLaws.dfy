/** The parser accepts exactly the texts of the grammar: every spelling of a value is read as that value, and
    whatever is read was the spelling of it. */
module GrammarLaws {
  import opened Bytes
  import opened Utf8
  import opened ObjectTable
  import opened JsonValue
  import opened StringCodec
  import opened Parser
  import opened Grammar

  // ---------- Characters ----------

  lemma HexIff(c: byte, d: nat)
    requires d < 16
    ensures IsHex(c, d) <==> HexCharToInt(c) == d
  {
  }

  /** Four digits are read as the unit they spell, and nothing else is. */
  lemma UnitIff(s: bytes, i: nat, unit: nat)
    ensures ParseUtf16Hex(s, i) == Some(unit) <==> i + 4 <= |s| && SpellsUnit(s[i..i + 4], unit)
  {
    hide HexCharToInt, IsHex;
    if i + 4 <= |s| {
      var h := s[i..i + 4];
      assert h[0] == At(s, i) && h[1] == At(s, i + 1) && h[2] == At(s, i + 2) && h[3] == At(s, i + 3);
      if ParseUtf16Hex(s, i) == Some(unit) {
        var x1, x2, x3, x4 := HexCharToInt(h[0]), HexCharToInt(h[1]), HexCharToInt(h[2]), HexCharToInt(h[3]);
        HexDigitsOf(unit, x1, x2, x3, x4);
        HexIff(h[0], x1);
        HexIff(h[1], x2);
        HexIff(h[2], x3);
        HexIff(h[3], x4);
      }
      if SpellsUnit(h, unit) {
        HexIff(h[0], unit / 0x1000);
        HexIff(h[1], unit / 0x100 % 16);
        HexIff(h[2], unit / 0x10 % 16);
        HexIff(h[3], unit % 16);
        FromHexDigits(unit);
      }
    }
  }

  lemma HexDigitsOf(unit: int, x1: int, x2: int, x3: int, x4: int)
    requires 0 <= x1 < 16 && 0 <= x2 < 16 && 0 <= x3 < 16 && 0 <= x4 < 16
    requires unit == x1 * 0x1000 + x2 * 0x100 + x3 * 0x10 + x4
    ensures unit / 0x1000 == x1 && unit / 0x100 % 16 == x2 && unit / 0x10 % 16 == x3 && unit % 16 == x4
    ensures 0 <= unit < 0x10000
  {
    assert unit / 0x10 == x1 * 0x100 + x2 * 0x10 + x3;
    assert unit / 0x100 == x1 * 0x10 + x2;
  }

  lemma FromHexDigits(unit: nat)
    requires unit < 0x10000
    ensures unit == unit / 0x1000 * 0x1000 + unit / 0x100 % 16 * 0x100 + unit / 0x10 % 16 * 0x10 + unit % 16
    ensures unit / 0x1000 < 16
  {
    assert unit / 0x10 / 0x10 == unit / 0x100 && unit / 0x100 / 0x10 == unit / 0x1000;
  }

  lemma UnitAt(s: bytes, i: nat, h: bytes, unit: nat)
    requires Occurs(s, i, h) && SpellsUnit(h, unit)
    ensures ParseUtf16Hex(s, i) == Some(unit) && SkipBody(s, i) == SkipBody(s, i + 4)
  {
    hide SkipBody, SpellsUnit;
    assert |h| == 4 by { FourDigits(h, unit); }
    UnitIff(s, i, unit);
    HexIsPlain(s, i);
  }

  lemma FourDigits(h: bytes, unit: nat)
    requires SpellsUnit(h, unit)
    ensures |h| == 4
  {
  }

  /** A character in any spelling is one piece for the reader, which gives its bytes. */
  lemma CharIsOnePiece(s: bytes, i: nat, c: Char)
    requires GoodChar(c) && Occurs(s, i, CharText(c))
    ensures At(s, i) != 0 && At(s, i) != QUOTE
    ensures NextPiece(s, i) == Some(Piece(CharBytes(c), i + |CharText(c)|))
    ensures SkipBody(s, i) == SkipBody(s, i + |CharText(c)|)
  {
    hide ParseUtf16Hex, SpellsUnit, Encode;
    OccursAt(s, i, CharText(c), 0);
    match c
    case Plain(b) =>
    case Short(letter) =>
      OccursAt(s, i, CharText(c), 1);
    case Unit(cp, hex) =>
      FourDigits(hex, cp);
      OccursAt(s, i, CharText(c), 1);
      OccursConcat(s, i, [BACKSLASH, LOWER_U], hex);
      UnitAt(s, i + 2, hex, cp);
    case Pair(cp, lead, trail) =>
      PairIsRead(s, i, cp, lead, trail);
  }

  lemma PairIsRead(s: bytes, i: nat, cp: nat, lead: bytes, trail: bytes)
    requires GoodChar(Pair(cp, lead, trail)) && Occurs(s, i, CharText(Pair(cp, lead, trail)))
    ensures NextPiece(s, i) == Some(Piece(Encode(cp), i + 12)) && |CharText(Pair(cp, lead, trail))| == 12
    ensures SkipBody(s, i) == SkipBody(s, i + 12)
  {
    hide *;
    var t := CharText(Pair(cp, lead, trail));
    var l, r := 0xD800 + (cp - 0x10000) / 0x400, 0xDC00 + (cp - 0x10000) % 0x400;
    var u := [BACKSLASH, LOWER_U];
    PairSpelled(cp, lead, trail);
    OccursConcat(s, i, u + lead + u, trail);
    OccursConcat(s, i, u + lead, u);
    OccursConcat(s, i, u, lead);
    EscapeThere(s, i);
    EscapeThere(s, i + 6);
    UnitAt(s, i + 2, lead, l);
    UnitAt(s, i + 8, trail, r);
    PairParsed(s, i, l, r);
  }

  lemma PairSpelled(cp: nat, lead: bytes, trail: bytes)
    requires GoodChar(Pair(cp, lead, trail))
    ensures var u := [BACKSLASH, LOWER_U]; CharText(Pair(cp, lead, trail)) == u + lead + u + trail
    ensures IsScalar(cp) && |[BACKSLASH, LOWER_U]| == 2 && |lead| == 4 && |trail| == 4
    ensures var l, r := 0xD800 + (cp - 0x10000) / 0x400, 0xDC00 + (cp - 0x10000) % 0x400;
            && SpellsUnit(lead, l) && SpellsUnit(trail, r) && 0xD800 <= l <= 0xDBFF && 0xDC00 <= r <= 0xDFFF
            && cp == (l - 0xD800) % 0x400 * 0x400 + (r - 0xDC00) % 0x400 + 0x10000
  {
    hide SpellsUnit;
    FourDigits(lead, 0xD800 + (cp - 0x10000) / 0x400);
    FourDigits(trail, 0xDC00 + (cp - 0x10000) % 0x400);
  }

  lemma EscapeThere(s: bytes, i: nat)
    requires Occurs(s, i, [BACKSLASH, LOWER_U])
    ensures At(s, i) == BACKSLASH && At(s, i + 1) == LOWER_U && SkipBody(s, i) == SkipBody(s, i + 2)
  {
    OccursAt(s, i, [BACKSLASH, LOWER_U], 0);
    OccursAt(s, i, [BACKSLASH, LOWER_U], 1);
  }

  lemma PairParsed(s: bytes, i: nat, l: nat, r: nat)
    requires At(s, i) == BACKSLASH && At(s, i + 1) == LOWER_U && At(s, i + 6) == BACKSLASH && At(s, i + 7) == LOWER_U
    requires ParseUtf16Hex(s, i + 2) == Some(l) && ParseUtf16Hex(s, i + 8) == Some(r)
    requires 0xD800 <= l <= 0xDBFF && 0xDC00 <= r <= 0xDFFF
    ensures var cp := (l - 0xD800) % 0x400 * 0x400 + (r - 0xDC00) % 0x400 + 0x10000;
            IsScalar(cp) && At(s, i) != 0 && NextPiece(s, i) == Some(Piece(Encode(cp), i + 12))
  {
    hide ParseUtf16Hex, Encode;
  }

  /** And every piece the reader accepts is such a character. */
  lemma PieceIsChar(s: bytes, i: nat) returns (c: Char)
    requires At(s, i) != 0 && At(s, i) != QUOTE && NextPiece(s, i).Some?
    ensures GoodChar(c) && Occurs(s, i, CharText(c))
    ensures NextPiece(s, i) == Some(Piece(CharBytes(c), i + |CharText(c)|))
  {
    hide ParseUtf16Hex, SpellsUnit, Encode;
    if s[i] != BACKSLASH {
      c := Plain(s[i]);
    } else if At(s, i + 1) != LOWER_U {
      c := Short(s[i + 1]);
    } else {
      var e := ParseUtf16(s, i + 1).value;
      var unit := ParseUtf16Hex(s, i + 2).value;
      UnitIff(s, i + 2, unit);
      if e.next == i + 6 {
        c := Unit(e.cp, s[i + 2..i + 6]);
        assert s[i..i + 6] == [BACKSLASH, LOWER_U] + s[i + 2..i + 6];
        FourDigits(s[i + 2..i + 6], unit);
      } else {
        var second := ParseUtf16Hex(s, i + 8).value;
        UnitIff(s, i + 8, second);
        PairParts(unit, second);
        c := Pair(e.cp, s[i + 2..i + 6], s[i + 8..i + 12]);
        assert s[i..i + 12] == [BACKSLASH, LOWER_U] + s[i + 2..i + 6] + [BACKSLASH, LOWER_U] + s[i + 8..i + 12];
      }
    }
  }

  /** The reader's pieces are exactly the characters of the grammar: plain bytes, two-character escapes, and every
      scalar value in its UTF-16 escapes with hexadecimal digits of either case. */
  lemma PieceIff(s: bytes, i: nat, p: Piece)
    requires At(s, i) != 0 && At(s, i) != QUOTE
    ensures NextPiece(s, i) == Some(p)
            <==> exists c :: GoodChar(c) && Occurs(s, i, CharText(c)) && p == Piece(CharBytes(c), i + |CharText(c)|)
  {
    hide NextPiece, GoodChar, CharText, CharBytes, Occurs;
    if NextPiece(s, i) == Some(p) {
      var c := PieceIsChar(s, i);
    }
    if c :| GoodChar(c) && Occurs(s, i, CharText(c)) && p == Piece(CharBytes(c), i + |CharText(c)|) {
      CharIsOnePiece(s, i, c);
    }
  }

  lemma PairParts(lead: nat, trail: nat)
    requires 0xD800 <= lead <= 0xDBFF && 0xDC00 <= trail <= 0xDFFF
    ensures var cp := (lead - 0xD800) % 0x400 * 0x400 + (trail - 0xDC00) % 0x400 + 0x10000;
            && 0x10000 <= cp <= 0x10FFFF
            && 0xD800 + (cp - 0x10000) / 0x400 == lead && 0xDC00 + (cp - 0x10000) % 0x400 == trail
  {
  }

  // ---------- Strings ----------

  lemma {:induction false} CharsAreUnescaped(s: bytes, i: nat, cs: seq<Char>)
    requires GoodChars(cs) && Occurs(s, i, CharsText(cs) + [QUOTE])
    ensures var end := i + |CharsText(cs)|;
            SkipBody(s, i) == Some(end + 1) && Unescape(s, i, end) == Some(CharsBytes(cs))
    decreases |cs|
  {
    hide *;
    CharsUnfold(cs);
    if cs == [] {
      QuoteEnds(s, i);
    } else {
      var c, rest := cs[0], cs[1..];
      ConcatAssoc(CharText(c), CharsText(rest), [QUOTE]);
      OccursConcat(s, i, CharText(c), CharsText(rest) + [QUOTE]);
      CharIsOnePiece(s, i, c);
      CharsAreUnescaped(s, i + |CharText(c)|, rest);
      var next := i + |CharText(c)|;
      PieceThenRest(s, i, next + |CharsText(rest)|, Piece(CharBytes(c), next), CharsBytes(rest));
    }
  }

  lemma CharsUnfold(cs: seq<Char>)
    requires GoodChars(cs)
    ensures cs == [] ==> CharsText(cs) == [] && CharsBytes(cs) == []
    ensures cs != [] ==>
              && GoodChar(cs[0]) && GoodChars(cs[1..]) && |CharText(cs[0])| > 0
              && CharsText(cs) == CharText(cs[0]) + CharsText(cs[1..])
              && CharsBytes(cs) == CharBytes(cs[0]) + CharsBytes(cs[1..])
  {
  }

  lemma QuoteEnds(s: bytes, i: nat)
    requires Occurs(s, i, [] + [QUOTE])
    ensures SkipBody(s, i) == Some(i + 1) && Unescape(s, i, i) == Some([])
  {
    OccursAt(s, i, [] + [QUOTE], 0);
  }

  lemma PieceThenRest(s: bytes, i: nat, end: nat, p: Piece, rest: bytes)
    requires At(s, i) != 0 && i < end
    requires NextPiece(s, i) == Some(p) && Unescape(s, p.next, end) == Some(rest)
    ensures Unescape(s, i, end) == Some(p.out + rest)
  {
  }

  lemma {:induction false} UnescapedIsChars(s: bytes, i: nat, end: nat) returns (cs: seq<Char>)
    requires SkipBody(s, i) == Some(end + 1) && Unescape(s, i, end).Some?
    ensures GoodChars(cs) && Occurs(s, i, CharsText(cs)) && i + |CharsText(cs)| == end
    ensures Unescape(s, i, end) == Some(CharsBytes(cs))
    decreases |s| - i
  {
    hide GoodChar, CharText, CharBytes, NextPiece;
    BodyEnds(s, i, end);
    if i == end {
      cs := [];
    } else {
      BodyStep(s, i, end);
      PieceStaysInside(s, i);
      var c := PieceIsChar(s, i);
      var next := NextPiece(s, i).value.next;
      var rest := UnescapedIsChars(s, next, end);
      cs := [c] + rest;
      assert cs[1..] == rest;
      OccursConcat(s, i, CharText(c), CharsText(rest));
    }
  }

  lemma BodyEnds(s: bytes, i: nat, end: nat)
    requires SkipBody(s, i) == Some(end + 1)
    ensures i <= end < |s| && s[end] == QUOTE
  {
  }

  /** Between two quotes, a text is unescaped if and only if it spells good characters, and then to their bytes. */
  lemma UnescapedIff(s: bytes, i: nat, end: nat, out: bytes)
    requires SkipBody(s, i) == Some(end + 1)
    ensures Unescape(s, i, end) == Some(out)
            <==> exists cs :: GoodChars(cs) && CharsText(cs) == s[i..end] && CharsBytes(cs) == out
  {
    hide SkipBody, Unescape, GoodChars, CharsText, CharsBytes;
    assert i <= end < |s| && s[end] == QUOTE by { BodyEnds(s, i, end); }
    if Unescape(s, i, end) == Some(out) {
      var cs := UnescapedIsChars(s, i, end);
    }
    if cs :| GoodChars(cs) && CharsText(cs) == s[i..end] && CharsBytes(cs) == out {
      assert s[i..end + 1] == s[i..end] + [QUOTE];
      CharsAreUnescaped(s, i, cs);
    }
  }

  /** A quoted string in any spelling, anywhere in a text, is read as the C string it stands for. */
  lemma StringIsRead(s: bytes, i: nat, cs: seq<Char>)
    requires GoodChars(cs) && Occurs(s, i, StringText(cs))
    ensures GetQuotedString(s, i) == Some(Scanned(Stored(cs), i + |StringText(cs)|))
  {
    hide Unescape, CharsText, CharsBytes, GoodChars;
    assert StringText(cs) == [QUOTE] + (CharsText(cs) + [QUOTE]);
    OccursConcat(s, i, [QUOTE], CharsText(cs) + [QUOTE]);
    OccursAt(s, i, [QUOTE], 0);
    CharsAreUnescaped(s, i + 1, cs);
  }

  lemma ReadIsString(s: bytes, i: nat) returns (cs: seq<Char>)
    requires GetQuotedString(s, i).Some?
    ensures GoodChars(cs) && Occurs(s, i, StringText(cs))
    ensures GetQuotedString(s, i) == Some(Scanned(Stored(cs), i + |StringText(cs)|))
  {
    hide Unescape, CharsText, CharsBytes, GoodChars, SkipBody;
    var next := SkipQuotes(s, i).value;
    cs := UnescapedIsChars(s, i + 1, next - 1);
    assert s[i..next] == [s[i]] + s[i + 1..next - 1] + [s[next - 1]];
  }

  // ---------- White space ----------

  lemma {:induction false} SkipOver(s: bytes, i: nat, w: bytes)
    requires Occurs(s, i, w) && Blank(w)
    ensures i + |w| <= |s| && SkipWs(s, i) == SkipWs(s, i + |w|)
    decreases |w|
  {
    if w != [] {
      OccursAt(s, i, w, 0);
      assert w == [w[0]] + w[1..];
      OccursConcat(s, i, [w[0]], w[1..]);
      SkipOver(s, i + 1, w[1..]);
    }
  }

  lemma StopsAt(s: bytes, i: nat)
    requires i <= |s| && !IsSpace(At(s, i))
    ensures SkipWs(s, i) == i
  {
  }

  /** White space and then a byte that is none. */
  lemma GapThen(s: bytes, i: nat, w: bytes, x: byte)
    requires Occurs(s, i, w + [x]) && Blank(w) && x !in BLANKS
    ensures i <= |s| && i + |w| < |s| && At(s, i + |w|) == x && SkipWs(s, i) == i + |w|
    ensures !IsDigit(x) ==> !IsDigit(At(s, i))
  {
    OccursConcat(s, i, w, [x]);
    OccursAt(s, i + |w|, [x], 0);
    if w != [] {
      OccursAt(s, i, w, 0);
    }
    SkipOver(s, i, w);
    StopsAt(s, i + |w|);
  }

  lemma {:induction false} SkippedIsBlank(s: bytes, i: nat)
    requires i <= |s|
    ensures Blank(s[i..SkipWs(s, i)])
    decreases |s| - i
  {
    if IsSpace(At(s, i)) {
      SkippedIsBlank(s, i + 1);
      SliceHead(s, i, SkipWs(s, i));
    }
  }

  /** Leading white space is invisible to the parser. */
  lemma ValueSkipsSpace(s: bytes, i: nat, j: nat, nesting: nat)
    requires i <= |s| && j <= |s| && SkipWs(s, i) == SkipWs(s, j)
    ensures ValueAt(s, i, nesting) == ValueAt(s, j, nesting)
  {
  }

  // ---------- Numbers ----------

  ghost predicate AllDigits(t: bytes) {
    forall k | 0 <= k < |t| :: IsDigit(t[k])
  }

  lemma {:induction false} DigitsEndOver(s: bytes, i: nat, t: bytes)
    requires Occurs(s, i, t) && AllDigits(t) && !IsDigit(At(s, i + |t|))
    ensures DigitsEnd(s, i) == i + |t|
    decreases |t|
  {
    if t != [] {
      OccursAt(s, i, t, 0);
      assert t == [t[0]] + t[1..];
      OccursConcat(s, i, [t[0]], t[1..]);
      DigitsEndOver(s, i + 1, t[1..]);
    }
  }

  lemma {:induction false} DigitsUpToEnd(s: bytes, i: nat)
    requires i <= |s|
    ensures AllDigits(s[i..DigitsEnd(s, i)])
    decreases |s| - i
  {
    if IsDigit(At(s, i)) {
      DigitsUpToEnd(s, i + 1);
      SliceHead(s, i, DigitsEnd(s, i));
    }
  }

  /** Reading digits from the left and from the right gives the same number. */
  lemma {:induction false} HornerAppend(ds: bytes, c: byte, acc: int)
    ensures Horner(ds + [c], acc) == 10 * Horner(ds, acc) + c - 0x30
    decreases |ds|
  {
    if ds == [] {
      assert ([] + [c])[1..] == [];
    } else {
      assert (ds + [c])[1..] == ds[1..] + [c];
      HornerAppend(ds[1..], c, 10 * acc + ds[0] - 0x30);
    }
  }

  lemma {:induction false} DigitsValueIsHorner(ds: bytes)
    ensures DigitsValue(ds) == Horner(ds, 0)
    decreases |ds|
  {
    if ds != [] {
      var last := |ds| - 1;
      DigitsValueIsHorner(ds[..last]);
      HornerAppend(ds[..last], ds[last], 0);
      assert ds == ds[..last] + [ds[last]];
    }
  }

  lemma NumberIsDecimal(negative: bool, ds: bytes)
    requires GoodDoc(NumberDoc(negative, ds))
    ensures IsDecimal(Written(NumberDoc(negative, ds))) && AllDigits(ds)
  {
    var t := Written(NumberDoc(negative, ds));
    forall k | 0 <= k < |t| ensures t[k] != 0x78 && t[k] != 0x58 {
      assert negative && k > 0 ==> t[k] == ds[k - 1];
    }
    assert negative ==> t[1] == ds[0];
  }

  lemma NumberIsRead(s: bytes, i: nat, d: Doc)
    requires d.NumberDoc? && GoodDoc(d) && Occurs(s, i, Written(d)) && !IsDigit(At(s, i + |Written(d)|))
    ensures NumberAt(s, i) == Done(Meaning(d), i + |Written(d)|)
    ensures At(s, i) == MINUS || IsDigit(At(s, i))
  {
    hide IsDecimal, DigitsEnd, DigitsValue, Horner;
    var ds := d.digits;
    NumberIsDecimal(d.negative, ds);
    DigitsValueIsHorner(ds);
    OccursAt(s, i, Written(d), 0);
    if d.negative {
      OccursConcat(s, i, [MINUS], ds);
      DigitsEndOver(s, i + 1, ds);
    } else {
      DigitsEndOver(s, i, ds);
    }
  }

  lemma ReadIsNumber(s: bytes, i: nat) returns (d: Doc)
    requires i < |s| && (At(s, i) == MINUS || IsDigit(At(s, i))) && NumberAt(s, i).Done? && !LoneMinus(s, i)
    ensures d.NumberDoc? && GoodDoc(d) && Occurs(s, i, Written(d))
    ensures NumberAt(s, i) == Done(Meaning(d), i + |Written(d)|)
  {
    hide DigitsValue, Horner;
    var negative := At(s, i) == MINUS;
    var from := if negative then i + 1 else i;
    var end := DigitsEnd(s, from);
    var ds := s[from..end];
    DigitsUpToEnd(s, from);
    DigitsValueIsHorner(ds);
    d := NumberDoc(negative, ds);
    assert s[i..end] == if negative then [MINUS] + ds else ds;
    assert |ds| > 1 ==> IsDigit(ds[1]) && s[from + 1] == ds[1];
    assert end > from;
  }

  /** A minus sign without digits, which strtod does not convert. */
  predicate LoneMinus(s: bytes, i: nat) {
    At(s, i) == MINUS && !IsDigit(At(s, i + 1))
  }

  // ---------- Every text of the grammar is read ----------

  /** Names are distinct and there is room for the height. */
  ghost predicate Fits(v: Value, room: int) {
    WellFormed(v) && NestsWithin(v, room)
  }

  /** The first byte of a document tells the parser what to expect. */
  lemma FirstByte(d: Doc)
    requires GoodDoc(d)
    ensures var t := Written(d);
            && |t| > 0 && t[0] !in BLANKS && t[0] != 0 && t[0] != RBRACKET && t[0] != RBRACE
            && match d
               case NullDoc => t[0] == 0x6E
               case BoolDoc(b) => t[0] == 0x74 || t[0] == 0x66
               case NumberDoc(_, _) => t[0] == MINUS || IsDigit(t[0])
               case StringDoc(_) => t[0] == QUOTE
               case ArrayDoc(_, _) => t[0] == LBRACKET
               case ObjectDoc(_, _) => t[0] == LBRACE
  {
    hide WrittenItems, WrittenMembers, CharsText;
  }

  lemma LiteralIsRead(s: bytes, i: nat, d: Doc)
    requires (d.NullDoc? || d.BoolDoc?) && Occurs(s, i, Written(d))
    ensures d.NullDoc? ==> NullAt(s, i) == Done(Meaning(d), i + |Written(d)|)
    ensures d.BoolDoc? ==> BooleanAt(s, i) == Done(Meaning(d), i + |Written(d)|)
  {
    OccursAt(s, i, Written(d), 0);
    if d.BoolDoc? && !d.b && Occurs(s, i, TRUE_TOKEN) {
      OccursAt(s, i, TRUE_TOKEN, 0);
    }
  }

  /** A document anywhere in a text, followed by anything that does not prolong a number, is read up to its last
      byte as the value it stands for if it fits, and is refused otherwise. */
  lemma {:induction false} WrittenIsRead(s: bytes, i: nat, d: Doc, nesting: nat)
    requires GoodDoc(d) && Occurs(s, i, Written(d)) && (d.NumberDoc? ==> !IsDigit(At(s, i + |Written(d)|)))
    ensures i <= |s| && ValueAt(s, i, nesting) ==
            if Fits(Meaning(d), MAX_NESTING - nesting) then Done(Meaning(d), i + |Written(d)|) else Fail
    decreases d, 2
  {
    hide Written, ObjectAt, ArrayAt, StringAt, BooleanAt, NumberAt, NullAt, GoodChars, Stored, StringText;
    if nesting <= MAX_NESTING {
      FirstByte(d);
      OccursAt(s, i, Written(d), 0);
      StopsAt(s, i);
      match d
      case NullDoc => LiteralIsRead(s, i, d);
      case BoolDoc(b) => LiteralIsRead(s, i, d);
      case NumberDoc(_, _) => NumberIsRead(s, i, d);
      case StringDoc(cs) => StringDocIsRead(s, i, d);
      case ArrayDoc(_, _) => ArrayIsRead(s, i, d, nesting + 1);
      case ObjectDoc(_, _) => ObjectIsRead(s, i, d, nesting + 1);
    }
  }

  lemma StringDocIsRead(s: bytes, i: nat, d: Doc)
    requires d.StringDoc? && GoodDoc(d) && Occurs(s, i, Written(d))
    ensures StringAt(s, i) == Done(Meaning(d), i + |Written(d)|) && WellFormed(Meaning(d))
  {
    hide GetQuotedString, CharsText, CharsBytes, GoodChars, CString, StringText;
    StringIsRead(s, i, d.chars);
    assert NulFree(Stored(d.chars));
  }

  // ---------- Arrays ----------

  ghost predicate AllGoodItems(items: seq<ItemDoc>) {
    forall i | 0 <= i < |items| :: GoodItem(items[i])
  }

  ghost predicate AllFit(vs: seq<Value>, room: int) {
    forall i | 0 <= i < |vs| :: Fits(vs[i], room)
  }

  lemma ArrayFits(vs: seq<Value>, room: int)
    requires room >= -1
    ensures Fits(Array(vs), room + 1) <==> AllFit(vs, room)
  {
  }

  lemma ArrayPieces(s: bytes, i: nat, items: seq<ItemDoc>, gap: bytes)
    requires Occurs(s, i, Written(ArrayDoc(items, gap)))
    ensures var inner := if items == [] then gap else WrittenItems(items);
            && Occurs(s, i, [LBRACKET]) && Occurs(s, i + 1, inner + [RBRACKET])
            && |Written(ArrayDoc(items, gap))| == |inner| + 2
  {
    hide WrittenItems, Occurs;
    var inner := if items == [] then gap else WrittenItems(items);
    ConcatAssoc([LBRACKET], inner, [RBRACKET]);
    OccursConcat(s, i, [LBRACKET], inner + [RBRACKET]);
  }

  lemma {:induction false} ArrayIsRead(s: bytes, i: nat, d: Doc, nesting: nat)
    requires d.ArrayDoc? && GoodDoc(d) && Occurs(s, i, Written(d)) && 0 < nesting <= MAX_NESTING + 1
    ensures i <= |s| && ArrayAt(s, i, nesting) ==
            if Fits(Meaning(d), MAX_NESTING - nesting + 1) then Done(Meaning(d), i + |Written(d)|) else Fail
    decreases d, 1
  {
    hide Written, WrittenItems, ItemsAt, ItemValues, Fits, AllFit, Occurs, SkipWs, Blank, GoodItem;
    var ArrayDoc(items, gap) := d;
    ArrayPieces(s, i, items, gap);
    OccursAt(s, i, [LBRACKET], 0);
    ArrayFits(ItemValues(items), MAX_NESTING - nesting);
    if items == [] {
      assert ItemValues([]) == [] && AllFit([], MAX_NESTING - nesting) by { NoItems(MAX_NESTING - nesting); }
      GapThen(s, i + 1, gap, RBRACKET);
    } else {
      ItemsAreRead(s, i + 1, items, nesting, []);
      StopsAt(s, i + 1 + |WrittenItems(items)|);
      assert [] + ItemValues(items) == ItemValues(items);
    }
  }

  lemma NoItems(room: int)
    ensures ItemValues([]) == [] && AllFit([], room) && AllGoodItems([])
  {
  }

  /** From the gap in front of the first item to the closing bracket. */
  lemma {:induction false} ItemsAreRead(s: bytes, p: nat, items: seq<ItemDoc>, nesting: nat, acc: seq<Value>)
    requires items != [] && AllGoodItems(items) && Occurs(s, p, WrittenItems(items) + [RBRACKET])
    ensures p <= |s| && At(s, SkipWs(s, p)) != RBRACKET
    ensures p + |WrittenItems(items)| < |s| && At(s, p + |WrittenItems(items)|) == RBRACKET
    ensures ItemsAt(s, SkipWs(s, p), nesting, acc) ==
            if AllFit(ItemValues(items), MAX_NESTING - nesting)
            then Done(acc + ItemValues(items), p + |WrittenItems(items)|) else Fail
    decreases items
  {
    hide *;
    var item, rest := items[0], items[1..];
    var v := Meaning(item.doc);
    var x := if rest == [] then RBRACKET else COMMA;
    FirstItem(items);
    ItemPieces(s, p, items);
    var a := p + |item.before|;
    var b := a + |Written(item.doc)|;
    LeadSkipped(s, p, item.before, item.doc);
    BlankOrBracket(s, b, item.behind, x);
    WrittenIsRead(s, a, item.doc, nesting);
    ItemsRound(s, a, nesting, acc, v);
    ItemValuesStep(items, acc, MAX_NESTING - nesting);
    var c := b + |item.behind|;
    if rest != [] {
      ItemsAreRead(s, c + 1, rest, nesting, acc + [v]);
    }
  }

  lemma FirstItem(items: seq<ItemDoc>)
    requires items != [] && AllGoodItems(items)
    ensures Blank(items[0].before) && Blank(items[0].behind) && GoodDoc(items[0].doc) && AllGoodItems(items[1..])
  {
    assert GoodItem(items[0]);
    hide GoodDoc, Blank;
  }

  lemma ItemPieces(s: bytes, p: nat, items: seq<ItemDoc>)
    requires items != [] && Occurs(s, p, WrittenItems(items) + [RBRACKET])
    ensures var item, rest := items[0], items[1..];
            var a := p + |item.before|;
            var b := a + |Written(item.doc)|;
            var c := b + |item.behind|;
            && Occurs(s, p, item.before) && Occurs(s, a, Written(item.doc))
            && Occurs(s, b, item.behind + [if rest == [] then RBRACKET else COMMA])
            && (rest != [] ==> Occurs(s, c + 1, WrittenItems(rest) + [RBRACKET]))
            && p + |WrittenItems(items)| == if rest == [] then c else c + 1 + |WrittenItems(rest)|
  {
    hide Written, Occurs, WrittenItems;
    var item, rest := items[0], items[1..];
    var head := item.before + Written(item.doc);
    WrittenItemsUnfold(items);
    if rest == [] {
      ConcatAssoc(head, item.behind, [RBRACKET]);
      OccursConcat(s, p, head, item.behind + [RBRACKET]);
    } else {
      SixParts(head, item.behind, COMMA, WrittenItems(rest), RBRACKET);
      OccursConcat(s, p, head + (item.behind + [COMMA]), WrittenItems(rest) + [RBRACKET]);
      OccursConcat(s, p, head, item.behind + [COMMA]);
    }
    OccursConcat(s, p, item.before, Written(item.doc));
  }

  lemma WrittenItemsUnfold(items: seq<ItemDoc>)
    requires items != []
    ensures var first := items[0].before + Written(items[0].doc) + items[0].behind;
            WrittenItems(items) == if items[1..] == [] then first else first + [COMMA] + WrittenItems(items[1..])
  {
    hide Written;
  }

  lemma SixParts(a: bytes, b: bytes, x: byte, c: bytes, y: byte)
    ensures a + b + [x] + c + [y] == a + (b + [x]) + (c + [y])
  {
  }

  /** The gap before a document is skipped, and its first byte closes nothing. */
  lemma LeadSkipped(s: bytes, p: nat, w: bytes, d: Doc)
    requires Blank(w) && GoodDoc(d) && Occurs(s, p, w) && Occurs(s, p + |w|, Written(d))
    ensures p <= |s| && p + |w| < |s| && SkipWs(s, p) == p + |w|
    ensures At(s, p + |w|) != 0 && At(s, p + |w|) != RBRACKET && !IsSpace(At(s, p + |w|))
  {
    hide Written, GoodDoc;
    FirstByte(d);
    OccursAt(s, p + |w|, Written(d), 0);
    SkipOver(s, p, w);
    StopsAt(s, p + |w|);
  }

  lemma BlankOrBracket(s: bytes, b: nat, w: bytes, x: byte)
    requires Blank(w) && Occurs(s, b, w + [x]) && x in {COMMA, RBRACKET, RBRACE, COLON}
    ensures b <= |s| && b + |w| < |s| && SkipWs(s, b) == b + |w| && At(s, b + |w|) == x && !IsDigit(At(s, b))
    ensures COMMA != RBRACKET && COMMA != RBRACE
  {
    GapThen(s, b, w, x);
  }

  /** One round of the loop over the items. */
  lemma ItemsRound(s: bytes, a: nat, nesting: nat, acc: seq<Value>, v: Value)
    requires a < |s| && At(s, a) != 0
    ensures ValueAt(s, a, nesting).Fail? ==> ItemsAt(s, a, nesting, acc) == Fail
    ensures ValueAt(s, a, nesting).Done? && ValueAt(s, a, nesting).value == v ==>
              var e := SkipWs(s, ValueAt(s, a, nesting).next);
              ItemsAt(s, a, nesting, acc) ==
              if At(s, e) != COMMA then Done(acc + [v], e) else ItemsAt(s, SkipWs(s, e + 1), nesting, acc + [v])
  {
    hide ValueAt;
  }

  lemma ItemValuesStep(items: seq<ItemDoc>, acc: seq<Value>, room: int)
    requires items != []
    ensures var v := Meaning(items[0].doc);
            && (AllFit(ItemValues(items), room) <==> Fits(v, room) && AllFit(ItemValues(items[1..]), room))
            && acc + ItemValues(items) == acc + [v] + ItemValues(items[1..])
            && (items[1..] == [] ==> AllFit(ItemValues(items[1..]), room) && ItemValues(items[1..]) == [])
            && acc + [v] + [] == acc + [v]
  {
    hide Meaning, Fits;
    var v, rest := Meaning(items[0].doc), ItemValues(items[1..]);
    if AllFit([v] + rest, room) {
      assert ([v] + rest)[0] == v;
      assert forall i | 0 <= i < |rest| :: rest[i] == ([v] + rest)[i + 1];
    }
    ConcatAssoc(acc, [v], rest);
  }

  // ---------- Objects ----------

  ghost predicate AllGoodMembers(members: seq<MemberDoc>) {
    forall i | 0 <= i < |members| :: GoodMember(members[i])
  }

  /** Added one by one to those in `acc`, every name is new and every value fits. */
  ghost predicate EntriesFit(acc: seq<Entry<Value>>, es: seq<Entry<Value>>, room: int)
    decreases |es|
  {
    es != [] ==>
      && Find(acc, es[0].name) == |acc| && Fits(es[0].value, room)
      && EntriesFit(acc + [es[0]], es[1..], room)
  }

  lemma {:induction false} EntriesFitIff(acc: seq<Entry<Value>>, es: seq<Entry<Value>>, room: int)
    requires Distinct(acc)
    ensures EntriesFit(acc, es, room) <==> Distinct(acc + es) && forall i | 0 <= i < |es| :: Fits(es[i].value, room)
    decreases |es|
  {
    hide Fits, Distinct;
    if es == [] {
      assert acc + es == acc;
    } else {
      var e, rest := es[0], es[1..];
      assert e == Entry(e.name, e.value);
      assert acc + es == (acc + [e]) + rest;
      if Find(acc, e.name) == |acc| {
        DistinctAfterAppend(acc, e.name, e.value);
        EntriesFitIff(acc + [e], rest, room);
        assert forall i | 0 < i < |es| :: es[i] == rest[i - 1];
        assert forall i | 0 <= i < |rest| :: rest[i] == es[i + 1];
      } else {
        TwiceIsNotDistinct(acc, es);
      }
    }
  }

  lemma TwiceIsNotDistinct(acc: seq<Entry<Value>>, es: seq<Entry<Value>>)
    requires es != [] && Find(acc, es[0].name) < |acc|
    ensures !Distinct(acc + es)
  {
    var k := Find(acc, es[0].name);
    assert (acc + es)[k] == acc[k] && (acc + es)[|acc|] == es[0];
  }

  ghost predicate NulFreeNames(es: seq<Entry<Value>>) {
    forall i | 0 <= i < |es| :: NulFree(es[i].name)
  }

  lemma {:induction false} NamesAreCStrings(members: seq<MemberDoc>)
    ensures NulFreeNames(MemberEntries(members))
    decreases |members|
  {
    hide Meaning, CharsBytes, CString;
    if members != [] {
      NamesAreCStrings(members[1..]);
      assert NulFree(Stored(members[0].key));
    }
  }

  lemma ObjectFits(es: seq<Entry<Value>>, room: int)
    requires room >= -1 && NulFreeNames(es)
    ensures Fits(Object(es), room + 1) <==> EntriesFit([], es, room)
  {
    hide EntriesFit, Distinct, NulFree;
    assert Distinct<Value>([]) by { NothingIsDistinct(); }
    EntriesFitIff([], es, room);
    assert [] + es == es;
  }

  lemma NothingIsDistinct()
    ensures Distinct<Value>([])
  {
  }

  lemma ObjectPieces(s: bytes, i: nat, members: seq<MemberDoc>, gap: bytes)
    requires Occurs(s, i, Written(ObjectDoc(members, gap)))
    ensures var inner := if members == [] then gap else WrittenMembers(members);
            && Occurs(s, i, [LBRACE]) && Occurs(s, i + 1, inner + [RBRACE])
            && |Written(ObjectDoc(members, gap))| == |inner| + 2
  {
    hide WrittenMembers, Occurs;
    var inner := if members == [] then gap else WrittenMembers(members);
    ConcatAssoc([LBRACE], inner, [RBRACE]);
    OccursConcat(s, i, [LBRACE], inner + [RBRACE]);
  }

  lemma {:induction false} ObjectIsRead(s: bytes, i: nat, d: Doc, nesting: nat)
    requires d.ObjectDoc? && GoodDoc(d) && Occurs(s, i, Written(d)) && 0 < nesting <= MAX_NESTING + 1
    ensures i <= |s| && ObjectAt(s, i, nesting) ==
            if Fits(Meaning(d), MAX_NESTING - nesting + 1) then Done(Meaning(d), i + |Written(d)|) else Fail
    decreases d, 1
  {
    hide Written, WrittenMembers, MembersAt, MemberEntries, Fits, EntriesFit, Occurs, SkipWs, Blank, GoodMember;
    var ObjectDoc(members, gap) := d;
    var es := MemberEntries(members);
    ObjectPieces(s, i, members, gap);
    OccursAt(s, i, [LBRACE], 0);
    NamesAreCStrings(members);
    ObjectFits(es, MAX_NESTING - nesting);
    if members == [] {
      assert es == [] && EntriesFit([], [], MAX_NESTING - nesting) by { NoMembers(MAX_NESTING - nesting); }
      GapThen(s, i + 1, gap, RBRACE);
    } else {
      MembersAreRead(s, i + 1, members, nesting, []);
      StopsAt(s, i + 1 + |WrittenMembers(members)|);
      assert [] + es == es;
    }
  }

  lemma NoMembers(room: int)
    ensures MemberEntries([]) == [] && EntriesFit([], [], room) && AllGoodMembers([])
  {
  }

  lemma {:induction false} MembersAreRead(s: bytes, p: nat, members: seq<MemberDoc>, nesting: nat,
                                          acc: seq<Entry<Value>>)
    requires members != [] && AllGoodMembers(members) && Occurs(s, p, WrittenMembers(members) + [RBRACE])
    ensures p <= |s| && At(s, SkipWs(s, p)) != RBRACE
    ensures p + |WrittenMembers(members)| < |s| && At(s, p + |WrittenMembers(members)|) == RBRACE
    ensures MembersAt(s, SkipWs(s, p), nesting, acc) ==
            if EntriesFit(acc, MemberEntries(members), MAX_NESTING - nesting)
            then Done(acc + MemberEntries(members), p + |WrittenMembers(members)|) else Fail
    decreases members
  {
    hide *;
    var m, rest := members[0], members[1..];
    var e := Entry(Stored(m.key), Meaning(m.doc));
    var x := if rest == [] then RBRACE else COMMA;
    FirstMember(members);
    MemberPieces(s, p, members);
    var a := p + |m.before|;
    var k := a + |StringText(m.key)|;
    var d := k + |m.behindKey| + 1 + |m.behindColon|;
    var b := d + |Written(m.doc)|;
    KeySkipped(s, p, m.before, m.key);
    BlankOrBracket(s, k, m.behindKey, COLON);
    SkipOver(s, k + |m.behindKey| + 1, m.behindColon);
    BlankOrBracket(s, b, m.behind, x);
    WrittenIsRead(s, d, m.doc, nesting);
    MemberIsRead(s, a, m, nesting);
    MembersRound(s, a, nesting, acc, e);
    MemberEntriesStep(members, acc, MAX_NESTING - nesting);
    var c := b + |m.behind|;
    if rest != [] {
      MembersAreRead(s, c + 1, rest, nesting, acc + [e]);
    }
  }

  lemma FirstMember(members: seq<MemberDoc>)
    requires members != [] && AllGoodMembers(members)
    ensures var m := members[0];
            && Blank(m.before) && GoodChars(m.key) && Blank(m.behindKey)
            && Blank(m.behindColon) && GoodDoc(m.doc) && Blank(m.behind) && AllGoodMembers(members[1..])
  {
    assert GoodMember(members[0]);
    hide GoodDoc, Blank, GoodChars;
  }

  lemma MemberPieces(s: bytes, p: nat, members: seq<MemberDoc>)
    requires members != [] && Occurs(s, p, WrittenMembers(members) + [RBRACE])
    ensures var m, rest := members[0], members[1..];
            var a := p + |m.before|;
            var k := a + |StringText(m.key)|;
            var v := k + |m.behindKey| + 1;
            var d := v + |m.behindColon|;
            var b := d + |Written(m.doc)|;
            var c := b + |m.behind|;
            && Occurs(s, p, m.before) && Occurs(s, a, StringText(m.key)) && Occurs(s, k, m.behindKey + [COLON])
            && Occurs(s, v, m.behindColon) && Occurs(s, d, Written(m.doc))
            && Occurs(s, b, m.behind + [if rest == [] then RBRACE else COMMA])
            && (rest != [] ==> Occurs(s, c + 1, WrittenMembers(rest) + [RBRACE]))
            && p + |WrittenMembers(members)| == if rest == [] then c else c + 1 + |WrittenMembers(rest)|
  {
    hide Written, Occurs, StringText, WrittenMembers;
    var m, rest := members[0], members[1..];
    var key := m.before + StringText(m.key);
    var colon := key + (m.behindKey + [COLON]);
    var head := colon + m.behindColon + Written(m.doc);
    WrittenMembersUnfold(members);
    ConcatAssoc(key, m.behindKey, [COLON]);
    if rest == [] {
      ConcatAssoc(head, m.behind, [RBRACE]);
      OccursConcat(s, p, head, m.behind + [RBRACE]);
    } else {
      SixParts(head, m.behind, COMMA, WrittenMembers(rest), RBRACE);
      OccursConcat(s, p, head + (m.behind + [COMMA]), WrittenMembers(rest) + [RBRACE]);
      OccursConcat(s, p, head, m.behind + [COMMA]);
    }
    OccursConcat(s, p, colon + m.behindColon, Written(m.doc));
    OccursConcat(s, p, colon, m.behindColon);
    OccursConcat(s, p, key, m.behindKey + [COLON]);
    OccursConcat(s, p, m.before, StringText(m.key));
  }

  lemma WrittenMembersUnfold(members: seq<MemberDoc>)
    requires members != []
    ensures var m := members[0];
            var head := m.before + StringText(m.key) + m.behindKey + [COLON];
            var first := head + m.behindColon + Written(m.doc) + m.behind;
            WrittenMembers(members) ==
            if members[1..] == [] then first else first + [COMMA] + WrittenMembers(members[1..])
  {
    hide Written, StringText;
  }

  lemma KeySkipped(s: bytes, p: nat, w: bytes, key: seq<Char>)
    requires Blank(w) && Occurs(s, p, w) && Occurs(s, p + |w|, StringText(key))
    ensures p <= |s| && p + |w| < |s| && SkipWs(s, p) == p + |w|
    ensures At(s, p + |w|) == QUOTE && QUOTE != 0 && QUOTE != RBRACE
  {
    hide CharsText;
    OccursAt(s, p + |w|, StringText(key), 0);
    SkipOver(s, p, w);
    StopsAt(s, p + |w|);
  }

  /** A member is its key, a colon, and whatever the value parser makes of what follows. */
  lemma MemberIsRead(s: bytes, a: nat, m: MemberDoc, nesting: nat)
    requires GoodChars(m.key) && Occurs(s, a, StringText(m.key))
    requires var k := a + |StringText(m.key)|;
             && k <= |s| && k + |m.behindKey| < |s| && SkipWs(s, k) == k + |m.behindKey|
             && At(s, k + |m.behindKey|) == COLON
             && k + |m.behindKey| + 1 + |m.behindColon| <= |s|
             && SkipWs(s, k + |m.behindKey| + 1) == SkipWs(s, k + |m.behindKey| + 1 + |m.behindColon|)
    ensures var d := a + |StringText(m.key)| + |m.behindKey| + 1 + |m.behindColon|;
            a <= |s| && MemberAt(s, a, nesting) ==
            match ValueAt(s, d, nesting)
            case Fail => Fail
            case Done(v, next) => Done(Entry(Stored(m.key), v), next)
  {
    hide StringText, ValueAt, GetQuotedString, GoodChars, Stored, SkipWs;
    StringIsRead(s, a, m.key);
    var c := a + |StringText(m.key)| + |m.behindKey|;
    ValueSkipsSpace(s, c + 1, c + 1 + |m.behindColon|, nesting);
  }

  lemma MembersRound(s: bytes, a: nat, nesting: nat, acc: seq<Entry<Value>>, e: Entry<Value>)
    requires a < |s| && At(s, a) != 0
    ensures MemberAt(s, a, nesting).Fail? ==> MembersAt(s, a, nesting, acc) == Fail
    ensures MemberAt(s, a, nesting).Done? && MemberAt(s, a, nesting).value == e ==>
              var j := SkipWs(s, MemberAt(s, a, nesting).next);
              MembersAt(s, a, nesting, acc) ==
              if Find(acc, e.name) < |acc| then Fail
              else if At(s, j) != COMMA then Done(acc + [e], j)
              else MembersAt(s, SkipWs(s, j + 1), nesting, acc + [e])
  {
    hide MemberAt;
    assert e == Entry(e.name, e.value);
  }

  lemma MemberEntriesStep(members: seq<MemberDoc>, acc: seq<Entry<Value>>, room: int)
    requires members != []
    ensures var e, rest := Entry(Stored(members[0].key), Meaning(members[0].doc)), members[1..];
            && (EntriesFit(acc, MemberEntries(members), room) <==>
                  Find(acc, e.name) == |acc| && Fits(e.value, room) && EntriesFit(acc + [e], MemberEntries(rest), room))
            && acc + MemberEntries(members) == acc + [e] + MemberEntries(rest)
            && (rest == [] ==> EntriesFit(acc + [e], MemberEntries(rest), room) && MemberEntries(rest) == [])
            && acc + [e] + [] == acc + [e]
  {
    hide Meaning, Fits, Stored;
    var e, rest := Entry(Stored(members[0].key), Meaning(members[0].doc)), MemberEntries(members[1..]);
    assert ([e] + rest)[1..] == rest;
    ConcatAssoc(acc, [e], rest);
  }

  // ---------- Whatever is read is a text of the grammar ----------

  /** A value that is read was spelled as a document behind white space, but for a lone minus sign. */
  lemma {:induction false} ReadIsWritten(s: bytes, i: nat, nesting: nat) returns (w: bytes, d: Doc)
    requires i <= |s| && ValueAt(s, i, nesting).Done? && !LoneMinus(s, SkipWs(s, i))
    ensures Blank(w) && GoodDoc(d) && Occurs(s, i, w) && i + |w| == SkipWs(s, i)
    ensures Occurs(s, i + |w|, Written(d))
    ensures ValueAt(s, i, nesting) == Done(Meaning(d), i + |w| + |Written(d)|)
    decreases |s| - i, 2
  {
    hide ObjectAt, ArrayAt, StringAt, BooleanAt, NumberAt, NullAt, Written, Meaning, GoodDoc, Blank, LoneMinus;
    var j := SkipWs(s, i);
    var c := At(s, j);
    w := s[i..j];
    SkippedIsBlank(s, i);
    if c == LBRACE {
      d := ReadIsObject(s, j, nesting + 1);
    } else if c == LBRACKET {
      d := ReadIsArray(s, j, nesting + 1);
    } else if c == QUOTE {
      d := ReadIsStringDoc(s, j);
    } else if c == 0x66 || c == 0x74 || c == 0x6E {
      d := ReadIsLiteral(s, j);
    } else {
      d := ReadIsNumber(s, j);
    }
  }

  lemma ReadIsStringDoc(s: bytes, i: nat) returns (d: Doc)
    requires StringAt(s, i).Done?
    ensures GoodDoc(d) && Occurs(s, i, Written(d)) && StringAt(s, i) == Done(Meaning(d), i + |Written(d)|)
  {
    hide GetQuotedString, CharsText, CharsBytes, GoodChars, StringText, Stored;
    var cs := ReadIsString(s, i);
    d := StringDoc(cs);
  }

  lemma ReadIsLiteral(s: bytes, i: nat) returns (d: Doc)
    requires At(s, i) == 0x66 || At(s, i) == 0x74 || At(s, i) == 0x6E
    requires if At(s, i) == 0x6E then NullAt(s, i).Done? else BooleanAt(s, i).Done?
    ensures GoodDoc(d) && Occurs(s, i, Written(d))
    ensures Done(Meaning(d), i + |Written(d)|) == if At(s, i) == 0x6E then NullAt(s, i) else BooleanAt(s, i)
  {
    d := if At(s, i) == 0x6E then NullDoc else BoolDoc(Occurs(s, i, TRUE_TOKEN));
  }

  lemma {:induction false} ReadIsArray(s: bytes, i: nat, nesting: nat) returns (d: Doc)
    requires i <= |s| && ArrayAt(s, i, nesting).Done?
    ensures GoodDoc(d) && Occurs(s, i, Written(d)) && ArrayAt(s, i, nesting) == Done(Meaning(d), i + |Written(d)|)
    decreases |s| - i, 1
  {
    hide ItemsAt, SkipWs, WrittenItems, ItemValues, GoodItem, Blank, Occurs;
    var j := SkipWs(s, i + 1);
    if At(s, j) == RBRACKET {
      var gap := s[i + 1..j];
      SkippedIsBlank(s, i + 1);
      SliceOccurs(s, i + 1, j);
      Bracketed(s, i, LBRACKET, gap, RBRACKET);
      NoItems(0);
      d := ArrayDoc([], gap);
    } else {
      var items := ReadIsItems(s, i + 1, nesting, []);
      StopsAt(s, i + 1 + |WrittenItems(items)|);
      Bracketed(s, i, LBRACKET, WrittenItems(items), RBRACKET);
      assert [] + ItemValues(items) == ItemValues(items);
      assert Blank([]) by { NothingIsBlank(); }
      d := ArrayDoc(items, []);
    }
  }

  lemma Bracketed(s: bytes, i: nat, open: byte, inner: bytes, close: byte)
    requires i < |s| && At(s, i) == open && Occurs(s, i + 1, inner)
    requires i + 1 + |inner| < |s| && At(s, i + 1 + |inner|) == close
    ensures Occurs(s, i, [open] + inner + [close])
  {
    hide Occurs;
    ByteOccurs(s, i, open);
    ByteOccurs(s, i + 1 + |inner|, close);
    OccursConcat(s, i, [open], inner);
    OccursConcat(s, i, [open] + inner, [close]);
  }

  lemma NothingIsBlank()
    ensures Blank([])
  {
  }

  lemma {:induction false} ReadIsItems(s: bytes, p: nat, nesting: nat, acc: seq<Value>) returns (items: seq<ItemDoc>)
    requires p <= |s| && ItemsAt(s, SkipWs(s, p), nesting, acc).Done?
    requires At(s, SkipWs(s, ItemsAt(s, SkipWs(s, p), nesting, acc).next)) == RBRACKET
    ensures items != [] && AllGoodItems(items) && Occurs(s, p, WrittenItems(items))
    ensures ItemsAt(s, SkipWs(s, p), nesting, acc) == Done(acc + ItemValues(items), p + |WrittenItems(items)|)
    ensures At(s, p + |WrittenItems(items)|) == RBRACKET
    decreases |s| - p, 3
  {
    hide *;
    var a := SkipWs(s, p);
    SkippedIsBlank(s, p);
    StopsAt(s, a);
    SliceOccurs(s, p, a);
    ItemsStep(s, a, nesting, acc);
    ClosersDiffer();
    LoneMinusStays(s, a, nesting);
    var w, d := ReadIsWritten(s, a, nesting);
    var b := a + |Written(d)|;
    var c := SkipWs(s, b);
    SkippedIsBlank(s, b);
    StopsAt(s, c);
    SliceOccurs(s, b, c);
    var item := ItemDoc(s[p..a], d, s[b..c]);
    if At(s, c) == COMMA {
      var rest := ReadIsItems(s, c + 1, nesting, acc + [Meaning(d)]);
      items := [item] + rest;
      ByteOccurs(s, c, COMMA);
      ItemsAssemble(s, p, item, rest);
      ItemConsed(item, rest);
      ConcatAssoc(acc, [Meaning(d)], ItemValues(rest));
    } else {
      items := [item];
      LastItemAssembles(s, p, item);
      NoItems(0);
      ItemConsed(item, []);
      assert [item] + [] == [item] && [Meaning(d)] + [] == [Meaning(d)];
    }
  }

  lemma ClosersDiffer()
    ensures 0 !in {RBRACKET, RBRACE, COMMA, MINUS} && COMMA !in {RBRACKET, RBRACE, MINUS}
    ensures MINUS !in {RBRACKET, RBRACE} && !IsSpace(0)
  {
  }

  lemma ItemConsed(item: ItemDoc, rest: seq<ItemDoc>)
    requires Blank(item.before) && GoodDoc(item.doc) && Blank(item.behind) && AllGoodItems(rest)
    ensures AllGoodItems([item] + rest) && ItemValues([item] + rest) == [Meaning(item.doc)] + ItemValues(rest)
  {
    hide GoodDoc, Blank, Meaning;
    assert ([item] + rest)[1..] == rest;
    assert forall i | 0 < i < |rest| + 1 :: ([item] + rest)[i] == rest[i - 1];
  }

  lemma SliceOccurs(s: bytes, i: nat, j: nat)
    requires i <= j <= |s|
    ensures Occurs(s, i, s[i..j])
  {
  }

  lemma ByteOccurs(s: bytes, c: nat, x: byte)
    requires c < |s| && At(s, c) == x
    ensures Occurs(s, c, [x])
  {
  }

  /** A lone minus sign leaves the cursor where it is, in front of what is neither a comma nor a bracket. */
  lemma LoneMinusStays(s: bytes, i: nat, nesting: nat)
    requires i <= |s| && ValueAt(s, i, nesting).Done?
    ensures LoneMinus(s, SkipWs(s, i)) ==>
              var j := SkipWs(s, i);
              ValueAt(s, i, nesting) == Done(Number(0), j) && SkipWs(s, j) == j && At(s, j) == MINUS
  {
    hide ObjectAt, ArrayAt, StringAt, BooleanAt, NullAt;
    StopsAt(s, SkipWs(s, i));
  }

  lemma LastItemAssembles(s: bytes, p: nat, item: ItemDoc)
    requires var a := p + |item.before|;
             var b := a + |Written(item.doc)|;
             Occurs(s, p, item.before) && Occurs(s, a, Written(item.doc)) && Occurs(s, b, item.behind)
    ensures Occurs(s, p, WrittenItems([item]))
    ensures |WrittenItems([item])| == |item.before| + |Written(item.doc)| + |item.behind|
  {
    hide Written, Occurs;
    OccursConcat(s, p, item.before, Written(item.doc));
    OccursConcat(s, p, item.before + Written(item.doc), item.behind);
  }

  lemma ItemsAssemble(s: bytes, p: nat, item: ItemDoc, rest: seq<ItemDoc>)
    requires rest != []
    requires var a := p + |item.before|;
             var b := a + |Written(item.doc)|;
             var c := b + |item.behind|;
             && Occurs(s, p, item.before) && Occurs(s, a, Written(item.doc)) && Occurs(s, b, item.behind)
             && Occurs(s, c, [COMMA]) && Occurs(s, c + 1, WrittenItems(rest))
    ensures Occurs(s, p, WrittenItems([item] + rest))
    ensures |WrittenItems([item] + rest)|
            == |item.before| + |Written(item.doc)| + |item.behind| + 1 + |WrittenItems(rest)|
  {
    hide Written, Occurs, WrittenItems;
    WrittenItemsUnfold([item] + rest);
    assert ([item] + rest)[1..] == rest;
    var first := item.before + Written(item.doc) + item.behind;
    OccursConcat(s, p, item.before, Written(item.doc));
    OccursConcat(s, p, item.before + Written(item.doc), item.behind);
    OccursConcat(s, p, first, [COMMA]);
    OccursConcat(s, p, first + [COMMA], WrittenItems(rest));
  }

  lemma {:induction false} ReadIsObject(s: bytes, i: nat, nesting: nat) returns (d: Doc)
    requires i <= |s| && ObjectAt(s, i, nesting).Done?
    ensures GoodDoc(d) && Occurs(s, i, Written(d)) && ObjectAt(s, i, nesting) == Done(Meaning(d), i + |Written(d)|)
    decreases |s| - i, 1
  {
    hide MembersAt, SkipWs, WrittenMembers, MemberEntries, GoodMember, Blank, Occurs;
    var j := SkipWs(s, i + 1);
    if At(s, j) == RBRACE {
      var gap := s[i + 1..j];
      SkippedIsBlank(s, i + 1);
      SliceOccurs(s, i + 1, j);
      Bracketed(s, i, LBRACE, gap, RBRACE);
      NoMembers(0);
      d := ObjectDoc([], gap);
    } else {
      var members := ReadIsMembers(s, i + 1, nesting, []);
      StopsAt(s, i + 1 + |WrittenMembers(members)|);
      Bracketed(s, i, LBRACE, WrittenMembers(members), RBRACE);
      assert [] + MemberEntries(members) == MemberEntries(members);
      assert Blank([]) by { NothingIsBlank(); }
      d := ObjectDoc(members, []);
    }
  }

  /** The key, the colon and the value of a member. */
  lemma {:induction false} ReadIsMember(s: bytes, a: nat, nesting: nat) returns (m: MemberDoc)
    requires a <= |s| && MemberAt(s, a, nesting).Done?
    requires var e := SkipWs(s, MemberAt(s, a, nesting).next); At(s, e) == COMMA || At(s, e) == RBRACE
    ensures m.before == [] && m.behind == [] && GoodMember(m) && Occurs(s, a, MemberText(m)) && |MemberText(m)| > 0
    ensures MemberAt(s, a, nesting) == Done(Entry(Stored(m.key), Meaning(m.doc)), a + |MemberText(m)|)
    decreases |s| - a, 0
  {
    hide GetQuotedString, ValueAt, SkipWs, Written, Meaning, Blank, GoodDoc, Occurs, LoneMinus, StringText, Stored;
    hide GoodChars;
    var key := ReadIsString(s, a);
    var k := a + |StringText(key)|;
    var c := SkipWs(s, k);
    SkippedIsBlank(s, k);
    SliceOccurs(s, k, c);
    ByteOccurs(s, c, COLON);
    LoneMinusStays(s, c + 1, nesting);
    var w, d := ReadIsWritten(s, c + 1, nesting);
    NothingIsBlank();
    m := MemberDoc([], key, s[k..c], w, d, []);
    OccursConcat(s, a, StringText(key), s[k..c]);
    OccursConcat(s, a, StringText(key) + s[k..c], [COLON]);
    OccursConcat(s, a, StringText(key) + s[k..c] + [COLON], w);
    OccursConcat(s, a, StringText(key) + s[k..c] + [COLON] + w, Written(d));
  }

  /** A member without the gaps around it. */
  function MemberText(m: MemberDoc): bytes {
    StringText(m.key) + m.behindKey + [COLON] + m.behindColon + Written(m.doc)
  }

  lemma {:induction false} ReadIsMembers(s: bytes, p: nat, nesting: nat, acc: seq<Entry<Value>>)
    returns (members: seq<MemberDoc>)
    requires p <= |s| && MembersAt(s, SkipWs(s, p), nesting, acc).Done?
    requires At(s, SkipWs(s, MembersAt(s, SkipWs(s, p), nesting, acc).next)) == RBRACE
    ensures members != [] && AllGoodMembers(members) && Occurs(s, p, WrittenMembers(members))
    ensures MembersAt(s, SkipWs(s, p), nesting, acc)
            == Done(acc + MemberEntries(members), p + |WrittenMembers(members)|)
    ensures At(s, p + |WrittenMembers(members)|) == RBRACE
    decreases |s| - p, 3
  {
    hide *;
    var a := SkipWs(s, p);
    SkippedIsBlank(s, p);
    StopsAt(s, a);
    var before := s[p..a];
    SliceOccurs(s, p, a);
    MembersStep(s, a, nesting, acc);
    ClosersDiffer();
    var b := MemberAt(s, a, nesting).next;
    var c := SkipWs(s, b);
    SkippedIsBlank(s, b);
    StopsAt(s, c);
    var behind := s[b..c];
    SliceOccurs(s, b, c);
    var inner := ReadIsMember(s, a, nesting);
    var m := inner.(before := before, behind := behind);
    var e := Entry(Stored(m.key), Meaning(m.doc));
    AddedAtEnd(acc, e);
    SameMemberText(inner, m);
    if At(s, c) == COMMA {
      var rest := ReadIsMembers(s, c + 1, nesting, acc + [e]);
      members := [m] + rest;
      ByteOccurs(s, c, COMMA);
      MembersAssemble(s, p, m, rest);
      MemberConsed(inner, m, rest);
      ConcatAssoc(acc, [e], MemberEntries(rest));
    } else {
      members := [m];
      LastMemberAssembles(s, p, m);
      NoMembers(0);
      MemberConsed(inner, m, []);
      assert [m] + [] == [m] && [e] + [] == [e];
    }
  }

  lemma MemberConsed(inner: MemberDoc, m: MemberDoc, rest: seq<MemberDoc>)
    requires GoodMember(inner) && m == inner.(before := m.before, behind := m.behind)
    requires Blank(m.before) && Blank(m.behind) && AllGoodMembers(rest)
    ensures AllGoodMembers([m] + rest)
    ensures MemberEntries([m] + rest) == [Entry(Stored(m.key), Meaning(m.doc))] + MemberEntries(rest)
  {
    hide GoodDoc, Blank, Meaning, GoodChars, Stored;
    assert ([m] + rest)[1..] == rest;
    assert forall i | 0 < i < |rest| + 1 :: ([m] + rest)[i] == rest[i - 1];
  }

  lemma AddedAtEnd(acc: seq<Entry<Value>>, e: Entry<Value>)
    ensures AddEntry(acc, e.name, e.value).Some? ==> AddEntry(acc, e.name, e.value) == Some(acc + [e])
  {
    assert e == Entry(e.name, e.value);
  }

  lemma SameMemberText(m: MemberDoc, n: MemberDoc)
    requires m.key == n.key && m.behindKey == n.behindKey && m.behindColon == n.behindColon && m.doc == n.doc
    ensures MemberText(m) == MemberText(n)
  {
  }

  lemma MemberWhole(m: MemberDoc)
    ensures m.before + StringText(m.key) + m.behindKey + [COLON] + m.behindColon + Written(m.doc)
            == m.before + MemberText(m)
  {
    hide StringText, Written;
  }

  lemma LastMemberAssembles(s: bytes, p: nat, m: MemberDoc)
    requires var a := p + |m.before|;
             Occurs(s, p, m.before) && Occurs(s, a, MemberText(m)) && Occurs(s, a + |MemberText(m)|, m.behind)
    ensures Occurs(s, p, WrittenMembers([m]))
    ensures |WrittenMembers([m])| == |m.before| + |MemberText(m)| + |m.behind|
  {
    hide Written, Occurs, StringText, MemberText, WrittenMembers;
    WrittenMembersUnfold([m]);
    MemberWhole(m);
    OccursConcat(s, p, m.before, MemberText(m));
    OccursConcat(s, p, m.before + MemberText(m), m.behind);
  }

  lemma MembersAssemble(s: bytes, p: nat, m: MemberDoc, rest: seq<MemberDoc>)
    requires rest != []
    requires var a := p + |m.before|;
             var b := a + |MemberText(m)|;
             var c := b + |m.behind|;
             && Occurs(s, p, m.before) && Occurs(s, a, MemberText(m)) && Occurs(s, b, m.behind)
             && Occurs(s, c, [COMMA]) && Occurs(s, c + 1, WrittenMembers(rest))
    ensures Occurs(s, p, WrittenMembers([m] + rest))
    ensures |WrittenMembers([m] + rest)| == |m.before| + |MemberText(m)| + |m.behind| + 1 + |WrittenMembers(rest)|
  {
    hide Written, Occurs, StringText, MemberText, WrittenMembers;
    WrittenMembersUnfold([m] + rest);
    MemberWhole(m);
    assert ([m] + rest)[1..] == rest;
    var first := m.before + MemberText(m) + m.behind;
    OccursConcat(s, p, m.before, MemberText(m));
    OccursConcat(s, p, m.before + MemberText(m), m.behind);
    OccursConcat(s, p, first, [COMMA]);
    OccursConcat(s, p, first + [COMMA], WrittenMembers(rest));
  }

  // ---------- Documents ----------

  /** A text that starts, behind white space, with a minus sign and no digit. */
  ghost predicate IsLoneMinus(s: bytes) {
    LoneMinus(s, SkipWs(s, if Occurs(s, 0, BYTE_ORDER_MARK) then 3 else 0))
  }

  /** json_parse_string reads `v` from exactly the texts of `v` in the grammar whose names are distinct in each object
      and whose height is within the limit; and 0 from a lone minus sign. */
  lemma DocumentIff(s: bytes, v: Value)
    ensures (DocumentAt(s).Done? && DocumentAt(s).value == v)
            <==> if IsLoneMinus(s) then v == Number(0) else IsTextOf(s, v) && Fits(v, MAX_NESTING)
  {
    hide ValueAt, SkipWs, Fits, LoneMinus;
    var i := if Occurs(s, 0, BYTE_ORDER_MARK) then 3 else 0;
    if IsLoneMinus(s) {
      LoneMinusIsZero(s, i);
    } else {
      if DocumentAt(s).Done? && DocumentAt(s).value == v {
        DocumentIsText(s, i);
      }
      if IsTextOf(s, v) {
        var bom, w, d, rest :| Splits(s, bom, w, d, rest) && Meaning(d) == v;
        TextIsRead(s, bom, w, d, rest);
      }
    }
  }

  lemma LoneMinusIsZero(s: bytes, i: nat)
    requires i <= |s| && LoneMinus(s, SkipWs(s, i))
    ensures ValueAt(s, i, 0).Done? && ValueAt(s, i, 0).value == Number(0)
  {
  }

  lemma DocumentIsText(s: bytes, i: nat)
    requires i == if Occurs(s, 0, BYTE_ORDER_MARK) then 3 else 0
    requires DocumentAt(s).Done? && !LoneMinus(s, SkipWs(s, i))
    ensures IsTextOf(s, DocumentAt(s).value) && Fits(DocumentAt(s).value, MAX_NESTING)
  {
    hide ValueAt, SkipWs, LoneMinus, GoodDoc, Written, Meaning, Blank, WellFormed, NestsWithin;
    var w, d := ReadIsWritten(s, i, 0);
    ParsedIsWellFormed(s, i, 0);
    var k := i + |w| + |Written(d)|;
    var bom, rest := s[..i], s[k..];
    assert s == bom + w + Written(d) + rest by {
      assert s[i..i + |w|] == w && s[i + |w|..k] == Written(d);
      assert s == s[..i] + s[i..i + |w|] + s[i + |w|..k] + s[k..];
    }
    if d.NumberDoc? {
      NumberEnds(s, i, d, k);
    }
    assert i == 0 ==> bom == [];
    assert Splits(s, bom, w, d, rest);
  }

  lemma NumberEnds(s: bytes, i: nat, d: Doc, k: nat)
    requires i <= |s| && !LoneMinus(s, SkipWs(s, i)) && d.NumberDoc? && GoodDoc(d)
    requires Occurs(s, SkipWs(s, i), Written(d)) && k == SkipWs(s, i) + |Written(d)|
    requires ValueAt(s, i, 0) == Done(Meaning(d), k)
    ensures !IsDigit(At(s, k))
  {
    hide ObjectAt, ArrayAt, StringAt, BooleanAt, NullAt, IsDecimal, DigitsValue, Horner, LoneMinus;
    var j := SkipWs(s, i);
    OccursAt(s, j, Written(d), 0);
    DigitsStop(s, if At(s, j) == MINUS then j + 1 else j);
  }

  lemma {:induction false} DigitsStop(s: bytes, i: nat)
    requires i <= |s|
    ensures !IsDigit(At(s, DigitsEnd(s, i)))
    decreases |s| - i
  {
    if IsDigit(At(s, i)) {
      DigitsStop(s, i + 1);
    }
  }

  lemma TextIsRead(s: bytes, bom: bytes, w: bytes, d: Doc, rest: bytes)
    requires Splits(s, bom, w, d, rest)
    ensures DocumentAt(s).Done? <==> Fits(Meaning(d), MAX_NESTING)
    ensures DocumentAt(s).Done? ==> DocumentAt(s).value == Meaning(d)
  {
    hide ValueAt, SkipWs, Fits, Written, Meaning, GoodDoc;
    var i := |bom|;
    assert s[i..i + |w|] == w && s[i + |w|..i + |w| + |Written(d)|] == Written(d);
    MarkIff(s, bom, w, d, rest);
    SkipOver(s, i, w);
    ValueSkipsSpace(s, i, i + |w|, 0);
    assert rest != [] ==> s[i + |w| + |Written(d)|] == rest[0];
    WrittenIsRead(s, i + |w|, d, 0);
  }

  lemma MarkIff(s: bytes, bom: bytes, w: bytes, d: Doc, rest: bytes)
    requires Splits(s, bom, w, d, rest)
    ensures Occurs(s, 0, BYTE_ORDER_MARK) <==> bom == BYTE_ORDER_MARK
  {
    hide Written, Meaning, GoodDoc;
    if bom == BYTE_ORDER_MARK {
      assert s[0..3] == bom;
    } else {
      FirstByte(d);
      var t := w + Written(d);
      assert t[0] != 0xEF by { NoMark(d); }
      assert s == [] + w + Written(d) + rest && s[0] == t[0];
      if Occurs(s, 0, BYTE_ORDER_MARK) {
        OccursAt(s, 0, BYTE_ORDER_MARK, 0);
      }
    }
  }

  lemma NoMark(d: Doc)
    requires GoodDoc(d)
    ensures Written(d) != [] && Written(d)[0] != 0xEF
  {
    FirstByte(d);
  }
}
