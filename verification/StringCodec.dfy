/** Quoted strings: finding the closing quote, undoing escapes, and writing escapes
    (section 7 of RFC 8259). */
module StringCodec {
  import opened Bytes
  import opened Utf8

  // ---------- skip_quotes ----------

  /** From inside a quoted string, the position just after its closing quote. */
  function SkipBody(s: bytes, i: nat): (r: Option<nat>)
    ensures r.Some? ==> i < r.value <= |s| && s[r.value - 1] == QUOTE
    decreases |s| - i
  {
    if At(s, i) == QUOTE then Some(i + 1)
    else if At(s, i) == 0 then None
    else if At(s, i) == BACKSLASH then
      if At(s, i + 1) == 0 then None else SkipBody(s, i + 2)
    else SkipBody(s, i + 1)
  }

  function SkipQuotes(s: bytes, i: nat): (r: Option<nat>)
    ensures r.Some? ==> i + 2 <= r.value <= |s| && s[i] == QUOTE == s[r.value - 1]
  {
    if At(s, i) != QUOTE then None else SkipBody(s, i + 1)
  }

  // ---------- parse_utf16 ----------

  function ParseUtf16Hex(s: bytes, i: nat): (r: Option<nat>)
    ensures r.Some? ==> r.value < 0x10000 && i + 4 <= |s|
  {
    var x1 := HexCharToInt(At(s, i));
    var x2 := HexCharToInt(At(s, i + 1));
    var x3 := HexCharToInt(At(s, i + 2));
    var x4 := HexCharToInt(At(s, i + 3));
    if x1 == -1 || x2 == -1 || x3 == -1 || x4 == -1 then None
    else Some(x1 * 0x1000 + x2 * 0x100 + x3 * 0x10 + x4)
  }

  /** The code point a \u escape denotes and where the escape ends; `i` is the position of the u. */
  datatype Escaped = Escaped(cp: nat, next: nat)

  function ParseUtf16(s: bytes, i: nat): (r: Option<Escaped>)
    ensures r.Some? ==> IsScalar(r.value.cp) && i + 5 <= r.value.next <= |s|
    ensures r.Some? ==> |Encode(r.value.cp)| <= r.value.next - i - 2
  {
    match ParseUtf16Hex(s, i + 1)
    case None => None
    case Some(lead) =>
      if lead < 0xD800 || lead > 0xDFFF then Some(Escaped(lead, i + 5))
      else if lead > 0xDBFF then None // a trail surrogate first
      else if At(s, i + 5) != BACKSLASH || At(s, i + 6) != LOWER_U then None
      else match ParseUtf16Hex(s, i + 7)
        case None => None
        case Some(trail) =>
          if trail < 0xDC00 || trail > 0xDFFF then None
          else Some(Escaped((lead - 0xD800) % 0x400 * 0x400 + (trail - 0xDC00) % 0x400 + 0x10000, i + 11))
  }

  // ---------- process_string ----------

  /** The piece of output and the next position after the character or escape at `i`. */
  datatype Piece = Piece(out: bytes, next: nat)

  function NextPiece(s: bytes, i: nat): (r: Option<Piece>)
    requires At(s, i) != 0
    ensures r.Some? ==> i < r.value.next <= |s| && 0 < |r.value.out| <= r.value.next - i
  {
    if s[i] == BACKSLASH then
      if At(s, i + 1) == LOWER_U then
        match ParseUtf16(s, i + 1)
        case None => None
        case Some(e) => Some(Piece(Encode(e.cp), e.next))
      else
        match SimpleEscape(At(s, i + 1))
        case None => None
        case Some(b) => Some(Piece([b], i + 2))
    else if s[i] < 0x20 then None
    else Some(Piece([s[i]], i + 1))
  }

  function Unescape(s: bytes, i: nat, end: nat): (r: Option<bytes>)
    decreases |s| - i
  {
    if At(s, i) == 0 || i >= end then Some([])
    else match NextPiece(s, i)
      case None => None
      case Some(p) =>
        match Unescape(s, p.next, end)
        case None => None
        case Some(rest) => Some(p.out + rest)
  }

  // ---------- What an escape may read and write ----------

  /** An escape or plain character inside a quoted string never ends past the closing quote. */
  lemma PieceStaysInside(s: bytes, i: nat)
    requires At(s, i) != 0 && At(s, i) != QUOTE && SkipBody(s, i).Some? && NextPiece(s, i).Some?
    ensures var next := NextPiece(s, i).value.next;
            next < SkipBody(s, i).value && SkipBody(s, next) == SkipBody(s, i)
  {
    if s[i] == BACKSLASH && At(s, i + 1) == LOWER_U {
      HexIsPlain(s, i + 2);
      if ParseUtf16(s, i + 1).value.next == i + 12 {
        assert SkipBody(s, i + 6) == SkipBody(s, i + 8);
        HexIsPlain(s, i + 8);
      }
    }
  }

  lemma HexIsPlain(s: bytes, i: nat)
    requires ParseUtf16Hex(s, i).Some?
    ensures SkipBody(s, i) == SkipBody(s, i + 4)
  {
    assert SkipBody(s, i) == SkipBody(s, i + 1);
    assert SkipBody(s, i + 1) == SkipBody(s, i + 2);
    assert SkipBody(s, i + 2) == SkipBody(s, i + 3);
    assert SkipBody(s, i + 3) == SkipBody(s, i + 4);
  }

  ghost predicate AgreeThrough(s: bytes, t: bytes, end: nat) {
    end < |s| && end < |t| && forall k | 0 <= k <= end :: s[k] == t[k]
  }

  lemma AgreeAt(s: bytes, t: bytes, end: nat, i: nat)
    requires AgreeThrough(s, t, end) && i <= end
    ensures i < |s| && i < |t| && At(s, i) == At(t, i) == s[i] == t[i]
  {
  }

  /** No escape is read past the closing quote: the bytes behind it cannot influence the result. */
  lemma {:induction false} UnescapeIgnoresTail(s: bytes, t: bytes, i: nat, end: nat)
    requires i <= end && AgreeThrough(s, t, end)
    requires SkipBody(s, i) == Some(end + 1)
    ensures Unescape(s, i, end) == Unescape(t, i, end)
    decreases |s| - i
  {
    if i < end {
      PieceIgnoresTail(s, t, i, end);
      if NextPiece(s, i).Some? {
        PieceStaysInside(s, i);
        UnescapeIgnoresTail(s, t, NextPiece(s, i).value.next, end);
      }
    }
  }

  lemma PieceIgnoresTail(s: bytes, t: bytes, i: nat, end: nat)
    requires i < end && AgreeThrough(s, t, end)
    requires SkipBody(s, i) == Some(end + 1)
    ensures s[i] != 0 && s[i] != QUOTE && NextPiece(s, i) == NextPiece(t, i)
  {
    hide *;
    BodyStep(s, i, end);
    AgreeAt(s, t, end, i);
    if s[i] == BACKSLASH {
      AgreeAt(s, t, end, i + 1);
      if s[i + 1] == LOWER_U {
        Utf16IgnoresTail(s, t, i + 1, end);
      }
    }
    PieceAgrees(s, t, i);
  }

  lemma PieceAgrees(s: bytes, t: bytes, i: nat)
    requires At(s, i) != 0 && At(s, i) == At(t, i)
    requires At(s, i) == BACKSLASH ==> At(s, i + 1) == At(t, i + 1)
    requires At(s, i) == BACKSLASH && At(s, i + 1) == LOWER_U ==> ParseUtf16(s, i + 1) == ParseUtf16(t, i + 1)
    ensures NextPiece(s, i) == NextPiece(t, i)
  {
    hide ParseUtf16, SimpleEscape, Encode;
  }

  /** One step of the search for the closing quote at `end`. */
  lemma BodyStep(s: bytes, i: nat, end: nat)
    requires i < end && SkipBody(s, i) == Some(end + 1)
    ensures end < |s| && s[end] == QUOTE && s[i] != 0 && s[i] != QUOTE
    ensures s[i] == BACKSLASH ==> i + 2 <= end && SkipBody(s, i + 2) == Some(end + 1)
    ensures s[i] != BACKSLASH ==> SkipBody(s, i + 1) == Some(end + 1)
  {
  }

  lemma Utf16IgnoresTail(s: bytes, t: bytes, i: nat, end: nat)
    requires i < end && AgreeThrough(s, t, end)
    requires SkipBody(s, i + 1) == Some(end + 1)
    ensures ParseUtf16(s, i) == ParseUtf16(t, i)
  {
    hide *;
    HexIgnoresTail(s, t, i + 1, end);
    if ParseUtf16Hex(s, i + 1).Some? {
      HexIsPlain(s, i + 1);
      AgreeAt(s, t, end, i + 5);
      if s[i + 5] == BACKSLASH {
        NotTheQuote(s, i + 5, end);
        BodyStep(s, i + 5, end);
        AgreeAt(s, t, end, i + 6);
        HexIgnoresTail(s, t, i + 7, end);
      }
    }
    Utf16Agrees(s, t, i);
  }

  lemma NotTheQuote(s: bytes, i: nat, end: nat)
    requires i < |s| && end < |s| && s[i] == BACKSLASH && s[end] == QUOTE
    ensures i != end
  {
  }

  lemma Utf16Agrees(s: bytes, t: bytes, i: nat)
    requires ParseUtf16Hex(s, i + 1) == ParseUtf16Hex(t, i + 1)
    requires ParseUtf16Hex(s, i + 1).Some? ==> At(s, i + 5) == At(t, i + 5)
    requires ParseUtf16Hex(s, i + 1).Some? && At(s, i + 5) == BACKSLASH ==>
               At(s, i + 6) == At(t, i + 6) && ParseUtf16Hex(s, i + 7) == ParseUtf16Hex(t, i + 7)
    ensures ParseUtf16(s, i) == ParseUtf16(t, i)
  {
    hide ParseUtf16Hex;
  }

  lemma HexIgnoresTail(s: bytes, t: bytes, i: nat, end: nat)
    requires i <= end && AgreeThrough(s, t, end)
    requires s[end] == QUOTE
    ensures ParseUtf16Hex(s, i) == ParseUtf16Hex(t, i)
  {
    if i + 3 > end {
      assert HexCharToInt(s[end]) == -1;
    }
  }

  lemma {:induction false} UnescapeIsNoLonger(s: bytes, i: nat, end: nat)
    requires SkipBody(s, i) == Some(end + 1) && Unescape(s, i, end).Some?
    ensures |Unescape(s, i, end).value| <= end - i
    decreases |s| - i
  {
    if i < end {
      PieceStaysInside(s, i);
      UnescapeIsNoLonger(s, NextPiece(s, i).value.next, end);
    }
  }

  // ---------- UTF-8 in, UTF-8 out ----------

  /** If the bytes between the quotes are valid UTF-8, so is what unescaping makes of them. */
  lemma {:induction false} UnescapePreservesUtf8(s: bytes, i: nat, end: nat)
    requires SkipBody(s, i) == Some(end + 1) && Unescape(s, i, end).Some?
    requires ValidRange(s, i, end)
    ensures WellEncoded(Unescape(s, i, end).value)
    decreases |s| - i
  {
    var out := Unescape(s, i, end).value;
    if i == end {
      assert out == EncodeAll([]);
    } else {
      hide VerifySequence, Encode, ParseUtf16;
      if s[i] < 0x80 {
        PieceStaysInside(s, i);
        AsciiPieceIsEncoded(s, i, end);
        var p := NextPiece(s, i).value;
        UnescapePreservesUtf8(s, p.next, end);
        EncodedConcat(p.out, Unescape(s, p.next, end).value);
      } else {
        var next := i + VerifySequence(s, i);
        AcceptedIsWellEncoded(s, i);
        MultibyteIsHigh(s, i);
        HighBytesAreCopied(s, i, next, end);
        UnescapePreservesUtf8(s, next, end);
        EncodedConcat(s[i..next], Unescape(s, next, end).value);
      }
    }
  }

  lemma {:induction false} HighBytesAreCopied(s: bytes, i: nat, next: nat, end: nat)
    requires i <= next <= end <= |s| && forall k | i <= k < next :: s[k] >= 0x80
    requires SkipBody(s, i) == Some(end + 1) && Unescape(s, i, end).Some?
    ensures SkipBody(s, next) == Some(end + 1) && Unescape(s, next, end).Some?
    ensures Unescape(s, i, end).value == s[i..next] + Unescape(s, next, end).value
    decreases next - i
  {
    hide *;
    if i == next {
      assert s[i..next] == [];
      assert s[i..next] + Unescape(s, next, end).value == Unescape(s, next, end).value;
    } else {
      HighByteStep(s, i, end);
      HighBytesAreCopied(s, i + 1, next, end);
      SliceHead(s, i, next);
      ConcatAssoc([s[i]], s[i + 1..next], Unescape(s, next, end).value);
    }
  }

  lemma HighByteStep(s: bytes, i: nat, end: nat)
    requires i < end <= |s| && s[i] >= 0x80
    requires SkipBody(s, i) == Some(end + 1) && Unescape(s, i, end).Some?
    ensures SkipBody(s, i + 1) == Some(end + 1) && Unescape(s, i + 1, end).Some?
    ensures Unescape(s, i, end).value == [s[i]] + Unescape(s, i + 1, end).value
  {
    assert NextPiece(s, i) == Some(Piece([s[i]], i + 1));
  }

  /** A plain ASCII byte or any escape yields one encoded scalar and leaves a sequence boundary. */
  lemma AsciiPieceIsEncoded(s: bytes, i: nat, end: nat)
    requires i < end <= |s| && 0 < s[i] < 0x80 && NextPiece(s, i).Some? && NextPiece(s, i).value.next <= end
    requires ValidRange(s, i, end)
    ensures WellEncoded(NextPiece(s, i).value.out)
    ensures ValidRange(s, NextPiece(s, i).value.next, end)
  {
    hide VerifySequence, ValidRange, ParseUtf16, Encode, WellEncoded;
    AsciiStep(s, i, end);
    if s[i] == BACKSLASH {
      AsciiStep(s, i + 1, end);
      if s[i + 1] == LOWER_U {
        UnicodePieceIsEncoded(s, i, end);
      } else {
        EncodedAscii(SimpleEscape(s[i + 1]).value);
      }
    } else {
      EncodedAscii(s[i]);
    }
  }

  lemma EncodedAscii(b: byte)
    requires b < 0x80
    ensures WellEncoded([b])
  {
    OneEncoded(b);
  }

  lemma UnicodePieceIsEncoded(s: bytes, i: nat, end: nat)
    requires i + 2 <= end <= |s| && ParseUtf16(s, i + 1).Some? && ParseUtf16(s, i + 1).value.next <= end
    requires ValidRange(s, i + 2, end)
    ensures WellEncoded(Encode(ParseUtf16(s, i + 1).value.cp))
    ensures ValidRange(s, ParseUtf16(s, i + 1).value.next, end)
  {
    hide VerifySequence, ValidRange, ParseUtf16Hex, Encode, WellEncoded;
    HexSteps(s, i + 2, end);
    var e := ParseUtf16(s, i + 1).value;
    OneEncoded(e.cp);
    if e.next == i + 12 {
      AsciiStep(s, i + 6, end);
      AsciiStep(s, i + 7, end);
      HexSteps(s, i + 8, end);
    }
  }

  lemma AsciiStep(s: bytes, i: nat, end: nat)
    requires i < end <= |s| && s[i] < 0x80
    ensures ValidRange(s, i, end) ==> ValidRange(s, i + 1, end)
  {
    LeadBytes(s[i]);
  }

  lemma HexSteps(s: bytes, i: nat, end: nat)
    requires i + 4 <= end <= |s| && ParseUtf16Hex(s, i).Some?
    ensures ValidRange(s, i, end) ==> ValidRange(s, i + 4, end)
  {
    hide VerifySequence;
    AsciiStep(s, i, end);
    AsciiStep(s, i + 1, end);
    AsciiStep(s, i + 2, end);
    AsciiStep(s, i + 3, end);
  }

  // ---------- The loops ----------

  /** The masks and shifts of the C code produce the standard's bytes. */
  lemma EncodeByMasks(cp: nat)
    requires IsScalar(cp)
    ensures Encode(cp) ==
            if cp < 0x80 then [cp]
            else if cp < 0x800 then [cp / 64 % 32 + 0xC0, cp % 64 + 0x80]
            else if cp < 0x10000 then [cp / 4096 % 16 + 0xE0, cp / 64 % 64 + 0x80, cp % 64 + 0x80]
            else [cp / 262144 % 8 + 0xF0, cp / 4096 % 64 + 0x80, cp / 64 % 64 + 0x80, cp % 64 + 0x80]
  {
    assert cp < 0x800 ==> cp / 64 % 32 == cp / 64;
    assert cp < 0x10000 ==> cp / 4096 % 16 == cp / 4096;
    assert cp / 262144 % 8 == cp / 262144;
  }

  /** Writes the UTF-8 bytes of `cp` from `o` on; like the C code, the result points at the last
      byte written. */
  method EmitUtf8(cp: nat, output: array<byte>, o: nat) returns (last: nat)
    requires IsScalar(cp) && o + |Encode(cp)| <= output.Length
    modifies output
    ensures last == o + |Encode(cp)| - 1
    ensures output[..last + 1] == old(output[..o]) + Encode(cp)
  {
    last := o;
    EncodeByMasks(cp);
    hide Encode;
    if cp < 0x80 {
      output[o] := cp;
    } else if cp < 0x800 {
      output[o] := cp / 64 % 32 + 0xC0;
      output[o + 1] := cp % 64 + 0x80;
      last := last + 1;
    } else if cp < 0x10000 {
      output[o] := cp / 4096 % 16 + 0xE0;
      output[o + 1] := cp / 64 % 64 + 0x80;
      output[o + 2] := cp % 64 + 0x80;
      last := last + 2;
    } else {
      output[o] := cp / 262144 % 8 + 0xF0;
      output[o + 1] := cp / 4096 % 64 + 0x80;
      output[o + 2] := cp / 64 % 64 + 0x80;
      output[o + 3] := cp % 64 + 0x80;
      last := last + 3;
    }
    assert output[o..last + 1] == Encode(cp);
    assert output[..last + 1] == output[..o] + output[o..last + 1];
  }

  /** Decodes the escape whose u stands at `i` into `output` from `o` on; like the C code, both
      results point at the last byte read and the last byte written. */
  method DecodeUtf16(s: bytes, i: nat, output: array<byte>, o: nat) returns (ok: bool, last: nat, written: nat)
    requires ParseUtf16(s, i).Some? ==> o + |Encode(ParseUtf16(s, i).value.cp)| <= output.Length
    modifies output
    ensures ok == ParseUtf16(s, i).Some?
    ensures ok ==> var e := ParseUtf16(s, i).value;
                   last == e.next - 1 && written == o + |Encode(e.cp)| - 1 &&
                   output[..written + 1] == old(output[..o]) + Encode(e.cp)
    ensures !ok ==> output[..] == old(output[..])
  {
    hide Encode, ParseUtf16Hex;
    last, written := i + 1, o;
    var first := ParseUtf16Hex(s, last);
    if first.None? {
      return false, last, written;
    }
    var cp := first.value;
    if 0xD800 <= cp <= 0xDBFF {
      var lead := cp;
      last := last + 4;
      if At(s, last) != BACKSLASH || At(s, last + 1) != LOWER_U {
        return false, last, written;
      }
      last := last + 2;
      var second := ParseUtf16Hex(s, last);
      if second.None? || second.value < 0xDC00 || second.value > 0xDFFF {
        return false, last, written;
      }
      var trail := second.value;
      cp := (lead - 0xD800) % 0x400 * 0x400 + (trail - 0xDC00) % 0x400 + 0x10000;
    } else if 0xDC00 <= cp <= 0xDFFF {
      return false, last, written;
    }
    written := EmitUtf8(cp, output, o);
    last := last + 3;
    return true, last, written;
  }

  /** Unescapes the `len` bytes from `start` on, which skip_quotes has found to be the inside of a
      quoted string, into a buffer of `len + 1` bytes. */
  method ProcessString(s: bytes, start: nat, len: nat) returns (r: Option<bytes>)
    requires SkipBody(s, start) == Some(start + len + 1)
    ensures r == Unescape(s, start, start + len)
    ensures r.Some? ==> |r.value| <= len
    ensures r.Some? && WellEncoded(s[start..start + len]) ==> WellEncoded(r.value)
  {
    hide Encode, ParseUtf16, SimpleEscape, WellEncoded;
    var end := start + len;
    var output := new byte[len + 1];
    var i, o := start, 0;
    assert output[..0] == [];
    PrependNothing(Unescape(s, start, end));
    while At(s, i) != 0 && i < end
      invariant start <= i <= end && o <= i - start
      invariant SkipBody(s, i) == Some(end + 1)
      invariant Unescape(s, start, end) == Prepend(output[..o], Unescape(s, i, end))
      decreases end - i
    {
      ghost var p := NextPiece(s, i);
      ghost var done, from := output[..o], i;
      if p.Some? {
        PieceStaysInside(s, i);
      }
      if s[i] == BACKSLASH {
        i := i + 1;
        if At(s, i) == LOWER_U {
          var ok, last, written := DecodeUtf16(s, i, output, o);
          if !ok {
            return None;
          }
          i, o := last, written;
        } else {
          var e := SimpleEscape(At(s, i));
          if e.None? {
            return None;
          }
          output[o] := e.value;
        }
      } else if s[i] < 0x20 {
        return None;
      } else {
        output[o] := s[i];
      }
      o, i := o + 1, i + 1;
      assert output[..o] == done + p.value.out;
      PrependPiece(s, from, end, done);
    }
    assert Unescape(s, i, end) == Some([]);
    assert output[..o] + [] == output[..o];
    output[o] := 0;
    r := Some(output[..o]);
    Utf8Conclusion(s, start, end);
  }

  ghost function Prepend(a: bytes, r: Option<bytes>): Option<bytes> {
    match r
    case None => None
    case Some(b) => Some(a + b)
  }

  lemma PrependNothing(r: Option<bytes>)
    ensures Prepend([], r) == r
  {
    if r.Some? {
      assert [] + r.value == r.value;
    }
  }

  lemma PrependPiece(s: bytes, i: nat, end: nat, done: bytes)
    requires At(s, i) != 0 && i < end && NextPiece(s, i).Some?
    ensures var p := NextPiece(s, i).value;
            Prepend(done, Unescape(s, i, end)) == Prepend(done + p.out, Unescape(s, p.next, end))
  {
    var p := NextPiece(s, i).value;
    if Unescape(s, p.next, end).Some? {
      assert done + (p.out + Unescape(s, p.next, end).value) == done + p.out + Unescape(s, p.next, end).value;
    }
  }

  /** Unescaping the inside of a quoted string keeps UTF-8 validity and does not lengthen it. */
  lemma Utf8Conclusion(s: bytes, start: nat, end: nat)
    requires SkipBody(s, start) == Some(end + 1)
    ensures var r := Unescape(s, start, end);
            r.Some? ==> |r.value| <= end - start && (WellEncoded(s[start..end]) ==> WellEncoded(r.value))
  {
    if Unescape(s, start, end).Some? {
      UnescapeIsNoLonger(s, start, end);
      if WellEncoded(s[start..end]) {
        ValidRangeIffWellEncoded(s, start, end);
        UnescapePreservesUtf8(s, start, end);
      }
    }
  }

  // ---------- json_serialize_string ----------

  function HexDigit(d: nat): byte
    requires d < 16
  {
    if d < 10 then 0x30 + d else 0x61 + d - 10
  }

  function Escape(c: byte): bytes {
    if c == QUOTE || c == BACKSLASH || c == SLASH then [BACKSLASH, c]
    else if c == 0x08 then [BACKSLASH, 0x62]
    else if c == 0x0C then [BACKSLASH, 0x66]
    else if c == 0x0A then [BACKSLASH, 0x6E]
    else if c == 0x0D then [BACKSLASH, 0x72]
    else if c == 0x09 then [BACKSLASH, 0x74]
    else if c < 0x20 then [BACKSLASH, LOWER_U, ZERO, ZERO, HexDigit(c / 16), HexDigit(c % 16)]
    else [c]
  }

  function EscapeAll(str: bytes): bytes {
    if str == [] then [] else Escape(str[0]) + EscapeAll(str[1..])
  }

  function Quoted(str: bytes): bytes {
    [QUOTE] + EscapeAll(str) + [QUOTE]
  }

  lemma EscapeAllUnfolds(str: bytes)
    ensures EscapeAll(str) == if str == [] then [] else Escape(str[0]) + EscapeAll(str[1..])
  {
  }

  /** The string between the quotes at `i`, as the C string its users see, and the end position. */
  datatype Scanned = Scanned(str: bytes, next: nat)

  function GetQuotedString(s: bytes, i: nat): (r: Option<Scanned>)
    ensures r.Some? ==> i + 2 <= r.value.next <= |s| && NulFree(r.value.str)
  {
    match SkipQuotes(s, i)
    case None => None
    case Some(j) =>
      match Unescape(s, i + 1, j - 1)
      case None => None
      case Some(str) => Some(Scanned(CString(str), j))
  }

  // ---------- Strings that are stored shortened ----------

  const NUL_ESCAPE: bytes := [BACKSLASH, LOWER_U, ZERO, ZERO, ZERO, ZERO]

  /** Read piece by piece, the escape \u0000 stands between `i` and `end`. */
  predicate EscapedNul(s: bytes, i: nat, end: nat)
    decreases |s| - i
  {
    && At(s, i) != 0 && i < end && NextPiece(s, i).Some?
    && (Occurs(s, i, NUL_ESCAPE) || EscapedNul(s, NextPiece(s, i).value.next, end))
  }

  lemma PieceIsNulIff(s: bytes, i: nat)
    requires At(s, i) != 0 && NextPiece(s, i).Some?
    ensures 0 in NextPiece(s, i).value.out <==> Occurs(s, i, NUL_ESCAPE)
  {
    if Occurs(s, i, NUL_ESCAPE) {
      OccursAt(s, i, NUL_ESCAPE, 0);
      OccursAt(s, i, NUL_ESCAPE, 1);
      OccursAt(s, i, NUL_ESCAPE, 2);
      OccursAt(s, i, NUL_ESCAPE, 3);
      OccursAt(s, i, NUL_ESCAPE, 4);
      OccursAt(s, i, NUL_ESCAPE, 5);
      assert NextPiece(s, i).value.out == [0];
    }
    if 0 in NextPiece(s, i).value.out {
      assert s[i] == BACKSLASH && At(s, i + 1) == LOWER_U;
      var e := ParseUtf16(s, i + 1).value;
      assert e.cp == 0;
      assert ParseUtf16Hex(s, i + 2) == Some(0);
      assert s[i..i + 6] == NUL_ESCAPE;
    }
  }

  lemma {:induction false} UnescapeNulIff(s: bytes, i: nat, end: nat)
    requires Unescape(s, i, end).Some?
    ensures 0 in Unescape(s, i, end).value <==> EscapedNul(s, i, end)
    decreases |s| - i
  {
    hide NextPiece, Occurs;
    if At(s, i) != 0 && i < end {
      PieceIsNulIff(s, i);
      UnescapeNulIff(s, NextPiece(s, i).value.next, end);
    }
  }

  /** The string that is stored is the whole decoded string if and only if there is no \u0000 in it. */
  lemma StoredWholeIff(s: bytes, i: nat)
    requires GetQuotedString(s, i).Some?
    ensures var q := GetQuotedString(s, i).value;
            Unescape(s, i + 1, q.next - 1) == Some(q.str) <==> !EscapedNul(s, i + 1, q.next - 1)
  {
    hide Unescape, EscapedNul, SkipBody;
    var q := GetQuotedString(s, i).value;
    var str := Unescape(s, i + 1, q.next - 1).value;
    UnescapeNulIff(s, i + 1, q.next - 1);
    if NulFree(str) {
      CStringOfNulFree(str);
    }
  }

  /** The text "a\u0000b" is stored as a. */
  lemma NulCutsTheString()
    ensures GetQuotedString([QUOTE, 0x61] + NUL_ESCAPE + [0x62, QUOTE], 0) == Some(Scanned([0x61], 10))
  {
    var s := [QUOTE, 0x61] + NUL_ESCAPE + [0x62, QUOTE];
    assert SkipBody(s, 9) == Some(10) && SkipBody(s, 8) == Some(10) && SkipBody(s, 7) == Some(10);
    assert SkipBody(s, 6) == Some(10) && SkipBody(s, 5) == Some(10) && SkipBody(s, 4) == Some(10);
    assert SkipBody(s, 2) == Some(10) && SkipBody(s, 1) == Some(10);
    assert Unescape(s, 9, 9) == Some([]);
    assert NextPiece(s, 8) == Some(Piece([0x62], 9)) && [0x62] + [] == [0x62];
    assert Unescape(s, 8, 9) == Some([0x62]);
    assert ParseUtf16(s, 3) == Some(Escaped(0, 8)) && NextPiece(s, 2) == Some(Piece([0], 8));
    assert Unescape(s, 2, 9) == Some([0] + [0x62]);
    assert NextPiece(s, 1) == Some(Piece([0x61], 2));
    assert Unescape(s, 1, 9) == Some([0x61] + ([0] + [0x62]));
    CutAtNul();
  }

  lemma CutAtNul()
    ensures CString([0x61] + ([0] + [0x62])) == [0x61]
  {
    var t := [0x61] + ([0] + [0x62]);
    assert t[0] == 0x61 && t[1..] == [0] + [0x62] && CString(t[1..]) == [];
  }

  /** Whatever is scanned from a valid UTF-8 body is valid UTF-8, cut at its first NUL or not. */
  lemma CStringKeepsUtf8(out: bytes)
    requires WellEncoded(out)
    ensures WellEncoded(CString(out))
  {
    var n := |CString(out)|;
    assert out[0..|out|] == out;
    ValidRangeIffWellEncoded(out, 0, |out|);
    NulIsABoundary(out, 0, n);
    ValidRangeIffWellEncoded(out, 0, n);
    assert out[0..n] == CString(out);
  }

  lemma {:induction false} NulIsABoundary(s: bytes, i: nat, n: nat)
    requires i <= n <= |s| && (n < |s| ==> s[n] == 0)
    requires ValidRange(s, i, |s|)
    ensures ValidRange(s, i, n)
    decreases |s| - i
  {
    if i < n {
      hide VerifySequence;
      NulIsABoundary(s, i + VerifySequence(s, i), n);
    }
  }

}
