/** The Squirrel JSON library's string encoder, and its in-place decoder that deletes bytes by
    overwriting them with a marker. */
module SquirrelString {
  import opened Bytes
  import opened Utf8
  import opened GrowBuffer

  const MARKER: byte := 255

  // ---------- Encoding ----------

  /** The escape written for a 7-bit byte. */
  function AsciiEscape(c: byte): bytes {
    if c == QUOTE || c == BACKSLASH || c == SLASH then [BACKSLASH, c]
    else if c == 0x08 then [BACKSLASH, 0x62]
    else if c == 0x0C then [BACKSLASH, 0x66]
    else if c == 0x0A then [BACKSLASH, 0x6E]
    else if c == 0x0D then [BACKSLASH, 0x72]
    else if c == 0x09 then [BACKSLASH, 0x74]
    else if c == 0 then [BACKSLASH, LOWER_U, ZERO, ZERO, ZERO, ZERO]
    else [c]
  }

  /** Length of the group a byte of at least 0x80 starts; 0 for bytes that are silently dropped. */
  function GroupLength(c: byte): nat {
    if c / 32 == 6 then 2
    else if c / 16 == 14 then 3
    else if c / 8 == 30 then 4
    else 0
  }

  /** The body written for the data from `i` on; None when a group is cut off by the end. */
  function EncodedFrom(data: bytes, i: nat): Option<bytes>
    decreases |data| - i
  {
    if i >= |data| then Some([])
    else if data[i] < 0x80 then Prefixed(AsciiEscape(data[i]), EncodedFrom(data, i + 1))
    else
      var n := GroupLength(data[i]);
      if n == 0 then EncodedFrom(data, i + 1)
      else if i + n > |data| then None
      else Prefixed(data[i..i + n], EncodedFrom(data, i + n))
  }

  function Prefixed(a: bytes, r: Option<bytes>): Option<bytes> {
    match r
    case None => None
    case Some(b) => Some(a + b)
  }

  /** Byte by byte: escapes for 7-bit bytes, everything else as it is. */
  function ByteEscape(c: byte): bytes {
    if c < 0x80 then AsciiEscape(c) else [c]
  }

  function BytewiseEscape(data: bytes): bytes {
    if data == [] then [] else ByteEscape(data[0]) + BytewiseEscape(data[1..])
  }

  lemma {:induction false} BytewiseConcat(a: bytes, b: bytes)
    ensures BytewiseEscape(a + b) == BytewiseEscape(a) + BytewiseEscape(b)
    decreases |a|
  {
    hide ByteEscape;
    if a == [] {
      assert a + b == b;
    } else {
      assert (a + b)[1..] == a[1..] + b;
      BytewiseConcat(a[1..], b);
    }
  }

  lemma {:induction false} HighBytesAsTheyAre(a: bytes)
    requires forall k | 0 <= k < |a| :: a[k] >= 0x80
    ensures BytewiseEscape(a) == a
    decreases |a|
  {
    if a != [] {
      HighBytesAsTheyAre(a[1..]);
    }
  }

  /** On valid UTF-8 no group is cut off and no byte is dropped. */
  lemma {:induction false} ValidIsEncodedBytewise(data: bytes, i: nat)
    requires i <= |data| && ValidRange(data, i, |data|)
    ensures EncodedFrom(data, i) == Some(BytewiseEscape(data[i..]))
    decreases |data| - i
  {
    hide VerifySequence, EncodedFrom, BytewiseEscape;
    if i < |data| {
      ValidStep(data, i);
      var next := i + VerifySequence(data, i);
      ValidIsEncodedBytewise(data, next);
      assert data[i..] == data[i..next] + data[next..];
      BytewiseConcat(data[i..next], data[next..]);
    } else {
      assert data[i..] == [];
      NothingToEncode(data, i);
    }
  }

  lemma NothingToEncode(data: bytes, i: nat)
    requires i >= |data|
    ensures EncodedFrom(data, i) == Some([]) && BytewiseEscape([]) == []
  {
  }

  /** One valid sequence is one group, written as it is, or one 7-bit byte. */
  lemma ValidStep(data: bytes, i: nat)
    requires i < |data| && ValidRange(data, i, |data|)
    ensures var n := VerifySequence(data, i);
            && 0 < n && i + n <= |data| && ValidRange(data, i + n, |data|)
            && EncodedFrom(data, i) == Prefixed(BytewiseEscape(data[i..i + n]), EncodedFrom(data, i + n))
  {
    hide AsciiEscape, EncodedFrom, BytewiseEscape, GroupLength, Assemble, Encode;
    AcceptedIsWellEncoded(data, i);
    var n := VerifySequence(data, i);
    EncodedUnfolds(data, i);
    if data[i] < 0x80 {
      LeadBytes(data[i]);
      assert data[i..i + 1] == [data[i]];
      OneByteEscaped(data[i]);
    } else {
      GroupOfLead(data, i);
      MultibyteIsHigh(data, i);
      HighRangeAsItIs(data, i, i + n);
    }
  }

  lemma EncodedUnfolds(data: bytes, i: nat)
    requires i < |data|
    ensures data[i] < 0x80 ==> EncodedFrom(data, i) == Prefixed(AsciiEscape(data[i]), EncodedFrom(data, i + 1))
    ensures data[i] >= 0x80 && GroupLength(data[i]) > 0 && i + GroupLength(data[i]) <= |data| ==>
              var n := GroupLength(data[i]);
              EncodedFrom(data, i) == Prefixed(data[i..i + n], EncodedFrom(data, i + n))
  {
    hide AsciiEscape, GroupLength;
  }

  lemma OneByteEscaped(c: byte)
    ensures BytewiseEscape([c]) == ByteEscape(c)
  {
    hide ByteEscape;
    assert [c][1..] == [];
    assert ByteEscape(c) + [] == ByteEscape(c);
  }

  lemma GroupOfLead(s: bytes, i: nat)
    requires i < |s| && s[i] >= 0x80 && VerifySequence(s, i) > 0
    ensures GroupLength(s[i]) == VerifySequence(s, i)
  {
    hide Assemble;
    LeadBytes(s[i]);
  }

  lemma HighRangeAsItIs(s: bytes, i: nat, j: nat)
    requires i <= j <= |s| && forall k | i <= k < j :: s[k] >= 0x80
    ensures BytewiseEscape(s[i..j]) == s[i..j]
  {
    hide BytewiseEscape;
    HighBytesAsTheyAre(s[i..j]);
  }

  method EscapeAndEncode(data: bytes, buffer: Buffer) returns (ok: bool)
    requires buffer.Valid()
    modifies buffer, buffer.storage
    ensures buffer.Valid()
    ensures buffer.storage == old(buffer.storage) || fresh(buffer.storage)
    ensures ok == EncodedFrom(data, 0).Some?
    ensures ok ==> buffer.Contents() == old(buffer.Contents()) + [QUOTE] + EncodedFrom(data, 0).value + [QUOTE]
    ensures !ok ==> old(buffer.Contents()) <= buffer.Contents()
  {
    hide EncodedFrom, AsciiEscape;
    ghost var before := buffer.Contents();
    buffer.GrowStorage(buffer.size + 2 + |data|);
    buffer.Put(QUOTE);
    ghost var out: bytes := [];
    assert before + [QUOTE] + out == before + [QUOTE];
    EncodedStart(data);
    var i := 0;
    while i < |data|
      invariant i <= |data| && buffer.Valid()
      invariant buffer.storage == old(buffer.storage) || fresh(buffer.storage)
      invariant buffer.Contents() == before + [QUOTE] + out
      invariant EncodedFrom(data, 0) == Prefixed(out, EncodedFrom(data, i))
      decreases |data| - i
    {
      EncodedStep(data, i, out);
      ghost var sofar := buffer.Contents();
      var c := data[i];
      if c < 0x80 {
        EncodeAscii(c, buffer);
        ConcatAssoc(before + [QUOTE], out, AsciiEscape(c));
        out := out + AsciiEscape(c);
        i := i + 1;
      } else {
        var n := GroupLength(c);
        if n > 0 && i + n > |data| {
          assert before <= buffer.Contents();
          return false;
        }
        if n > 0 {
          buffer.GrowStorage(buffer.size + n);
          buffer.PutAll(data[i..i + n]);
          ConcatAssoc(before + [QUOTE], out, data[i..i + n]);
          out := out + data[i..i + n];
          i := i + n;
        } else {
          i := i + 1;
        }
      }
    }
    EncodedEnd(data, i);
    buffer.GrowStorage(buffer.size + 1);
    buffer.Put(QUOTE);
    assert out + [] == out;
    return true;
  }

  lemma EncodedStart(data: bytes)
    ensures EncodedFrom(data, 0) == Prefixed([], EncodedFrom(data, 0))
  {
    if EncodedFrom(data, 0).Some? {
      assert [] + EncodedFrom(data, 0).value == EncodedFrom(data, 0).value;
    }
  }

  lemma EncodedEnd(data: bytes, i: nat)
    requires i >= |data|
    ensures EncodedFrom(data, i) == Some([])
  {
  }

  lemma EncodedStep(data: bytes, i: nat, out: bytes)
    requires i < |data|
    ensures data[i] < 0x80 ==>
              Prefixed(out, EncodedFrom(data, i)) == Prefixed(out + AsciiEscape(data[i]), EncodedFrom(data, i + 1))
    ensures data[i] >= 0x80 ==>
              var n := GroupLength(data[i]);
              && (n == 0 ==> EncodedFrom(data, i) == EncodedFrom(data, i + 1))
              && (n > 0 && i + n > |data| ==> EncodedFrom(data, i) == None)
              && (n > 0 && i + n <= |data| ==>
                    Prefixed(out, EncodedFrom(data, i)) == Prefixed(out + data[i..i + n], EncodedFrom(data, i + n)))
  {
    hide AsciiEscape, GroupLength;
    if data[i] < 0x80 {
      PrefixedTwice(out, AsciiEscape(data[i]), EncodedFrom(data, i + 1));
    } else {
      var n := GroupLength(data[i]);
      if n > 0 && i + n <= |data| {
        PrefixedTwice(out, data[i..i + n], EncodedFrom(data, i + n));
      }
    }
  }

  lemma PrefixedTwice(a: bytes, b: bytes, r: Option<bytes>)
    ensures Prefixed(a, Prefixed(b, r)) == Prefixed(a + b, r)
  {
    if r.Some? {
      ConcatAssoc(a, b, r.value);
    }
  }

  /** The two switches over a 7-bit byte, with their separate growths. */
  method EncodeAscii(c: byte, buffer: Buffer)
    requires buffer.Valid() && c < 0x80
    modifies buffer, buffer.storage
    ensures buffer.Valid() && (buffer.storage == old(buffer.storage) || fresh(buffer.storage))
    ensures buffer.Contents() == old(buffer.Contents()) + AsciiEscape(c)
  {
    ghost var before := buffer.Contents();
    if c in {QUOTE, BACKSLASH, SLASH, 0x08, 0x0C, 0x0A, 0x0D, 0x09, 0} {
      buffer.GrowStorage(buffer.size + 2);
      buffer.Put(BACKSLASH);
    } else {
      buffer.GrowStorage(buffer.size + 1);
      buffer.Put(c);
      return;
    }
    if c == 0 {
      buffer.GrowStorage(buffer.size + 5);
      buffer.PutAll([LOWER_U, ZERO, ZERO, ZERO, ZERO]);
      ConcatAssoc(before, [BACKSLASH], [LOWER_U, ZERO, ZERO, ZERO, ZERO]);
    } else {
      var e := AsciiEscape(c)[1];
      buffer.Put(e);
      ConcatAssoc(before, [BACKSLASH], [e]);
    }
  }

  // ---------- Decoding ----------

  function HexDigitsValue(s: bytes, acc: nat): nat {
    if s == [] || HexCharToInt(s[0]) == -1 then acc
    else HexDigitsValue(s[1..], acc * 16 + HexCharToInt(s[0]))
  }

  function AfterSpaces(s: bytes): bytes {
    if s != [] && IsSpace(s[0]) then AfterSpaces(s[1..]) else s
  }

  /** strtol in base 16: white space, a sign, the prefix 0x, then digits up to the first other byte. */
  function StrtolHex(s: bytes): int {
    var t := AfterSpaces(s);
    var signed := t != [] && (t[0] == MINUS || t[0] == PLUS);
    var d := if signed then t[1..] else t;
    var prefixed := |d| >= 2 && d[0] == ZERO && (d[1] == LOWER_X || d[1] == UPPER_X);
    var n: int := HexDigitsValue(if prefixed then d[2..] else d, 0);
    if signed && t[0] == MINUS then -n else n
  }

  /** Converted to an unsigned number, a negative one is far beyond one byte. */
  predicate OneByte(code: int) {
    0 <= code < 256
  }

  datatype Marked = Marked(text: bytes, finalLen: int)

  /** The first pass from position `i` on: escapes become markers and the byte they stand for. */
  function Mark(s: bytes, i: nat, finalLen: int): (r: Option<Marked>)
    ensures r.Some? ==> |r.value.text| == |s|
    decreases |s| - i
  {
    if i + 1 >= |s| then Some(Marked(s, finalLen))
    else if s[i] != BACKSLASH then Mark(s, i + 1, finalLen)
    else if s[i + 1] == LOWER_U then
      if |s| - i < 6 then None
      else
        var code := StrtolHex(s[i + 2..i + 6]);
        if !OneByte(code) then None
        else Mark(UnicodeMarked(s, i, code), i + 1, finalLen - 5)
    else
      match SimpleEscape(s[i + 1])
      case None => None
      case Some(b) => Mark(s[i := MARKER][i + 1 := b], i + 2, finalLen - 1)
  }

  function UnicodeMarked(s: bytes, i: nat, code: byte): bytes
    requires i + 6 <= |s|
  {
    s[..i] + [MARKER, code, MARKER, MARKER, MARKER, MARKER] + s[i + 6..]
  }

  /** The second pass keeps what is not a marker. */
  function Compact(s: bytes): (r: bytes)
    ensures |r| <= |s|
  {
    if s == [] then [] else (if s[0] == MARKER then [] else [s[0]]) + Compact(s[1..])
  }

  /** After a \u escape the loop counter stands on the decoded byte: a decoded backslash is taken for
      the start of another escape and refused, anything else is passed over with its markers. */
  lemma UnicodeResumes(s: bytes, i: nat, code: byte, n: int)
    requires i + 6 <= |s|
    ensures Mark(UnicodeMarked(s, i, code), i + 1, n) ==
            if code == BACKSLASH then None else Mark(UnicodeMarked(s, i, code), i + 6, n)
  {
    var t := UnicodeMarked(s, i, code);
    assert t[i + 1] == code && t[i + 2] == MARKER && t[i + 3] == MARKER && t[i + 4] == MARKER && t[i + 5] == MARKER;
    if code == BACKSLASH {
      assert Mark(t, i + 1, n) == None;
    } else {
      hide Mark;
      MarkSkips(t, i + 1, n);
      MarkSkips(t, i + 2, n);
      MarkSkips(t, i + 3, n);
      MarkSkips(t, i + 4, n);
      MarkSkips(t, i + 5, n);
    }
  }

  lemma MarkSkips(s: bytes, i: nat, n: int)
    requires i < |s| && s[i] != BACKSLASH
    ensures Mark(s, i, n) == Mark(s, i + 1, n)
  {
  }

  /** The length handed over is never negative and never more than the token's. */
  lemma {:induction false} MarkBounds(s: bytes, i: nat, n: int)
    requires i <= |s| && Mark(s, i, n).Some?
    ensures n - (|s| - i) <= Mark(s, i, n).value.finalLen <= n
    decreases |s| - i
  {
    if i + 1 < |s| {
      MarkStep(s, i, n);
      hide Mark, SimpleEscape, StrtolHex, UnicodeMarked;
      if s[i] != BACKSLASH {
        MarkBounds(s, i + 1, n);
      } else if s[i + 1] == LOWER_U {
        var code := StrtolHex(s[i + 2..i + 6]);
        UnicodeResumes(s, i, code, n - 5);
        MarkBounds(UnicodeMarked(s, i, code), i + 6, n - 5);
      } else {
        MarkBounds(s[i := MARKER][i + 1 := SimpleEscape(s[i + 1]).value], i + 2, n - 1);
      }
    }
  }

  /** What is handed to the virtual machine: the first `finalLen` bytes of the buffer after both passes. */
  function Decoded(s: bytes): Option<bytes> {
    match Mark(s, 0, |s|)
    case None => None
    case Some(m) =>
      MarkBounds(s, 0, |s|);
      var kept := Compact(m.text);
      Some((kept + m.text[|kept|..])[..m.finalLen])
  }

  // ---------- Round trip ----------

  /** What the first pass makes of an escaped byte. */
  function MarkedByte(c: byte): bytes {
    if c == 0 then [MARKER, 0, MARKER, MARKER, MARKER, MARKER]
    else if |ByteEscape(c)| == 2 then [MARKER, c]
    else [c]
  }

  function MarkedAll(data: bytes): bytes {
    if data == [] then [] else MarkedByte(data[0]) + MarkedAll(data[1..])
  }

  /** One escaped byte is decoded in place, whatever stands before and after it. */
  lemma MarkOne(pre: bytes, c: byte, post: bytes, n: int)
    requires c != MARKER
    ensures Mark(pre + ByteEscape(c) + post, |pre|, n) ==
            Mark(pre + MarkedByte(c) + post, |pre| + |MarkedByte(c)|, n - (|ByteEscape(c)| - 1))
    ensures |MarkedByte(c)| == |ByteEscape(c)|
  {
    var e := ByteEscape(c);
    var s, i := pre + e + post, |pre|;
    assert forall k | 0 <= k < |e| :: s[i + k] == e[k];
    if |e| == 1 {
      MarkSkips(s, i, n);
    } else if |e| == 2 {
      assert s[i + 0] == BACKSLASH && s[i + 1] == e[1];
      assert SimpleEscape(e[1]) == Some(c);
      assert s[i := MARKER][i + 1 := c] == pre + MarkedByte(c) + post;
    } else {
      MarkNul(pre, post, n);
    }
  }

  lemma MarkNul(pre: bytes, post: bytes, n: int)
    ensures Mark(pre + ByteEscape(0) + post, |pre|, n) == Mark(pre + MarkedByte(0) + post, |pre| + 6, n - 5)
  {
    var e, m := ByteEscape(0), MarkedByte(0);
    var s, t, i := pre + e + post, pre + m + post, |pre|;
    assert s[i + 0] == e[0] && s[i + 1] == e[1];
    assert s[i + 2..i + 6] == [ZERO, ZERO, ZERO, ZERO];
    ZerosAreZero();
    assert UnicodeMarked(s, i, 0) == t;
    assert Mark(s, i, n) == Mark(t, i + 1, n - 5);
    hide Mark;
    UnicodeResumes(s, i, 0, n - 5);
  }

  lemma ZerosAreZero()
    ensures StrtolHex([ZERO, ZERO, ZERO, ZERO]) == 0
  {
    assert [ZERO, ZERO, ZERO, ZERO][1..] == [ZERO, ZERO, ZERO];
    assert [ZERO, ZERO, ZERO][1..] == [ZERO, ZERO];
    assert [ZERO, ZERO][1..] == [ZERO];
    assert HexDigitsValue([ZERO], 0) == HexDigitsValue([], 0);
    assert HexDigitsValue([ZERO, ZERO], 0) == HexDigitsValue([ZERO], 0);
    assert HexDigitsValue([ZERO, ZERO, ZERO], 0) == HexDigitsValue([ZERO, ZERO], 0);
  }

  lemma {:induction false} MarkEscaped(pre: bytes, data: bytes, n: int)
    requires MARKER !in data
    ensures Mark(pre + BytewiseEscape(data), |pre|, n) ==
            Some(Marked(pre + MarkedAll(data), n - (|BytewiseEscape(data)| - |data|)))
    decreases |data|
  {
    hide Mark, ByteEscape, MarkedByte;
    if data == [] {
      assert pre + [] == pre;
      MarkEnds(pre, n);
    } else {
      var c, rest := data[0], data[1..];
      var e, m := ByteEscape(c), MarkedByte(c);
      assert c in data && forall b | b in rest :: b in data;
      ConcatAssoc(pre, e, BytewiseEscape(rest));
      MarkOne(pre, c, BytewiseEscape(rest), n);
      MarkEscaped(pre + m, rest, n - (|e| - 1));
      ConcatAssoc(pre, m, MarkedAll(rest));
    }
  }

  lemma MarkEnds(s: bytes, n: int)
    ensures Mark(s, |s|, n) == Some(Marked(s, n))
  {
  }

  lemma CompactUnfolds(s: bytes)
    ensures s != [] ==> Compact(s) == (if s[0] == MARKER then [] else [s[0]]) + Compact(s[1..])
    ensures s == [] ==> Compact(s) == []
  {
  }

  lemma {:induction false} CompactConcat(a: bytes, b: bytes)
    ensures Compact(a + b) == Compact(a) + Compact(b)
    decreases |a|
  {
    hide *;
    CompactUnfolds(a);
    if a == [] {
      assert a + b == b;
    } else {
      assert (a + b)[1..] == a[1..] + b && (a + b)[0] == a[0];
      CompactUnfolds(a + b);
      CompactConcat(a[1..], b);
      ConcatAssoc(if a[0] == MARKER then [] else [a[0]], Compact(a[1..]), Compact(b));
    }
  }

  lemma CompactOne(c: byte)
    requires c != MARKER
    ensures Compact(MarkedByte(c)) == [c]
  {
    var m := MarkedByte(c);
    if |m| == 1 {
      assert m[1..] == [];
    } else if |m| == 2 {
      assert m[1..] == [c] && [c][1..] == [];
    } else {
      var tail := [MARKER, MARKER, MARKER, MARKER];
      assert m == [MARKER, 0] + tail;
      assert tail[1..] == [MARKER, MARKER, MARKER] && tail[1..][1..] == [MARKER, MARKER];
      assert tail[1..][1..][1..] == [MARKER];
      assert Compact([MARKER]) == [];
      assert Compact([MARKER, MARKER]) == Compact([MARKER]);
      assert Compact(tail[1..]) == Compact([MARKER, MARKER]);
      assert Compact(tail) == [];
      assert [MARKER, 0][1..] == [0];
      assert Compact([MARKER, 0]) == [0];
      CompactConcat([MARKER, 0], tail);
    }
  }

  lemma {:induction false} CompactMarked(data: bytes)
    requires MARKER !in data
    ensures Compact(MarkedAll(data)) == data
    decreases |data|
  {
    hide Compact, MarkedByte;
    if data == [] {
      CompactNothing();
    } else {
      assert data[0] in data && forall b | b in data[1..] :: b in data;
      CompactOne(data[0]);
      CompactMarked(data[1..]);
      CompactConcat(MarkedByte(data[0]), MarkedAll(data[1..]));
    }
  }

  lemma CompactNothing()
    ensures Compact([]) == []
  {
  }

  /** Decoding gives back all data without the marker byte. */
  lemma EscapedDecodes(data: bytes)
    requires MARKER !in data
    ensures Decoded(BytewiseEscape(data)) == Some(data)
  {
    hide Mark, Compact, MarkedAll, BytewiseEscape;
    var s := BytewiseEscape(data);
    MarkEscaped([], data, |s|);
    assert [] + s == s && [] + MarkedAll(data) == MarkedAll(data);
    CompactMarked(data);
    assert (data + MarkedAll(data)[|data|..])[..|data|] == data;
  }

  lemma {:induction false} CompactCounts(s: bytes)
    ensures |Compact(s)| == |s| - multiset(s)[MARKER]
    decreases |s|
  {
    if s != [] {
      assert s == [s[0]] + s[1..];
      CompactCounts(s[1..]);
    }
  }

  /** The first pass leaves exactly as many markers as the length is reduced by. */
  lemma MarkersAreTheReduction(data: bytes)
    requires MARKER !in data
    ensures var s := BytewiseEscape(data);
            var m := Mark(s, 0, |s|);
            m.Some? && multiset(m.value.text)[MARKER] == |s| - m.value.finalLen && Compact(m.value.text) == data
  {
    hide Mark, Compact, MarkedAll, BytewiseEscape;
    var s := BytewiseEscape(data);
    MarkEscaped([], data, |s|);
    assert [] + s == s && [] + MarkedAll(data) == MarkedAll(data);
    CompactMarked(data);
    CompactCounts(MarkedAll(data));
  }

  /** Every valid UTF-8 string, embedded NULs included, survives encoding and decoding. */
  lemma ValidUtf8RoundTrips(data: bytes)
    requires WellEncoded(data)
    ensures EncodedFrom(data, 0).Some? && Decoded(EncodedFrom(data, 0).value) == Some(data)
  {
    hide Decoded, EncodedFrom, VerifySequence;
    assert data[0..|data|] == data && data[0..] == data;
    ValidRangeIffWellEncoded(data, 0, |data|);
    ValidIsEncodedBytewise(data, 0);
    NoMarkerInUtf8(data, 0);
    EscapedDecodes(data);
  }

  lemma {:induction false} NoMarkerInUtf8(data: bytes, i: nat)
    requires i <= |data| && ValidRange(data, i, |data|)
    ensures MARKER !in data[i..]
    decreases |data| - i
  {
    if i < |data| {
      var n := VerifySequence(data, i);
      AcceptedIsEncoding(data, i);
      EncodingHasNoMarker(Assemble(data, i, n));
      hide VerifySequence, Encode, Assemble;
      NoMarkerInUtf8(data, i + n);
      assert data[i..] == data[i..i + n] + data[i + n..];
    }
  }

  lemma EncodingHasNoMarker(cp: int)
    requires IsScalar(cp)
    ensures MARKER !in Encode(cp)
  {
  }

  /** So an escaped backslash written as \u005c is refused wherever the scan meets it. */
  lemma EscapedBackslashIsRefused(s: bytes, i: nat, n: int)
    requires i + 6 <= |s| && s[i] == BACKSLASH && s[i + 1] == LOWER_U
    requires StrtolHex(s[i + 2..i + 6]) == BACKSLASH
    ensures Mark(s, i, n) == None
  {
    MarkStep(s, i, n);
    hide Mark;
    UnicodeResumes(s, i, BACKSLASH, n - 5);
  }

  // ---------- Which tokens are decoded, and to what ----------

  /** Read from left to right: every escape is a simple one, or a \u with four characters left whose code
      is one byte and not a backslash. A backslash at the very end is no escape. */
  predicate Accepts(s: bytes, i: nat)
    decreases |s| - i
  {
    if i + 1 >= |s| then true
    else if s[i] != BACKSLASH then Accepts(s, i + 1)
    else if s[i + 1] == LOWER_U then
      && |s| - i >= 6 && OneByte(StrtolHex(s[i + 2..i + 6])) && StrtolHex(s[i + 2..i + 6]) != BACKSLASH
      && Accepts(s, i + 6)
    else SimpleEscape(s[i + 1]).Some? && Accepts(s, i + 2)
  }

  /** One character or escape: the byte it means, what the first pass makes of it, and where it ends. */
  datatype Unit = Unit(meaning: byte, image: bytes, next: nat)

  function UnitAt(s: bytes, i: nat): (u: Unit)
    requires i < |s| && Accepts(s, i)
    ensures i < u.next <= |s| && |u.image| == u.next - i && Accepts(s, u.next)
  {
    if i + 1 == |s| || s[i] != BACKSLASH then Unit(s[i], [s[i]], i + 1)
    else if s[i + 1] == LOWER_U then
      var code := StrtolHex(s[i + 2..i + 6]);
      Unit(code, [MARKER, code, MARKER, MARKER, MARKER, MARKER], i + 6)
    else
      var b := SimpleEscape(s[i + 1]).value;
      Unit(b, [MARKER, b], i + 2)
  }

  /** The bytes a token stands for. */
  function Meaning(s: bytes, i: nat): bytes
    requires i <= |s| && Accepts(s, i)
    decreases |s| - i
  {
    if i == |s| then [] else [UnitAt(s, i).meaning] + Meaning(s, UnitAt(s, i).next)
  }

  /** The token after the first pass. */
  function Image(s: bytes, i: nat): (r: bytes)
    requires i <= |s| && Accepts(s, i)
    ensures |r| == |s| - i
    decreases |s| - i
  {
    if i == |s| then [] else UnitAt(s, i).image + Image(s, UnitAt(s, i).next)
  }

  ghost predicate SameFrom(s: bytes, t: bytes, i: nat) {
    |s| == |t| && forall k | i <= k < |s| :: s[k] == t[k]
  }

  lemma {:induction false} ReadsOnlyTheRest(s: bytes, t: bytes, i: nat)
    requires i <= |s| && SameFrom(s, t, i)
    ensures Accepts(s, i) <==> Accepts(t, i)
    ensures Accepts(s, i) ==> Meaning(s, i) == Meaning(t, i) && Image(s, i) == Image(t, i)
    decreases |s| - i
  {
    hide StrtolHex, SimpleEscape;
    if i < |s| {
      if i + 1 == |s| || s[i] != BACKSLASH {
        ReadsOnlyTheRest(s, t, i + 1);
      } else if s[i + 1] != LOWER_U {
        ReadsOnlyTheRest(s, t, i + 2);
      } else if i + 6 <= |s| {
        assert s[i + 2..i + 6] == t[i + 2..i + 6];
        ReadsOnlyTheRest(s, t, i + 6);
      }
      if Accepts(s, i) {
        assert UnitAt(s, i) == UnitAt(t, i);
      }
    }
  }

  lemma UnitStep(s: bytes, i: nat)
    requires i < |s| && Accepts(s, i)
    ensures var u := UnitAt(s, i);
            && Meaning(s, i) == [u.meaning] + Meaning(s, u.next) && Image(s, i) == u.image + Image(s, u.next)
  {
  }

  lemma AcceptsStep(s: bytes, i: nat)
    requires i + 1 < |s|
    ensures s[i] != BACKSLASH ==> (Accepts(s, i) <==> Accepts(s, i + 1))
    ensures s[i] != BACKSLASH && Accepts(s, i) ==> UnitAt(s, i) == Unit(s[i], [s[i]], i + 1)
    ensures s[i] == BACKSLASH && s[i + 1] != LOWER_U ==>
              (Accepts(s, i) <==> SimpleEscape(s[i + 1]).Some? && Accepts(s, i + 2))
    ensures s[i] == BACKSLASH && s[i + 1] != LOWER_U && Accepts(s, i) ==>
              var b := SimpleEscape(s[i + 1]).value; UnitAt(s, i) == Unit(b, [MARKER, b], i + 2)
  {
    hide StrtolHex, SimpleEscape;
  }

  /** The first pass succeeds exactly on accepted tokens, writes the image and counts the meaning. */
  ghost predicate MarksAs(r: Option<Marked>, s: bytes, i: nat, n: int)
    requires i <= |s|
  {
    if Accepts(s, i) then r == Some(Marked(s[..i] + Image(s, i), n - (|s| - i) + |Meaning(s, i)|)) else r == None
  }

  /** One unit has been marked and the rest follows. */
  lemma MarksOneMore(r: Option<Marked>, s: bytes, t: bytes, i: nat, n: int, k: nat, n': int)
    requires i < k <= |s| && SameFrom(s, t, k) && n' == n - (k - i) + 1 && (Accepts(s, i) <==> Accepts(s, k))
    requires Accepts(s, i) ==> UnitAt(s, i).next == k && t[..k] == s[..i] + UnitAt(s, i).image
    requires MarksAs(r, t, k, n')
    ensures MarksAs(r, s, i, n)
  {
    hide Accepts, Meaning, Image, UnitAt;
    ReadsOnlyTheRest(s, t, k);
    if Accepts(s, i) {
      UnitStep(s, i);
      ConcatAssoc(s[..i], UnitAt(s, i).image, Image(s, k));
    }
  }

  lemma MarksAtEnd(s: bytes, i: nat, n: int)
    requires i <= |s| <= i + 1
    ensures MarksAs(Mark(s, i, n), s, i, n)
  {
    if i < |s| {
      assert Meaning(s, i + 1) == [] && Image(s, i + 1) == [];
    }
    assert s[..i] + Image(s, i) == s;
  }

  lemma {:induction false} MarkIff(s: bytes, i: nat, n: int)
    requires i <= |s|
    ensures MarksAs(Mark(s, i, n), s, i, n)
    decreases |s| - i
  {
    hide StrtolHex, SimpleEscape, Mark, Accepts, UnitAt, MarksAs, Meaning, Image;
    if i + 1 >= |s| {
      MarksAtEnd(s, i, n);
    } else {
      MarkStep(s, i, n);
      AcceptsStep(s, i);
      if s[i] != BACKSLASH {
        MarkIff(s, i + 1, n);
        assert s[..i + 1] == s[..i] + [s[i]];
        MarksOneMore(Mark(s, i, n), s, s, i, n, i + 1, n);
      } else if s[i + 1] == LOWER_U {
        MarkUnicodeIff(s, i, n);
      } else if SimpleEscape(s[i + 1]).Some? {
        var b := SimpleEscape(s[i + 1]).value;
        var t := s[i := MARKER][i + 1 := b];
        MarkIff(t, i + 2, n - 1);
        assert t[..i + 2] == s[..i] + [MARKER, b];
        MarksOneMore(Mark(s, i, n), s, t, i, n, i + 2, n - 1);
      } else {
        RefusedMarks(s, i, n);
      }
    }
  }

  lemma RefusedMarks(s: bytes, i: nat, n: int)
    requires i <= |s| && !Accepts(s, i)
    ensures MarksAs(None, s, i, n)
  {
  }

  lemma {:induction false} MarkUnicodeIff(s: bytes, i: nat, n: int)
    requires i + 1 < |s| && s[i] == BACKSLASH && s[i + 1] == LOWER_U
    ensures MarksAs(Mark(s, i, n), s, i, n)
    decreases |s| - i, 0
  {
    hide StrtolHex, SimpleEscape, Mark, UnicodeMarked, MarksAs, Meaning, Image;
    MarkStep(s, i, n);
    if |s| - i >= 6 && OneByte(StrtolHex(s[i + 2..i + 6])) {
      var code := StrtolHex(s[i + 2..i + 6]);
      var t := UnicodeMarked(s, i, code);
      UnicodeResumes(s, i, code, n - 5);
      if code != BACKSLASH {
        UnicodeMarkedIs(s, i, code);
        MarkIff(t, i + 6, n - 5);
        MarksOneMore(Mark(s, i, n), s, t, i, n, i + 6, n - 5);
      } else {
        RefusedMarks(s, i, n);
      }
    } else {
      RefusedMarks(s, i, n);
    }
  }

  lemma UnicodeMarkedIs(s: bytes, i: nat, code: byte)
    requires i + 6 <= |s|
    ensures SameFrom(s, UnicodeMarked(s, i, code), i + 6)
    ensures UnicodeMarked(s, i, code)[..i + 6] == s[..i] + [MARKER, code, MARKER, MARKER, MARKER, MARKER]
  {
  }

  /** A token is decoded if and only if it is accepted. */
  lemma DecodedIff(s: bytes)
    ensures Decoded(s).Some? <==> Accepts(s, 0)
  {
    hide Mark, Compact, Accepts;
    MarkIff(s, 0, |s|);
  }

  lemma {:induction false} CompactImage(s: bytes, i: nat)
    requires i <= |s| && Accepts(s, i)
    ensures Compact(Image(s, i)) == Compact(Meaning(s, i)) && |Meaning(s, i)| <= |Image(s, i)|
    decreases |s| - i
  {
    hide StrtolHex, SimpleEscape, Compact, Accepts;
    if i < |s| {
      var u := UnitAt(s, i);
      CompactImage(s, u.next);
      CompactConcat(u.image, Image(s, u.next));
      CompactConcat([u.meaning], Meaning(s, u.next));
      CompactUnit(u.meaning);
    }
  }

  lemma CompactUnit(c: byte)
    ensures Compact([MARKER, c]) == Compact([c])
    ensures Compact([MARKER, c, MARKER, MARKER, MARKER, MARKER]) == Compact([c])
  {
    hide Compact;
    CompactConcat([MARKER], [c]);
    CompactMarkers([MARKER]);
    CompactMarkers([MARKER, MARKER, MARKER, MARKER]);
    CompactConcat([MARKER, c], [MARKER, MARKER, MARKER, MARKER]);
    assert [MARKER] + [c] == [MARKER, c];
    assert [MARKER, c] + [MARKER, MARKER, MARKER, MARKER] == [MARKER, c, MARKER, MARKER, MARKER, MARKER];
    assert [] + Compact([c]) == Compact([c]) && Compact([MARKER, c]) + [] == Compact([MARKER, c]);
  }

  lemma {:induction false} CompactMarkers(s: bytes)
    ensures Compact(s) == [] <==> forall k | 0 <= k < |s| :: s[k] == MARKER
    ensures MARKER !in Compact(s)
    decreases |s|
  {
    if s != [] {
      CompactMarkers(s[1..]);
      assert forall k | 0 < k < |s| :: s[k] == s[1..][k - 1];
      assert forall k | 0 <= k < |s| - 1 :: s[1..][k] == s[k + 1];
    }
  }

  lemma {:induction false} CompactKeepsAll(s: bytes)
    requires MARKER !in s
    ensures Compact(s) == s
    decreases |s|
  {
    if s != [] {
      CompactKeepsAll(s[1..]);
    }
  }

  /** A byte 255 stands at position `k` or before it. */
  predicate MarkerBy(m: bytes, k: nat)
    requires k < |m|
  {
    MARKER in m[..k + 1]
  }

  /** From the first byte 255 of the meaning on, both the meaning and the token after the first pass hold
      nothing but 255. */
  ghost predicate NothingMisplaced(s: bytes)
    requires Accepts(s, 0)
  {
    CompactImage(s, 0);
    forall k | 0 <= k < |Meaning(s, 0)| ::
      MarkerBy(Meaning(s, 0), k) ==> Meaning(s, 0)[k] == MARKER && Image(s, 0)[k] == MARKER
  }

  /** What is handed over is the token's meaning if and only if no byte 255 in it, which the second pass
      takes for a marker, misplaces the rest. */
  lemma DecodedIsMeaningIff(s: bytes)
    requires Accepts(s, 0)
    ensures Decoded(s) == Some(Meaning(s, 0)) <==> NothingMisplaced(s)
    ensures MARKER !in Meaning(s, 0) ==> NothingMisplaced(s)
  {
    hide Compact, Accepts, Meaning, Image;
    DecodedIs(s);
    CompactImage(s, 0);
    var m, image := Meaning(s, 0), Image(s, 0);
    CompactLength(m);
    if MARKER !in m {
      CompactKeepsAll(m);
      assert (m + image[|m|..])[..|m|] == m;
    } else {
      MisplacedIff(m, image);
    }
  }

  lemma CompactLength(m: bytes)
    ensures |Compact(m)| <= |m|
  {
  }

  lemma DecodedIs(s: bytes)
    requires Accepts(s, 0)
    ensures var m, image := Meaning(s, 0), Image(s, 0);
            && |Compact(m)| <= |m| <= |image|
            && Decoded(s) == Some((Compact(m) + image[|Compact(m)|..])[..|m|])
  {
    hide Mark, Compact, Accepts, Meaning, Image;
    MarkIff(s, 0, |s|);
    CompactImage(s, 0);
    CompactLength(Meaning(s, 0));
    assert s[..0] + Image(s, 0) == Image(s, 0);
  }

  ghost predicate OnlyMarkersFrom(m: bytes, image: bytes, p: nat)
    requires |m| <= |image|
  {
    forall k | p <= k < |m| :: m[k] == MARKER && image[k] == MARKER
  }

  lemma MisplacedIff(m: bytes, image: bytes)
    requires |Compact(m)| <= |m| <= |image| && MARKER in m
    ensures (Compact(m) + image[|Compact(m)|..])[..|m|] == m <==>
            forall k | 0 <= k < |m| :: MarkerBy(m, k) ==> m[k] == MARKER && image[k] == MARKER
  {
    hide Compact, OnlyMarkersFrom;
    var p := FirstMarker(m);
    FromFirstMarker(m, image, p);
    HandedIff(m, image, p);
  }

  lemma FromFirstMarker(m: bytes, image: bytes, p: nat)
    requires |m| <= |image| && p < |m| && m[p] == MARKER && MARKER !in m[..p]
    ensures OnlyMarkersFrom(m, image, p) <==>
            forall k | 0 <= k < |m| :: MarkerBy(m, k) ==> m[k] == MARKER && image[k] == MARKER
  {
    forall k | 0 <= k < |m| ensures MarkerBy(m, k) <==> p <= k {
      if p <= k {
        assert m[..k + 1][p] == MARKER;
      } else {
        assert m[..k + 1] == m[..p][..k + 1];
      }
    }
  }

  lemma HandedIff(m: bytes, image: bytes, p: nat)
    requires |Compact(m)| <= |m| <= |image| && p < |m| && m[p] == MARKER && MARKER !in m[..p]
    ensures (Compact(m) + image[|Compact(m)|..])[..|m|] == m <==> OnlyMarkersFrom(m, image, p)
  {
    hide Compact;
    var kept, tail := Compact(m), Compact(m[p..]);
    var handed := (kept + image[|kept|..])[..|m|];
    CompactKeepsAll(m[..p]);
    CompactConcat(m[..p], m[p..]);
    assert m == m[..p] + m[p..];
    assert kept == m[..p] + tail;
    CompactMarkers(m[p..]);
    if tail == [] {
      assert forall k | p <= k < |m| :: m[k] == m[p..][k - p];
      assert forall k | p <= k < |m| :: handed[k] == image[k];
      assert forall k | 0 <= k < p :: handed[k] == m[..p][k];
    } else {
      assert handed[p] == tail[0] && tail[0] in tail;
      var k :| 0 <= k < |m[p..]| && m[p..][k] != MARKER;
      assert m[p + k] != MARKER;
    }
  }

  lemma FirstMarker(m: bytes) returns (p: nat)
    requires MARKER in m
    ensures p < |m| && m[p] == MARKER && MARKER !in m[..p]
  {
    p := 0;
    while m[p] != MARKER
      invariant p < |m| && MARKER !in m[..p] && MARKER in m[p..]
      decreases |m| - p
    {
      assert m[..p + 1] == m[..p] + [m[p]] && m[p..] == [m[p]] + m[p + 1..];
      p := p + 1;
    }
  }

  /** Two legal one-byte escapes that go wrong: \u005c is refused, and behind \u00ff an A comes out in
      front of a leftover byte. */
  lemma UnicodeCounterexamples()
    ensures Decoded([BACKSLASH, LOWER_U, ZERO, ZERO, 0x35, 0x63]) == None
    ensures Decoded([BACKSLASH, LOWER_U, ZERO, ZERO, 0x66, 0x66, 0x41]) == Some([0x41, 255])
  {
    var s := [BACKSLASH, LOWER_U, ZERO, ZERO, 0x35, 0x63];
    HexByte(0x35, 0x63);
    assert s[2..6] == [ZERO, ZERO, 0x35, 0x63];
    assert !Accepts(s, 0);
    DecodedIff(s);
    var t := [BACKSLASH, LOWER_U, ZERO, ZERO, 0x66, 0x66, 0x41];
    HexByte(0x66, 0x66);
    assert t[2..6] == [ZERO, ZERO, 0x66, 0x66];
    assert Accepts(t, 6) && Accepts(t, 0);
    var image := [MARKER, 255, MARKER, MARKER, MARKER, MARKER];
    assert Meaning(t, 7) == [] && Image(t, 7) == [];
    assert UnitAt(t, 6) == Unit(0x41, [0x41], 7) && Meaning(t, 6) == [0x41] && Image(t, 6) == [0x41];
    assert UnitAt(t, 0) == Unit(255, image, 6) && Meaning(t, 0) == [255, 0x41] && Image(t, 0) == image + [0x41];
    HandedOver(t, image);
  }

  lemma HandedOver(t: bytes, image: bytes)
    requires Accepts(t, 0) && |t| == 7 && image == [MARKER, 255, MARKER, MARKER, MARKER, MARKER]
    requires Meaning(t, 0) == [255, 0x41] && Image(t, 0) == image + [0x41]
    ensures Decoded(t) == Some([0x41, 255])
  {
    hide Compact, Accepts, Meaning, Image;
    DecodedIs(t);
    CompactConcat([255], [0x41]);
    CompactMarkers([255]);
    CompactKeepsAll([0x41]);
    assert [255] + [0x41] == [255, 0x41] && Compact([255, 0x41]) == [0x41];
    assert ([0x41] + (image + [0x41])[1..])[..2] == [0x41, 255];
  }

  lemma HexByte(h: byte, l: byte)
    requires HexCharToInt(h) != -1 && HexCharToInt(l) != -1
    ensures StrtolHex([ZERO, ZERO, h, l]) == HexCharToInt(h) * 16 + HexCharToInt(l)
  {
    assert [ZERO, ZERO, h, l][1..] == [ZERO, h, l] && [ZERO, h, l][1..] == [h, l];
    assert [h, l][1..] == [l] && [l][1..] == [];
    var v := HexCharToInt(h);
    assert HexDigitsValue([l], v) == HexDigitsValue([], v * 16 + HexCharToInt(l));
    assert HexDigitsValue([h, l], 0) == HexDigitsValue([l], v);
    assert HexDigitsValue([ZERO, h, l], 0) == HexDigitsValue([h, l], 0);
    assert HexDigitsValue([ZERO, ZERO, h, l], 0) == HexDigitsValue([ZERO, h, l], 0);
  }

  // ---------- The two passes in place ----------

  /** The first loop of parseString over the characters of one string token. */
  method MarkEscapes(s: array<byte>) returns (ok: bool, finalLen: int)
    modifies s
    ensures ok == Mark(old(s[..]), 0, s.Length).Some?
    ensures ok ==> Mark(old(s[..]), 0, s.Length).value == Marked(s[..], finalLen)
  {
    hide Mark, StrtolHex, SimpleEscape;
    ghost var target := Mark(s[..], 0, s.Length);
    finalLen := s.Length;
    var i := 0;
    while i < s.Length - 1
      invariant 0 <= i
      invariant target == Mark(s[..], i, finalLen)
      decreases s.Length - i
    {
      ghost var t := s[..];
      MarkStep(t, i, finalLen);
      if s[i] == BACKSLASH {
        if s[i + 1] == LOWER_U {
          if s.Length - i < 6 {
            return false, finalLen;
          }
          assert t[i + 2..i + 6] == s[i + 2..i + 6];
          var code := StrtolHex(s[i + 2..i + 6]);
          if !OneByte(code) {
            return false, finalLen;
          }
          s[i], s[i + 1] := MARKER, code;
          s[i + 2], s[i + 3], s[i + 4], s[i + 5] := MARKER, MARKER, MARKER, MARKER;
          assert s[..] == UnicodeMarked(t, i, code);
          finalLen := finalLen - 5;
        } else {
          var b := SimpleEscape(s[i + 1]);
          if b.None? {
            return false, finalLen;
          }
          s[i] := MARKER;
          s[i + 1] := b.value;
          assert s[..] == t[i := MARKER][i + 1 := b.value];
          finalLen := finalLen - 1;
          i := i + 1;
        }
      }
      i := i + 1;
    }
    MarkStops(s[..], i, finalLen);
    return true, finalLen;
  }

  lemma MarkStep(s: bytes, i: nat, n: int)
    requires i + 1 < |s|
    ensures s[i] != BACKSLASH ==> Mark(s, i, n) == Mark(s, i + 1, n)
    ensures s[i] == BACKSLASH && s[i + 1] == LOWER_U ==>
              && (|s| - i < 6 ==> Mark(s, i, n) == None)
              && (|s| - i >= 6 ==>
                    var code := StrtolHex(s[i + 2..i + 6]);
                    Mark(s, i, n) == if !OneByte(code) then None else Mark(UnicodeMarked(s, i, code), i + 1, n - 5))
    ensures s[i] == BACKSLASH && s[i + 1] != LOWER_U ==>
              Mark(s, i, n) ==
              match SimpleEscape(s[i + 1])
              case None => None
              case Some(b) => Mark(s[i := MARKER][i + 1 := b], i + 2, n - 1)
  {
    hide StrtolHex, SimpleEscape, UnicodeMarked;
  }

  lemma MarkStops(s: bytes, i: nat, n: int)
    requires i + 1 >= |s|
    ensures Mark(s, i, n) == Some(Marked(s, n))
  {
  }

  /** The second loop: what is not a marker moves down. */
  method DropMarkers(s: array<byte>)
    modifies s
    ensures var kept := Compact(old(s[..]));
            s[..] == kept + old(s[..])[|kept|..]
  {
    hide Compact;
    ghost var t := s[..];
    var i, u := 0, 0;
    CompactPrefix(t, 0);
    while i < s.Length
      invariant u <= i <= s.Length
      invariant s[..u] == Compact(t[..i])
      invariant s[u..] == t[u..]
    {
      CompactPrefix(t, i);
      assert s[i] == s[u..][i - u] == t[i];
      if s[i] != MARKER {
        ghost var before, behind := s[..u], s[u + 1..];
        assert behind == s[u..][1..] == t[u + 1..];
        s[u] := s[i];
        u := u + 1;
        assert s[..u] == before + [t[i]];
        assert s[u..] == behind;
      }
      i := i + 1;
    }
    assert t[..i] == t;
    assert s[..] == s[..u] + s[u..];
  }

  lemma CompactPrefix(t: bytes, i: nat)
    requires i <= |t|
    ensures Compact(t[..0]) == []
    ensures i < |t| ==> Compact(t[..i + 1]) == Compact(t[..i]) + (if t[i] == MARKER then [] else [t[i]])
  {
    if i < |t| {
      assert t[..i + 1] == t[..i] + [t[i]];
      assert [t[i]][1..] == [];
      assert Compact([t[i]]) == (if t[i] == MARKER then [] else [t[i]]) + Compact([]);
      hide Compact;
      CompactConcat(t[..i], [t[i]]);
    }
  }

  /** parseString: both passes, then the first `finalLen` characters are handed over. */
  method ParseString(s: array<byte>) returns (r: Option<bytes>)
    modifies s
    ensures r == Decoded(old(s[..]))
  {
    hide Mark, Compact;
    var ok, finalLen := MarkEscapes(s);
    if !ok {
      return None;
    }
    MarkBounds(old(s[..]), 0, s.Length);
    DropMarkers(s);
    return Some(s[..finalLen]);
  }
}
