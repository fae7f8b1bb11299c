/** The recursive serializer, run once without a buffer to measure and once with one to write. */
module Serializer {
  import opened Bytes
  import opened ObjectTable
  import opened JsonValue
  import opened StringCodec

  // ---------- The text of a value ----------

  const INDENT: bytes := [SPACE, SPACE, SPACE, SPACE]

  function Indent(level: nat): bytes {
    if level == 0 then [] else INDENT + Indent(level - 1)
  }

  function When(c: bool, text: bytes): bytes {
    if c then text else []
  }

  function Digits(n: nat): bytes {
    if n < 10 then [ZERO + n] else Digits(n / 10) + [ZERO + n % 10]
  }

  function Decimal(n: int): bytes {
    if n < 0 then [MINUS] + Digits(-n) else Digits(n)
  }

  function Text(v: Value, level: nat, pretty: bool): bytes
    decreases v, 0
  {
    match v
    case Null => NULL_TOKEN
    case Bool(b) => if b then TRUE_TOKEN else FALSE_TOKEN
    case Number(n) => Decimal(n)
    case Str(s) => Quoted(s)
    case Array(items) =>
      Opening(LBRACKET, |items|, pretty) + ItemsText(items, 0, level, pretty)
      + Closing(RBRACKET, |items|, level, pretty)
    case Object(members) =>
      Opening(LBRACE, |members|, pretty) + MembersText(members, 0, level, pretty)
      + Closing(RBRACE, |members|, level, pretty)
  }

  function Opening(bracket: byte, count: nat, pretty: bool): bytes {
    [bracket] + When(count > 0 && pretty, [NEWLINE])
  }

  function Closing(bracket: byte, count: nat, level: nat, pretty: bool): bytes {
    When(count > 0 && pretty, Indent(level)) + [bracket]
  }

  function Separator(last: bool, pretty: bool): bytes {
    When(!last, [COMMA]) + When(pretty, [NEWLINE])
  }

  function ItemText(items: seq<Value>, k: nat, level: nat, pretty: bool): bytes
    requires k < |items|
    decreases items, 0
  {
    When(pretty, Indent(level + 1)) + Text(items[k], level + 1, pretty) + Separator(k == |items| - 1, pretty)
  }

  function ItemsText(items: seq<Value>, k: nat, level: nat, pretty: bool): bytes
    requires k <= |items|
    decreases items, 1 + |items| - k
  {
    if k == |items| then [] else ItemText(items, k, level, pretty) + ItemsText(items, k + 1, level, pretty)
  }

  function KeyText(key: bytes, level: nat, pretty: bool): bytes {
    When(pretty, Indent(level + 1)) + Quoted(key) + [COLON] + When(pretty, [SPACE])
  }

  /** Like the code, a member's value is looked up by its name. */
  function MemberText(members: seq<Entry<Value>>, k: nat, level: nat, pretty: bool): bytes
    requires k < |members|
    decreases members, 0
  {
    OwnNameIsFound(members, k);
    var f := Find(members, members[k].name);
    KeyText(members[k].name, level, pretty)
    + Text(members[f].value, level + 1, pretty) + Separator(k == |members| - 1, pretty)
  }

  function MembersText(members: seq<Entry<Value>>, k: nat, level: nat, pretty: bool): bytes
    requires k <= |members|
    decreases members, 1 + |members| - k
  {
    if k == |members| then []
    else MemberText(members, k, level, pretty) + MembersText(members, k + 1, level, pretty)
  }

  // ---------- Writing into a buffer ----------

  /** `out` stands in the new contents at `off`, the byte after it may hold a terminator, and
      nothing else has changed. */
  ghost predicate WroteSeq(b0: bytes, b1: bytes, off: nat, out: bytes) {
    && |b1| == |b0| && off + |out| < |b0|
    && b1[..off] == b0[..off]
    && Occurs(b1, off, out)
    && b1[off + |out| + 1..] == b0[off + |out| + 1..]
  }

  ghost function Snapshot(buf: array?<byte>): bytes
    reads buf
  {
    if buf == null then [] else buf[..]
  }

  /** The same between two snapshots; without a buffer both are empty and nothing is written. */
  ghost predicate Wrote(b0: bytes, b1: bytes, off: nat, out: bytes) {
    (b0 == [] && b1 == []) || WroteSeq(b0, b1, off, out)
  }

  ghost predicate Room(buf: array?<byte>, off: nat, n: nat) {
    buf == null || off + n < buf.Length
  }

  ghost predicate Terminated(buf: array?<byte>, end: nat)
    reads buf
  {
    buf == null || (end < buf.Length && buf[end] == 0)
  }

  lemma Extend(b0: bytes, b1: bytes, b2: bytes, off: nat, x: bytes, y: bytes)
    requires Wrote(b0, b1, off, x) && Wrote(b1, b2, off + |x|, y)
    ensures Wrote(b0, b2, off, x + y)
  {
  }

  /** sprintf into the buffer, or strlen without one. */
  method AppendString(buf: array?<byte>, off: nat, str: bytes) returns (written: nat)
    requires Room(buf, off, |str|)
    modifies buf
    ensures written == |str|
    ensures Wrote(old(Snapshot(buf)), Snapshot(buf), off, str) && Terminated(buf, off + |str|)
  {
    if buf == null {
      return |str|;
    }
    ghost var b0 := buf[..];
    for i := 0 to |str|
      invariant buf[..off] == b0[..off]
      invariant buf[off..off + i] == str[..i]
      invariant buf[off + i..] == b0[off + i..]
    {
      buf[off + i] := str[i];
      assert buf[off..off + i + 1] == buf[off..off + i] + [str[i]];
      assert buf[off + i + 1..] == b0[off + i..][1..];
    }
    buf[off + |str|] := 0;
    assert buf[off..off + |str|] == str[..|str|] == str;
    assert buf[..off] == b0[..off];
    assert buf[off + |str| + 1..] == b0[off + |str|..][1..] == b0[off + |str| + 1..];
    return |str|;
  }

  method AppendIndent(buf: array?<byte>, off: nat, level: nat) returns (writtenTotal: nat)
    requires Room(buf, off, |Indent(level)|)
    modifies buf
    ensures writtenTotal == |Indent(level)|
    ensures Wrote(old(Snapshot(buf)), Snapshot(buf), off, Indent(level))
  {
    hide Wrote, WroteSeq, Snapshot;
    writtenTotal := 0;
    ghost var b0 := Snapshot(buf);
    WroteNothing(buf, off, |Indent(level)|);
    IndentSplits(0, level);
    for i := 0 to level
      invariant writtenTotal == |Indent(i)|
      invariant Wrote(b0, Snapshot(buf), off, Indent(i))
    {
      IndentSplits(i, level - i);
      IndentSplits(i, 1);
      assert Indent(1) == INDENT;
      ghost var b1 := Snapshot(buf);
      var written := AppendString(buf, off + writtenTotal, INDENT);
      writtenTotal := writtenTotal + written;
      Extend(b0, b1, Snapshot(buf), off, Indent(i), INDENT);
    }
  }

  lemma {:induction false} IndentSplits(a: nat, b: nat)
    ensures Indent(a + b) == Indent(a) + Indent(b)
    ensures b > 0 ==> |Indent(a + b)| >= |Indent(a)| + |INDENT|
  {
    if a > 0 {
      IndentSplits(a - 1, b);
      assert Indent(a + b) == INDENT + Indent(a + b - 1);
    }
  }

  method SerializeString(str: bytes, buf: array?<byte>, off: nat) returns (writtenTotal: nat)
    requires Room(buf, off, |Quoted(str)|)
    modifies buf
    ensures writtenTotal == |Quoted(str)|
    ensures Wrote(old(Snapshot(buf)), Snapshot(buf), off, Quoted(str)) && Terminated(buf, off + |Quoted(str)|)
  {
    hide EscapeAll, WroteSeq, Wrote, Snapshot;
    ghost var b0 := Snapshot(buf);
    writtenTotal := AppendString(buf, off, [QUOTE]);
    ghost var b1 := Snapshot(buf);
    var written := SerializeChars(str, buf, off + writtenTotal);
    Extend(b0, b1, Snapshot(buf), off, [QUOTE], EscapeAll(str));
    writtenTotal := writtenTotal + written;
    b1 := Snapshot(buf);
    written := AppendString(buf, off + writtenTotal, [QUOTE]);
    Extend(b0, b1, Snapshot(buf), off, [QUOTE] + EscapeAll(str), [QUOTE]);
    writtenTotal := writtenTotal + written;
  }

  method SerializeChars(str: bytes, buf: array?<byte>, off: nat) returns (writtenTotal: nat)
    requires Room(buf, off, |EscapeAll(str)|)
    modifies buf
    ensures writtenTotal == |EscapeAll(str)|
    ensures Wrote(old(Snapshot(buf)), Snapshot(buf), off, EscapeAll(str))
  {
    hide EscapeAll, Escape, WroteSeq, Wrote, Parts, Snapshot, Room, Terminated;
    ghost var b0 := Snapshot(buf);
    ghost var out: bytes := [];
    WroteNothing(buf, off, |EscapeAll(str)|);
    EscapeSplit(str, 0, EscapeAll(str), out);
    writtenTotal := 0;
    for i := 0 to |str|
      invariant writtenTotal == |out|
      invariant Parts(EscapeAll(str), out, EscapeAll(str[i..]))
      invariant Wrote(b0, Snapshot(buf), off, out)
    {
      EscapeSplit(str, i, EscapeAll(str), out);
      ghost var b1 := Snapshot(buf);
      RoomInside(buf, off, |EscapeAll(str)|, writtenTotal, |Escape(str[i])|);
      var written := SerializeChar(str[i], buf, off + writtenTotal);
      writtenTotal := writtenTotal + written;
      Extend(b0, b1, Snapshot(buf), off, out, Escape(str[i]));
      out := out + Escape(str[i]);
    }
    EscapeSplit(str, |str|, EscapeAll(str), out);
  }

  lemma RoomInside(buf: array?<byte>, off: nat, n: nat, k: nat, m: nat)
    requires Room(buf, off, n) && k + m <= n
    ensures Room(buf, off + k, m)
  {
  }

  lemma WroteNothing(buf: array?<byte>, off: nat, n: nat)
    requires Room(buf, off, n)
    ensures Wrote(Snapshot(buf), Snapshot(buf), off, [])
  {
  }

  /** What is written so far and what is still to come make up the whole. */
  ghost predicate Parts(all: bytes, out: bytes, rest: bytes) {
    all == out + rest
  }

  lemma PartsMakeWhole(all: bytes, out: bytes, rest: bytes)
    requires Parts(all, out, rest)
    ensures all == out + rest
  {
  }

  lemma EscapeSplit(str: bytes, i: nat, all: bytes, out: bytes)
    requires i <= |str|
    ensures i == 0 && out == [] && all == EscapeAll(str) ==> Parts(all, out, EscapeAll(str[i..]))
    ensures i < |str| && Parts(all, out, EscapeAll(str[i..])) ==>
              |out| + |Escape(str[i])| <= |all| && Parts(all, out + Escape(str[i]), EscapeAll(str[i + 1..]))
    ensures i == |str| && Parts(all, out, EscapeAll(str[i..])) ==> out == all
  {
    EscapeAllUnfolds(str[i..]);
    hide EscapeAll, Escape;
    if i == 0 {
      assert str[0..] == str;
    }
    if i < |str| {
      assert str[i..][1..] == str[i + 1..];
      ConcatAssoc(out, Escape(str[i]), EscapeAll(str[i + 1..]));
    }
  }

  method SerializeChar(c: byte, buf: array?<byte>, off: nat) returns (written: nat)
    requires Room(buf, off, |Escape(c)|)
    modifies buf
    ensures written == |Escape(c)|
    ensures Wrote(old(Snapshot(buf)), Snapshot(buf), off, Escape(c))
  {
    hide Escape, WroteSeq;
    if Escape(c) != [c] {
      written := AppendString(buf, off, Escape(c));
    } else {
      // the default case stores the byte and no terminator
      ghost var b0 := Snapshot(buf);
      if buf != null {
        buf[off] := c;
        StoredOne(b0, off, c);
        assert buf[..] == b0[off := c];
      }
      written := 1;
    }
  }

  lemma StoredOne(b: bytes, at: nat, c: byte)
    requires at + 1 < |b|
    ensures WroteSeq(b, b[at := c], at, [c])
  {
  }

  /** The recursion of json_serialize_to_buffer_r: the same bytes are counted without a buffer and
      written with one, and no write, terminators included, leaves the counted range plus one. */
  method SerializeToBuffer(v: Value, buf: array?<byte>, off: nat, level: nat, pretty: bool)
    returns (writtenTotal: nat)
    requires Room(buf, off, |Text(v, level, pretty)|)
    modifies buf
    ensures writtenTotal == |Text(v, level, pretty)|
    ensures Wrote(old(Snapshot(buf)), Snapshot(buf), off, Text(v, level, pretty))
    ensures Terminated(buf, off + |Text(v, level, pretty)|)
    decreases v, 3
  {
    match v
    case Null =>
      writtenTotal := AppendString(buf, off, NULL_TOKEN);
    case Bool(b) =>
      if b {
        writtenTotal := AppendString(buf, off, TRUE_TOKEN);
      } else {
        writtenTotal := AppendString(buf, off, FALSE_TOKEN);
      }
    case Number(n) =>
      writtenTotal := AppendString(buf, off, Decimal(n));
    case Str(s) =>
      writtenTotal := SerializeString(s, buf, off);
    case Array(items) =>
      writtenTotal := SerializeArray(v, buf, off, level, pretty);
    case Object(members) =>
      writtenTotal := SerializeObject(v, buf, off, level, pretty);
  }

  method SerializeArray(v: Value, buf: array?<byte>, off: nat, level: nat, pretty: bool)
    returns (writtenTotal: nat)
    requires v.Array? && Room(buf, off, |Text(v, level, pretty)|)
    modifies buf
    ensures writtenTotal == |Text(v, level, pretty)|
    ensures Wrote(old(Snapshot(buf)), Snapshot(buf), off, Text(v, level, pretty))
    ensures Terminated(buf, off + |Text(v, level, pretty)|)
    decreases v, 2
  {
    hide Text, ItemsText, Opening, Closing, WroteSeq, Wrote, Parts, Snapshot, Room, Terminated;
    var count := |v.items|;
    ghost var opening, closing := Opening(LBRACKET, count, pretty), Closing(RBRACKET, count, level, pretty);
    ghost var inner := ItemsText(v.items, 0, level, pretty);
    ArrayParts(v, level, pretty);
    ghost var b0 := Snapshot(buf);
    RoomInside(buf, off, |Text(v, level, pretty)|, 0, |opening|);
    RoomInside(buf, off, |Text(v, level, pretty)|, |opening|, |inner|);
    RoomInside(buf, off, |Text(v, level, pretty)|, |opening| + |inner|, |closing|);
    writtenTotal := WriteOpening(LBRACKET, count, buf, off, pretty);
    ghost var b1 := Snapshot(buf);
    var written := SerializeItems(v, buf, off + writtenTotal, level, pretty);
    Extend(b0, b1, Snapshot(buf), off, opening, inner);
    writtenTotal := writtenTotal + written;
    b1 := Snapshot(buf);
    written := WriteClosing(RBRACKET, count, buf, off + writtenTotal, level, pretty);
    Extend(b0, b1, Snapshot(buf), off, opening + inner, closing);
    writtenTotal := writtenTotal + written;
    PartsMakeWhole(Text(v, level, pretty), opening + inner, closing);
  }

  lemma ArrayParts(v: Value, level: nat, pretty: bool)
    requires v.Array?
    ensures var opening, closing := Opening(LBRACKET, |v.items|, pretty), Closing(RBRACKET, |v.items|, level, pretty);
            var inner := ItemsText(v.items, 0, level, pretty);
            |Text(v, level, pretty)| == |opening| + |inner| + |closing|
            && Parts(Text(v, level, pretty), opening + inner, closing)
  {
    hide Opening, Closing, ItemsText;
  }

  method SerializeItems(v: Value, buf: array?<byte>, off: nat, level: nat, pretty: bool)
    returns (writtenTotal: nat)
    requires v.Array? && Room(buf, off, |ItemsText(v.items, 0, level, pretty)|)
    modifies buf
    ensures writtenTotal == |ItemsText(v.items, 0, level, pretty)|
    ensures Wrote(old(Snapshot(buf)), Snapshot(buf), off, ItemsText(v.items, 0, level, pretty))
    decreases v, 1
  {
    hide ItemsText, ItemText, WroteSeq, Wrote, Parts, Snapshot, Room, Terminated;
    ghost var all := ItemsText(v.items, 0, level, pretty);
    ghost var b0 := Snapshot(buf);
    ghost var out: bytes := [];
    WroteNothing(buf, off, |all|);
    ItemsSplit(v.items, 0, level, pretty, all, out);
    writtenTotal := 0;
    for i := 0 to |v.items|
      invariant writtenTotal == |out|
      invariant Parts(all, out, ItemsText(v.items, i, level, pretty))
      invariant Wrote(b0, Snapshot(buf), off, out)
    {
      ItemsSplit(v.items, i, level, pretty, all, out);
      ghost var b1 := Snapshot(buf);
      RoomInside(buf, off, |all|, writtenTotal, |ItemText(v.items, i, level, pretty)|);
      var written := SerializeItem(v, i, buf, off + writtenTotal, level, pretty);
      writtenTotal := writtenTotal + written;
      Extend(b0, b1, Snapshot(buf), off, out, ItemText(v.items, i, level, pretty));
      out := out + ItemText(v.items, i, level, pretty);
    }
    ItemsSplit(v.items, |v.items|, level, pretty, all, out);
  }

  lemma ItemsSplit(items: seq<Value>, i: nat, level: nat, pretty: bool, all: bytes, out: bytes)
    requires i <= |items|
    ensures out == [] && all == ItemsText(items, i, level, pretty) ==>
              Parts(all, out, ItemsText(items, i, level, pretty))
    ensures i < |items| && Parts(all, out, ItemsText(items, i, level, pretty)) ==>
              var item := ItemText(items, i, level, pretty);
              |out| + |item| <= |all| && Parts(all, out + item, ItemsText(items, i + 1, level, pretty))
    ensures i == |items| && Parts(all, out, ItemsText(items, i, level, pretty)) ==> out == all
  {
    ItemsUnfold(items, i, level, pretty);
    hide ItemsText, ItemText;
    if i < |items| {
      ConcatAssoc(out, ItemText(items, i, level, pretty), ItemsText(items, i + 1, level, pretty));
    }
  }

  lemma ItemsUnfold(items: seq<Value>, i: nat, level: nat, pretty: bool)
    requires i <= |items|
    ensures ItemsText(items, i, level, pretty)
            == if i == |items| then [] else ItemText(items, i, level, pretty) + ItemsText(items, i + 1, level, pretty)
  {
    hide ItemText, Text;
  }

  method SerializeItem(v: Value, i: nat, buf: array?<byte>, off: nat, level: nat, pretty: bool)
    returns (writtenTotal: nat)
    requires v.Array? && i < |v.items| && Room(buf, off, |ItemText(v.items, i, level, pretty)|)
    modifies buf
    ensures writtenTotal == |ItemText(v.items, i, level, pretty)|
    ensures Wrote(old(Snapshot(buf)), Snapshot(buf), off, ItemText(v.items, i, level, pretty))
    decreases v, 0
  {
    hide Text, ItemsText, Separator, Indent, WroteSeq, Wrote;
    ghost var b0 := Snapshot(buf);
    ghost var out := When(pretty, Indent(level + 1));
    writtenTotal := WriteIndent(pretty, buf, off, level + 1);
    ghost var b1 := Snapshot(buf);
    ghost var text := Text(v.items[i], level + 1, pretty);
    var written := SerializeToBuffer(v.items[i], buf, off + writtenTotal, level + 1, pretty);
    Extend(b0, b1, Snapshot(buf), off, out, text);
    writtenTotal := writtenTotal + written;
    b1 := Snapshot(buf);
    written := WriteSeparator(i < |v.items| - 1, buf, off + writtenTotal, pretty);
    Extend(b0, b1, Snapshot(buf), off, out + text, Separator(i == |v.items| - 1, pretty));
    writtenTotal := writtenTotal + written;
  }

  method SerializeObject(v: Value, buf: array?<byte>, off: nat, level: nat, pretty: bool)
    returns (writtenTotal: nat)
    requires v.Object? && Room(buf, off, |Text(v, level, pretty)|)
    modifies buf
    ensures writtenTotal == |Text(v, level, pretty)|
    ensures Wrote(old(Snapshot(buf)), Snapshot(buf), off, Text(v, level, pretty))
    ensures Terminated(buf, off + |Text(v, level, pretty)|)
    decreases v, 2
  {
    hide Text, MembersText, Opening, Closing, WroteSeq, Wrote, Parts, Snapshot, Room, Terminated;
    var count := |v.members|;
    ghost var opening, closing := Opening(LBRACE, count, pretty), Closing(RBRACE, count, level, pretty);
    ghost var inner := MembersText(v.members, 0, level, pretty);
    ObjectParts(v, level, pretty);
    ghost var b0 := Snapshot(buf);
    RoomInside(buf, off, |Text(v, level, pretty)|, 0, |opening|);
    RoomInside(buf, off, |Text(v, level, pretty)|, |opening|, |inner|);
    RoomInside(buf, off, |Text(v, level, pretty)|, |opening| + |inner|, |closing|);
    writtenTotal := WriteOpening(LBRACE, count, buf, off, pretty);
    ghost var b1 := Snapshot(buf);
    var written := SerializeMembers(v, buf, off + writtenTotal, level, pretty);
    Extend(b0, b1, Snapshot(buf), off, opening, inner);
    writtenTotal := writtenTotal + written;
    b1 := Snapshot(buf);
    written := WriteClosing(RBRACE, count, buf, off + writtenTotal, level, pretty);
    Extend(b0, b1, Snapshot(buf), off, opening + inner, closing);
    writtenTotal := writtenTotal + written;
    PartsMakeWhole(Text(v, level, pretty), opening + inner, closing);
  }

  lemma ObjectParts(v: Value, level: nat, pretty: bool)
    requires v.Object?
    ensures var opening, closing := Opening(LBRACE, |v.members|, pretty), Closing(RBRACE, |v.members|, level, pretty);
            var inner := MembersText(v.members, 0, level, pretty);
            |Text(v, level, pretty)| == |opening| + |inner| + |closing|
            && Parts(Text(v, level, pretty), opening + inner, closing)
  {
    hide Opening, Closing, MembersText;
  }

  method SerializeMembers(v: Value, buf: array?<byte>, off: nat, level: nat, pretty: bool)
    returns (writtenTotal: nat)
    requires v.Object? && Room(buf, off, |MembersText(v.members, 0, level, pretty)|)
    modifies buf
    ensures writtenTotal == |MembersText(v.members, 0, level, pretty)|
    ensures Wrote(old(Snapshot(buf)), Snapshot(buf), off, MembersText(v.members, 0, level, pretty))
    decreases v, 1
  {
    hide MembersText, MemberText, WroteSeq, Wrote, Parts, Snapshot, Room, Terminated;
    ghost var all := MembersText(v.members, 0, level, pretty);
    ghost var b0 := Snapshot(buf);
    ghost var out: bytes := [];
    WroteNothing(buf, off, |all|);
    MembersSplit(v.members, 0, level, pretty, all, out);
    writtenTotal := 0;
    for i := 0 to |v.members|
      invariant writtenTotal == |out|
      invariant Parts(all, out, MembersText(v.members, i, level, pretty))
      invariant Wrote(b0, Snapshot(buf), off, out)
    {
      MembersSplit(v.members, i, level, pretty, all, out);
      ghost var b1 := Snapshot(buf);
      RoomInside(buf, off, |all|, writtenTotal, |MemberText(v.members, i, level, pretty)|);
      var written := SerializeMember(v, i, buf, off + writtenTotal, level, pretty);
      writtenTotal := writtenTotal + written;
      Extend(b0, b1, Snapshot(buf), off, out, MemberText(v.members, i, level, pretty));
      out := out + MemberText(v.members, i, level, pretty);
    }
    MembersSplit(v.members, |v.members|, level, pretty, all, out);
  }

  lemma MembersSplit(members: seq<Entry<Value>>, i: nat, level: nat, pretty: bool, all: bytes, out: bytes)
    requires i <= |members|
    ensures out == [] && all == MembersText(members, i, level, pretty) ==>
              Parts(all, out, MembersText(members, i, level, pretty))
    ensures i < |members| && Parts(all, out, MembersText(members, i, level, pretty)) ==>
              var item := MemberText(members, i, level, pretty);
              |out| + |item| <= |all| && Parts(all, out + item, MembersText(members, i + 1, level, pretty))
    ensures i == |members| && Parts(all, out, MembersText(members, i, level, pretty)) ==> out == all
  {
    MembersUnfold(members, i, level, pretty);
    hide MembersText, MemberText;
    if i < |members| {
      ConcatAssoc(out, MemberText(members, i, level, pretty), MembersText(members, i + 1, level, pretty));
    }
  }

  lemma MembersUnfold(members: seq<Entry<Value>>, i: nat, level: nat, pretty: bool)
    requires i <= |members|
    ensures MembersText(members, i, level, pretty)
            == if i == |members| then []
               else MemberText(members, i, level, pretty) + MembersText(members, i + 1, level, pretty)
  {
    hide MemberText, Text;
  }

  method SerializeMember(v: Value, i: nat, buf: array?<byte>, off: nat, level: nat, pretty: bool)
    returns (writtenTotal: nat)
    requires v.Object? && i < |v.members| && Room(buf, off, |MemberText(v.members, i, level, pretty)|)
    modifies buf
    ensures writtenTotal == |MemberText(v.members, i, level, pretty)|
    ensures Wrote(old(Snapshot(buf)), Snapshot(buf), off, MemberText(v.members, i, level, pretty))
    decreases v, 0
  {
    hide Text, MembersText, Separator, KeyText, WroteSeq, Find;
    ghost var b0 := Snapshot(buf);
    var key := v.members[i].name;
    writtenTotal := WriteKey(key, buf, off, level, pretty);
    ghost var b1 := Snapshot(buf);
    OwnNameIsFound(v.members, i);
    var f := Find(v.members, key);
    ghost var text := Text(v.members[f].value, level + 1, pretty);
    var written := SerializeToBuffer(v.members[f].value, buf, off + writtenTotal, level + 1, pretty);
    Extend(b0, b1, Snapshot(buf), off, KeyText(key, level, pretty), text);
    writtenTotal := writtenTotal + written;
    b1 := Snapshot(buf);
    written := WriteSeparator(i < |v.members| - 1, buf, off + writtenTotal, pretty);
    Extend(b0, b1, Snapshot(buf), off, KeyText(key, level, pretty) + text, Separator(i == |v.members| - 1, pretty));
    writtenTotal := writtenTotal + written;
  }

  method WriteIndent(c: bool, buf: array?<byte>, off: nat, level: nat) returns (written: nat)
    requires Room(buf, off, |When(c, Indent(level))|)
    modifies buf
    ensures written == |When(c, Indent(level))|
    ensures Wrote(old(Snapshot(buf)), Snapshot(buf), off, When(c, Indent(level)))
  {
    if c {
      written := AppendIndent(buf, off, level);
    } else {
      written := 0;
    }
  }

  method WriteWhen(c: bool, buf: array?<byte>, off: nat, str: bytes) returns (written: nat)
    requires Room(buf, off, |When(c, str)|)
    modifies buf
    ensures written == |When(c, str)|
    ensures Wrote(old(Snapshot(buf)), Snapshot(buf), off, When(c, str))
  {
    if c {
      written := AppendString(buf, off, str);
    } else {
      written := 0;
    }
  }

  method WriteOpening(bracket: byte, count: nat, buf: array?<byte>, off: nat, pretty: bool) returns (written: nat)
    requires Room(buf, off, |Opening(bracket, count, pretty)|)
    modifies buf
    ensures written == |Opening(bracket, count, pretty)|
    ensures Wrote(old(Snapshot(buf)), Snapshot(buf), off, Opening(bracket, count, pretty))
  {
    ghost var b0 := Snapshot(buf);
    written := AppendString(buf, off, [bracket]);
    ghost var b1 := Snapshot(buf);
    var more := WriteWhen(count > 0 && pretty, buf, off + written, [NEWLINE]);
    Extend(b0, b1, Snapshot(buf), off, [bracket], When(count > 0 && pretty, [NEWLINE]));
    written := written + more;
  }

  method WriteClosing(bracket: byte, count: nat, buf: array?<byte>, off: nat, level: nat, pretty: bool)
    returns (written: nat)
    requires Room(buf, off, |Closing(bracket, count, level, pretty)|)
    modifies buf
    ensures written == |Closing(bracket, count, level, pretty)|
    ensures Wrote(old(Snapshot(buf)), Snapshot(buf), off, Closing(bracket, count, level, pretty))
    ensures Terminated(buf, off + |Closing(bracket, count, level, pretty)|)
  {
    hide Indent, Wrote, WroteSeq, Snapshot;
    ghost var b0 := Snapshot(buf);
    written := WriteIndent(count > 0 && pretty, buf, off, level);
    ghost var b1 := Snapshot(buf);
    var more := AppendString(buf, off + written, [bracket]);
    Extend(b0, b1, Snapshot(buf), off, When(count > 0 && pretty, Indent(level)), [bracket]);
    written := written + more;
  }

  method WriteSeparator(comma: bool, buf: array?<byte>, off: nat, pretty: bool) returns (written: nat)
    requires Room(buf, off, |Separator(!comma, pretty)|)
    modifies buf
    ensures written == |Separator(!comma, pretty)|
    ensures Wrote(old(Snapshot(buf)), Snapshot(buf), off, Separator(!comma, pretty))
  {
    ghost var b0 := Snapshot(buf);
    written := WriteWhen(comma, buf, off, [COMMA]);
    ghost var b1 := Snapshot(buf);
    var more := WriteWhen(pretty, buf, off + written, [NEWLINE]);
    Extend(b0, b1, Snapshot(buf), off, When(comma, [COMMA]), When(pretty, [NEWLINE]));
    written := written + more;
  }

  method WriteKey(key: bytes, buf: array?<byte>, off: nat, level: nat, pretty: bool) returns (written: nat)
    requires Room(buf, off, |KeyText(key, level, pretty)|)
    modifies buf
    ensures written == |KeyText(key, level, pretty)|
    ensures Wrote(old(Snapshot(buf)), Snapshot(buf), off, KeyText(key, level, pretty))
  {
    hide Quoted, Indent, WroteSeq, Wrote;
    ghost var b0 := Snapshot(buf);
    ghost var out := When(pretty, Indent(level + 1));
    written := WriteIndent(pretty, buf, off, level + 1);
    ghost var b1 := Snapshot(buf);
    var more := SerializeString(key, buf, off + written);
    Extend(b0, b1, Snapshot(buf), off, out, Quoted(key));
    written := written + more;
    b1 := Snapshot(buf);
    more := AppendString(buf, off + written, [COLON]);
    Extend(b0, b1, Snapshot(buf), off, out + Quoted(key), [COLON]);
    written := written + more;
    b1 := Snapshot(buf);
    more := WriteWhen(pretty, buf, off + written, [SPACE]);
    Extend(b0, b1, Snapshot(buf), off, out + Quoted(key) + [COLON], When(pretty, [SPACE]));
    written := written + more;
  }

  // ---------- The entry points ----------

  method SerializationSize(v: Value, pretty: bool) returns (size: nat)
    ensures size == |Text(v, 0, pretty)| + 1
  {
    var res := SerializeToBuffer(v, null, 0, 0, pretty);
    return res + 1;
  }

  method SerializeInto(v: Value, pretty: bool, buf: array<byte>, bufSize: nat) returns (ok: bool)
    requires bufSize <= buf.Length
    modifies buf
    ensures ok == (bufSize >= |Text(v, 0, pretty)| + 1)
    ensures ok ==> var n := |Text(v, 0, pretty)|;
                   buf[..n] == Text(v, 0, pretty) && buf[n] == 0 && buf[n + 1..] == old(buf[n + 1..])
    ensures !ok ==> buf[..] == old(buf[..])
  {
    var needed := SerializationSize(v, pretty);
    if needed == 0 || bufSize < needed {
      return false;
    }
    var written := SerializeToBuffer(v, buf, 0, 0, pretty);
    assert buf[0..0 + written] == buf[..written];
    return true;
  }

  /** The allocated buffer is filled exactly: the text and its terminator. */
  method SerializeToString(v: Value, pretty: bool) returns (buf: array<byte>)
    ensures fresh(buf) && buf[..] == Text(v, 0, pretty) + [0]
  {
    var size := SerializationSize(v, pretty);
    buf := new byte[size];
    var ok := SerializeInto(v, pretty, buf, size);
    assert buf[..] == buf[..size - 1] + [buf[size - 1]];
  }
}
