/** What the serializer writes is one spelling of the value in the grammar, in both layouts; so parsing it gives the
    value back, exactly when the value does not nest deeper than the parser allows. */
module RoundTrip {
  import opened Bytes
  import opened ObjectTable
  import opened JsonValue
  import opened StringCodec
  import opened Serializer
  import opened Parser
  import opened Grammar
  import opened GrammarLaws

  // ---------- How the serializer spells a value ----------

  function LowerHex(d: nat): byte
    requires d < 16
  {
    if d < 10 then 0x30 + d else 0x61 + (d - 10)
  }

  /** The two-character escapes, the slash included, and four digits for the other control bytes. */
  function SpelledChar(c: byte): Char {
    if c in {0x22, 0x5C, 0x2F} then Short(c)
    else if c == 0x08 then Short(0x62)
    else if c == 0x0C then Short(0x66)
    else if c == 0x0A then Short(0x6E)
    else if c == 0x0D then Short(0x72)
    else if c == 0x09 then Short(0x74)
    else if c < 0x20 then Unit(c, [0x30, 0x30, LowerHex(c / 16), LowerHex(c % 16)])
    else Plain(c)
  }

  function SpelledChars(str: bytes): seq<Char> {
    if str == [] then [] else [SpelledChar(str[0])] + SpelledChars(str[1..])
  }

  /** A new line, indented by four spaces for each level; nothing in the compact layout. */
  function Gap(level: nat, pretty: bool): bytes {
    if pretty then [NEWLINE] + Spaces(4 * level) else []
  }

  function Spelling(v: Value, level: nat, pretty: bool): Doc
    decreases v, 0
  {
    match v
    case Null => NullDoc
    case Bool(b) => BoolDoc(b)
    case Number(n) => NumberDoc(n < 0, Digits(if n < 0 then -n else n))
    case Str(s) => StringDoc(SpelledChars(s))
    case Array(items) => ArrayDoc(SpelledItems(items, 0, level, pretty), [])
    case Object(members) => ObjectDoc(SpelledMembers(members, 0, level, pretty), [])
  }

  /** Every item on a line of its own, the closing bracket on the next one. */
  function SpelledItems(items: seq<Value>, k: nat, level: nat, pretty: bool): (r: seq<ItemDoc>)
    requires k <= |items|
    ensures |r| == |items| - k
    decreases items, |items| - k
  {
    if k == |items| then []
    else
      var behind := if k == |items| - 1 then Gap(level, pretty) else [];
      [ItemDoc(Gap(level + 1, pretty), Spelling(items[k], level + 1, pretty), behind)]
      + SpelledItems(items, k + 1, level, pretty)
  }

  /** In the pretty layout a space stands behind the colon. */
  function SpelledMembers(members: seq<Entry<Value>>, k: nat, level: nat, pretty: bool): (r: seq<MemberDoc>)
    requires k <= |members|
    ensures |r| == |members| - k
    decreases members, |members| - k
  {
    if k == |members| then []
    else
      var m := members[k];
      var behind := if k == |members| - 1 then Gap(level, pretty) else [];
      [MemberDoc(Gap(level + 1, pretty), SpelledChars(m.name), [], if pretty then [SPACE] else [],
                 Spelling(m.value, level + 1, pretty), behind)]
      + SpelledMembers(members, k + 1, level, pretty)
  }

  // ---------- The spelling is good and stands for the value ----------

  lemma CharSpelled(c: byte)
    ensures GoodChar(SpelledChar(c)) && CharBytes(SpelledChar(c)) == [c] && CharText(SpelledChar(c)) == Escape(c)
  {
  }

  lemma {:induction false} CharsSpelled(str: bytes)
    ensures var cs := SpelledChars(str);
            GoodChars(cs) && CharsBytes(cs) == str && CharsText(cs) == EscapeAll(str)
    decreases |str|
  {
    hide GoodChar, CharText, CharBytes, SpelledChar, Escape;
    if str != [] {
      CharSpelled(str[0]);
      CharsSpelled(str[1..]);
      var c, rest := SpelledChar(str[0]), SpelledChars(str[1..]);
      assert ([c] + rest)[1..] == rest;
      assert str == [str[0]] + str[1..];
    }
  }

  lemma StringSpelled(str: bytes)
    requires NulFree(str)
    ensures GoodChars(SpelledChars(str)) && Stored(SpelledChars(str)) == str
    ensures StringText(SpelledChars(str)) == Quoted(str)
  {
    hide GoodChars, CharsText, CharsBytes, SpelledChars, EscapeAll;
    CharsSpelled(str);
    CStringOfNulFree(str);
  }

  lemma GapIsBlank(level: nat, pretty: bool)
    ensures Blank(Gap(level, pretty)) && Blank([]) && Blank(if pretty then [SPACE] else [])
  {
  }

  lemma {:induction false} DigitsAreGood(n: nat)
    ensures GoodDoc(NumberDoc(false, Digits(n))) && GoodDoc(NumberDoc(true, Digits(n)))
    ensures Horner(Digits(n), 0) == n
    ensures Digits(n)[0] == ZERO ==> n == 0
  {
    if n >= 10 {
      DigitsAreGood(n / 10);
      HornerAppend(Digits(n / 10), ZERO + n % 10, 0);
      assert Digits(n)[0] == Digits(n / 10)[0];
    } else {
      assert Digits(n)[1..] == [];
    }
  }

  /** Serialized with its own names, a value is spelled by a good document that means it. */
  lemma {:induction false} SpellingIsGood(v: Value, level: nat, pretty: bool)
    requires WellFormed(v)
    ensures GoodDoc(Spelling(v, level, pretty)) && Meaning(Spelling(v, level, pretty)) == v
    decreases v, 0
  {
    hide GoodItem, GoodMember, GoodChars, SpelledItems, SpelledMembers, SpelledChars, Digits, Stored, Blank;
    GapIsBlank(0, false);
    match v
    case Number(n) => DigitsAreGood(if n < 0 then -n else n);
    case Str(s) => StringSpelled(s);
    case Array(items) =>
      SpelledItemsAreGood(items, 0, level, pretty);
      assert items[0..] == items;
    case Object(members) =>
      assert NulFreeNames(members);
      SpelledMembersAreGood(members, 0, level, pretty);
      assert members[0..] == members;
    case _ =>
  }

  lemma {:induction false} SpelledItemsAreGood(items: seq<Value>, k: nat, level: nat, pretty: bool)
    requires k <= |items| && forall i | 0 <= i < |items| :: WellFormed(items[i])
    ensures AllGoodItems(SpelledItems(items, k, level, pretty))
    ensures ItemValues(SpelledItems(items, k, level, pretty)) == items[k..]
    decreases items, |items| - k
  {
    hide WellFormed, GoodDoc, Meaning, Spelling, Gap, Blank;
    if k < |items| {
      GapIsBlank(level + 1, pretty);
      GapIsBlank(level, pretty);
      SpellingIsGood(items[k], level + 1, pretty);
      SpelledItemsAreGood(items, k + 1, level, pretty);
      var all, rest := SpelledItems(items, k, level, pretty), SpelledItems(items, k + 1, level, pretty);
      assert all[1..] == rest;
      assert items[k..] == [items[k]] + items[k + 1..];
      assert GoodItem(all[0]);
      assert forall i | 0 < i < |all| :: all[i] == rest[i - 1];
    }
  }

  lemma {:induction false} SpelledMembersAreGood(members: seq<Entry<Value>>, k: nat, level: nat, pretty: bool)
    requires k <= |members| && NulFreeNames(members) && forall i | 0 <= i < |members| :: WellFormed(members[i].value)
    ensures AllGoodMembers(SpelledMembers(members, k, level, pretty))
    ensures MemberEntries(SpelledMembers(members, k, level, pretty)) == members[k..]
    decreases members, |members| - k
  {
    hide WellFormed, GoodDoc, Meaning, Spelling, Gap, Blank, NulFree, GoodChars, SpelledChars, Stored;
    if k < |members| {
      var m := members[k];
      GapIsBlank(level + 1, pretty);
      GapIsBlank(level, pretty);
      StringSpelled(m.name);
      SpellingIsGood(m.value, level + 1, pretty);
      SpelledMembersAreGood(members, k + 1, level, pretty);
      var all, rest := SpelledMembers(members, k, level, pretty), SpelledMembers(members, k + 1, level, pretty);
      assert all[1..] == rest;
      assert m == Entry(m.name, m.value) && members[k..] == [m] + members[k + 1..];
      assert GoodMember(all[0]);
      assert forall i | 0 < i < |all| :: all[i] == rest[i - 1];
    }
  }

  // ---------- The text is the one of the spelling ----------

  lemma {:induction false} IndentIsSpaces(level: nat)
    ensures Indent(level) == Spaces(4 * level)
  {
    if level > 0 {
      IndentIsSpaces(level - 1);
    }
  }

  lemma LineIsGap(level: nat, pretty: bool)
    ensures When(pretty, [NEWLINE]) + When(pretty, Indent(level)) == Gap(level, pretty)
  {
    hide Indent, Spaces;
    IndentIsSpaces(level);
  }

  /** Compact or pretty, byte by byte: the serialized text of a value is that of its spelling. */
  lemma {:induction false} TextIsWritten(v: Value, level: nat, pretty: bool)
    requires WellFormed(v)
    ensures Text(v, level, pretty) == Written(Spelling(v, level, pretty))
    decreases v, 0
  {
    hide ItemsText, MembersText, SpelledItems, SpelledMembers, SpelledChars, Quoted, StringText, Indent, Digits, Gap;
    hide WrittenItems, WrittenMembers;
    match v
    case Str(s) => StringSpelled(s);
    case Array(items) =>
      if items == [] {
        ItemsUnfold(items, 0, level, pretty);
      } else {
        ItemsAreWritten(items, 0, level, pretty);
        Regroup(LBRACKET, When(pretty, [NEWLINE]), ItemsText(items, 0, level, pretty), When(pretty, Indent(level)),
                RBRACKET);
      }
    case Object(members) =>
      assert NulFreeNames(members) && Distinct(members);
      if members == [] {
        MembersUnfold(members, 0, level, pretty);
      } else {
        MembersAreWritten(members, 0, level, pretty);
        Regroup(LBRACE, When(pretty, [NEWLINE]), MembersText(members, 0, level, pretty), When(pretty, Indent(level)),
                RBRACE);
      }
    case _ =>
  }

  lemma Regroup(open: byte, nl: bytes, inner: bytes, indent: bytes, close: byte)
    ensures [open] + nl + inner + (indent + [close]) == [open] + (nl + inner + indent) + [close]
  {
  }

  lemma {:induction false} ItemsAreWritten(items: seq<Value>, k: nat, level: nat, pretty: bool)
    requires k < |items| && forall i | 0 <= i < |items| :: WellFormed(items[i])
    ensures When(pretty, [NEWLINE]) + ItemsText(items, k, level, pretty) + When(pretty, Indent(level))
            == WrittenItems(SpelledItems(items, k, level, pretty))
    decreases items, |items| - k
  {
    hide WellFormed, Text, Written, Spelling, Gap, Indent, WrittenItems, ItemsText, When;
    var all, rest := SpelledItems(items, k, level, pretty), SpelledItems(items, k + 1, level, pretty);
    var nl, last := When(pretty, [NEWLINE]), k == |items| - 1;
    assert all[1..] == rest;
    TextIsWritten(items[k], level + 1, pretty);
    ItemsUnfold(items, k, level, pretty);
    ItemsUnfold(items, k + 1, level, pretty);
    WrittenItemsUnfold(all);
    LineIsGap(level + 1, pretty);
    LineIsGap(level, pretty);
    if !last {
      ItemsAreWritten(items, k + 1, level, pretty);
    }
    WhenNot();
    Lines(nl, When(pretty, Indent(level + 1)), Text(items[k], level + 1, pretty), last,
          ItemsText(items, k + 1, level, pretty), When(pretty, Indent(level)), Gap(level + 1, pretty),
          Gap(level, pretty));
  }

  lemma WhenNot()
    ensures When(true, [COMMA]) == [COMMA] && When(false, [COMMA]) == []
  {
  }

  /** Line breaks in front of elements instead of behind them. */
  lemma Lines(nl: bytes, lead: bytes, text: bytes, last: bool, rest: bytes, indent: bytes, gap: bytes, end: bytes)
    requires nl + lead == gap && nl + indent == end && (last ==> rest == [])
    ensures last ==> nl + (lead + text + ([] + nl) + rest) + indent == gap + text + end
    ensures !last ==>
              nl + (lead + text + ([COMMA] + nl) + rest) + indent == gap + text + [] + [COMMA] + (nl + rest + indent)
  {
    assert nl + (lead + text) == gap + text;
    if last {
      assert nl + (lead + text + ([] + nl) + []) + indent == nl + (lead + text) + (nl + indent);
    } else {
      assert nl + (lead + text + ([COMMA] + nl) + rest) + indent == nl + (lead + text) + [COMMA] + (nl + rest + indent);
    }
  }

  lemma {:induction false} MembersAreWritten(members: seq<Entry<Value>>, k: nat, level: nat, pretty: bool)
    requires k < |members| && NulFreeNames(members) && Distinct(members)
    requires forall i | 0 <= i < |members| :: WellFormed(members[i].value)
    ensures When(pretty, [NEWLINE]) + MembersText(members, k, level, pretty) + When(pretty, Indent(level))
            == WrittenMembers(SpelledMembers(members, k, level, pretty))
    decreases members, |members| - k
  {
    hide WellFormed, Text, Written, Spelling, Gap, Indent, WrittenMembers, MembersText, When, Find, NulFree, Distinct;
    hide StringText, Quoted, SpelledChars;
    var all, rest := SpelledMembers(members, k, level, pretty), SpelledMembers(members, k + 1, level, pretty);
    var m, nl, last := members[k], When(pretty, [NEWLINE]), k == |members| - 1;
    assert all[1..] == rest;
    FindIsUnique(members, k);
    StringSpelled(m.name);
    TextIsWritten(m.value, level + 1, pretty);
    MembersUnfold(members, k, level, pretty);
    MembersUnfold(members, k + 1, level, pretty);
    WrittenMembersUnfold(all);
    LineIsGap(level + 1, pretty);
    LineIsGap(level, pretty);
    if !last {
      MembersAreWritten(members, k + 1, level, pretty);
    }
    WhenNot();
    var space := if pretty then [SPACE] else [];
    assert space == When(pretty, [SPACE]) by { SpaceWhen(pretty); }
    var text := Text(m.value, level + 1, pretty);
    KeyLine(When(pretty, Indent(level + 1)), Quoted(m.name), space, text, Gap(level + 1, pretty));
    Lines(nl, When(pretty, Indent(level + 1)), Quoted(m.name) + [COLON] + space + text, last,
          MembersText(members, k + 1, level, pretty), When(pretty, Indent(level)), Gap(level + 1, pretty),
          Gap(level, pretty));
  }

  lemma SpaceWhen(pretty: bool)
    ensures When(pretty, [SPACE]) == if pretty then [SPACE] else []
  {
  }

  lemma KeyLine(lead: bytes, key: bytes, space: bytes, text: bytes, gap: bytes)
    ensures lead + key + [COLON] + space + text == lead + (key + [COLON] + space + text)
    ensures gap + key + [] + [COLON] + space + text == gap + (key + [COLON] + space + text)
  {
  }

  // ---------- Reading back ----------

  /** The text of `v` anywhere in a text, followed by anything but a digit, parses to `v` up to its
      last byte if `v` fits below the nesting limit, and is refused otherwise. */
  lemma ValueReadsBack(s: bytes, i: nat, v: Value, level: nat, pretty: bool, nesting: nat)
    requires WellFormed(v) && Occurs(s, i, Text(v, level, pretty))
    requires !IsDigit(At(s, i + |Text(v, level, pretty)|))
    ensures i <= |s| && ValueAt(s, i, nesting) ==
            if NestsWithin(v, MAX_NESTING - nesting) then Done(v, i + |Text(v, level, pretty)|) else Fail
  {
    hide Text, WellFormed, NestsWithin, ValueAt, Written, Meaning, GoodDoc, Spelling;
    SpellingIsGood(v, level, pretty);
    TextIsWritten(v, level, pretty);
    WrittenIsRead(s, i, Spelling(v, level, pretty), nesting);
  }

  /** Reading a quoted string inverts writing it, anywhere in a text. */
  lemma QuotedReadsBack(s: bytes, i: nat, str: bytes)
    requires NulFree(str) && Occurs(s, i, Quoted(str))
    ensures GetQuotedString(s, i) == Some(Scanned(str, i + |Quoted(str)|))
  {
    hide GetQuotedString, GoodChars, SpelledChars, StringText, Quoted, Stored;
    StringSpelled(str);
    StringIsRead(s, i, SpelledChars(str));
  }

  // ---------- Documents ----------

  /** Parsing a serialized well-formed value returns exactly that value, members in the same order
      and the cursor on the final NUL, if and only if its height is within the limit. */
  lemma SerializedReadsBack(v: Value, pretty: bool)
    requires WellFormed(v)
    ensures DocumentAt(Text(v, 0, pretty)) ==
            if NestsWithin(v, MAX_NESTING) then Done(v, |Text(v, 0, pretty)|) else Fail
  {
    hide WellFormed, NestsWithin, ValueAt, Text, Written, Spelling, Meaning, GoodDoc;
    var s, d := Text(v, 0, pretty), Spelling(v, 0, pretty);
    SpellingIsGood(v, 0, pretty);
    TextIsWritten(v, 0, pretty);
    assert s == [] + [] + Written(d) + [];
    MarkIff(s, [], [], d, []);
    assert s[0..|s|] == s;
    ValueReadsBack(s, 0, v, 0, pretty, 0);
  }

  /** Any text that parses at all can be normalised: serializing what was parsed, in either
      layout, and parsing again gives the same value. */
  lemma ParsedReadsBack(s: bytes, pretty: bool)
    requires DocumentAt(s).Done?
    ensures var v := DocumentAt(s).value;
            DocumentAt(Text(v, 0, pretty)) == Done(v, |Text(v, 0, pretty)|)
  {
    hide WellFormed, NestsWithin, ValueAt, Text;
    ParsedIsWellFormed(s, if Occurs(s, 0, [0xEF, 0xBB, 0xBF]) then 3 else 0, 0);
    SerializedReadsBack(DocumentAt(s).value, pretty);
  }

  /** Arrays nested `n` deep around an empty one. */
  function Tower(n: nat): Value {
    if n == 0 then Array([]) else Array([Tower(n - 1)])
  }

  lemma {:induction false} TowerHeight(n: nat, h: int)
    ensures WellFormed(Tower(n)) && (NestsWithin(Tower(n), h) <==> n <= h)
    decreases n
  {
    if n > 0 {
      TowerHeight(n - 1, h - 1);
      assert Tower(n).items[0] == Tower(n - 1);
    }
  }

  /** The first value that is written but not read back. */
  lemma TooHighIsRefused(pretty: bool)
    ensures WellFormed(Tower(MAX_NESTING + 1)) && DocumentAt(Text(Tower(MAX_NESTING + 1), 0, pretty)) == Fail
    ensures var text := Text(Tower(MAX_NESTING), 0, pretty); DocumentAt(text) == Done(Tower(MAX_NESTING), |text|)
  {
    hide DocumentAt, Text, NestsWithin, WellFormed;
    hide Tower;
    TowerHeight(MAX_NESTING + 1, MAX_NESTING);
    TowerHeight(MAX_NESTING, MAX_NESTING);
    SerializedReadsBack(Tower(MAX_NESTING + 1), pretty);
    SerializedReadsBack(Tower(MAX_NESTING), pretty);
  }
}
