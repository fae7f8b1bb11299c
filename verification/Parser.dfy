/** The recursive-descent parser, which moves a cursor over a NUL-terminated text. */
module Parser {
  import opened Bytes
  import opened ObjectTable
  import opened JsonValue
  import opened StringCodec

  const MAX_NESTING: nat := 2048

  datatype Parsed<+T> = Fail | Done(value: T, next: nat)

  // ---------- What each parsing routine finds at a position ----------

  predicate IsDigit(b: byte) {
    0x30 <= b <= 0x39
  }

  function SkipWs(s: bytes, i: nat): (j: nat)
    requires i <= |s|
    ensures i <= j <= |s| && !IsSpace(At(s, j))
    decreases |s| - i
  {
    if IsSpace(At(s, i)) then SkipWs(s, i + 1) else i
  }

  function DigitsEnd(s: bytes, i: nat): (j: nat)
    requires i <= |s|
    ensures i <= j <= |s|
    decreases |s| - i
  {
    if IsDigit(At(s, i)) then DigitsEnd(s, i + 1) else i
  }

  function DigitsValue(ds: bytes): int {
    if ds == [] then 0 else 10 * DigitsValue(ds[..|ds| - 1]) + (ds[|ds| - 1] - ZERO)
  }

  /** is_decimal: no leading zeros and no hexadecimal marker. */
  predicate IsDecimal(str: bytes) {
    && !(|str| > 1 && str[0] == ZERO && str[1] != DOT)
    && !(|str| > 2 && str[0] == MINUS && str[1] == ZERO && str[2] != DOT)
    && 0x78 !in str && 0x58 !in str
  }

  /** An optionally signed run of digits; like strtod, a sign without digits converts nothing, and
      then the cursor stays where it is and the value is 0. */
  function NumberAt(s: bytes, i: nat): (r: Parsed<Value>)
    requires i <= |s|
    ensures r.Done? ==> i <= r.next <= |s|
  {
    var from := if At(s, i) == MINUS then i + 1 else i;
    var end := DigitsEnd(s, from);
    if end == from then Done(Number(0), i)
    else if !IsDecimal(s[i..end]) then Fail
    else
      var n := DigitsValue(s[from..end]);
      Done(Number(if At(s, i) == MINUS then -n else n), end)
  }

  function BooleanAt(s: bytes, i: nat): (r: Parsed<Value>)
    ensures r.Done? ==> i <= r.next <= |s|
  {
    if Occurs(s, i, TRUE_TOKEN) then Done(Bool(true), i + |TRUE_TOKEN|)
    else if Occurs(s, i, FALSE_TOKEN) then Done(Bool(false), i + |FALSE_TOKEN|)
    else Fail
  }

  function NullAt(s: bytes, i: nat): (r: Parsed<Value>)
    ensures r.Done? ==> i <= r.next <= |s|
  {
    if Occurs(s, i, NULL_TOKEN) then Done(Null, i + |NULL_TOKEN|) else Fail
  }

  function StringAt(s: bytes, i: nat): (r: Parsed<Value>)
    ensures r.Done? ==> i <= r.next <= |s|
  {
    match GetQuotedString(s, i)
    case None => Fail
    case Some(q) => Done(Str(q.str), q.next)
  }

  function ValueAt(s: bytes, i: nat, nesting: nat): (r: Parsed<Value>)
    requires i <= |s|
    ensures r.Done? ==> i <= r.next <= |s|
    decreases |s| - i, 2
  {
    if nesting > MAX_NESTING then Fail
    else
      var j := SkipWs(s, i);
      var c := At(s, j);
      if c == LBRACE then ObjectAt(s, j, nesting + 1)
      else if c == LBRACKET then ArrayAt(s, j, nesting + 1)
      else if c == QUOTE then StringAt(s, j)
      else if c == 0x66 || c == 0x74 then BooleanAt(s, j)
      else if c == MINUS || IsDigit(c) then NumberAt(s, j)
      else if c == 0x6E then NullAt(s, j)
      else Fail
  }

  function ObjectAt(s: bytes, i: nat, nesting: nat): (r: Parsed<Value>)
    requires i <= |s|
    ensures r.Done? ==> i <= r.next <= |s|
    decreases |s| - i, 1
  {
    if At(s, i) != LBRACE then Fail
    else
      var j := SkipWs(s, i + 1);
      if At(s, j) == RBRACE then Done(Object([]), j + 1)
      else
        match MembersAt(s, j, nesting, [])
        case Fail => Fail
        case Done(members, k) =>
          var e := SkipWs(s, k);
          if At(s, e) != RBRACE || members == [] then Fail else Done(Object(members), e + 1)
  }

  function MembersAt(s: bytes, i: nat, nesting: nat, acc: seq<Entry<Value>>): (r: Parsed<seq<Entry<Value>>>)
    requires i <= |s|
    ensures r.Done? ==> i <= r.next <= |s|
    decreases |s| - i, 1
  {
    if At(s, i) == 0 then Done(acc, i)
    else
      match MemberAt(s, i, nesting)
      case Fail => Fail
      case Done(m, k) =>
        match AddEntry(acc, m.name, m.value)
        case None => Fail
        case Some(acc') =>
          var e := SkipWs(s, k);
          if At(s, e) != COMMA then Done(acc', e)
          else MembersAt(s, SkipWs(s, e + 1), nesting, acc')
  }

  function MemberAt(s: bytes, i: nat, nesting: nat): (r: Parsed<Entry<Value>>)
    requires i <= |s|
    ensures r.Done? ==> i < r.next <= |s|
    decreases |s| - i, 0
  {
    match GetQuotedString(s, i)
    case None => Fail
    case Some(q) =>
      var c := SkipWs(s, q.next);
      if At(s, c) != COLON then Fail
      else
        match ValueAt(s, c + 1, nesting)
        case Fail => Fail
        case Done(v, k) => Done(Entry(q.str, v), k)
  }

  function ArrayAt(s: bytes, i: nat, nesting: nat): (r: Parsed<Value>)
    requires i <= |s|
    ensures r.Done? ==> i <= r.next <= |s|
    decreases |s| - i, 1
  {
    if At(s, i) != LBRACKET then Fail
    else
      var j := SkipWs(s, i + 1);
      if At(s, j) == RBRACKET then Done(Array([]), j + 1)
      else
        match ItemsAt(s, j, nesting, [])
        case Fail => Fail
        case Done(items, k) =>
          var e := SkipWs(s, k);
          if At(s, e) != RBRACKET || items == [] then Fail else Done(Array(items), e + 1)
  }

  function ItemsAt(s: bytes, i: nat, nesting: nat, acc: seq<Value>): (r: Parsed<seq<Value>>)
    requires i <= |s|
    ensures r.Done? ==> i <= r.next <= |s|
    decreases |s| - i, 3
  {
    if At(s, i) == 0 then Done(acc, i)
    else
      match ValueAt(s, i, nesting)
      case Fail => Fail
      case Done(v, k) =>
        var e := SkipWs(s, k);
        if At(s, e) != COMMA then Done(acc + [v], e)
        else ItemsAt(s, SkipWs(s, e + 1), nesting, acc + [v])
  }

  /** json_parse_string: a leading byte order mark is skipped. */
  function DocumentAt(s: bytes): Parsed<Value> {
    ValueAt(s, if Occurs(s, 0, [0xEF, 0xBB, 0xBF]) then 3 else 0, 0)
  }

  /** One round of the loop over the members. */
  lemma MembersStep(s: bytes, i: nat, nesting: nat, acc: seq<Entry<Value>>)
    requires i <= |s|
    ensures MembersAt(s, i, nesting, acc) ==
            if At(s, i) == 0 then Done(acc, i)
            else
              match MemberAt(s, i, nesting)
              case Fail => Fail
              case Done(m, k) =>
                match AddEntry(acc, m.name, m.value)
                case None => Fail
                case Some(acc') =>
                  var e := SkipWs(s, k);
                  if At(s, e) != COMMA then Done(acc', e)
                  else MembersAt(s, SkipWs(s, e + 1), nesting, acc')
  {
    hide MemberAt;
  }

  /** One round of the loop over the items. */
  lemma ItemsStep(s: bytes, i: nat, nesting: nat, acc: seq<Value>)
    requires i <= |s|
    ensures ItemsAt(s, i, nesting, acc) ==
            if At(s, i) == 0 then Done(acc, i)
            else
              match ValueAt(s, i, nesting)
              case Fail => Fail
              case Done(v, k) =>
                var e := SkipWs(s, k);
                if At(s, e) != COMMA then Done(acc + [v], e)
                else ItemsAt(s, SkipWs(s, e + 1), nesting, acc + [v])
  {
    hide ValueAt;
  }

  // ---------- What every parsed value satisfies ----------

  ghost predicate GoodEntries(es: seq<Entry<Value>>, room: int) {
    && Distinct(es)
    && forall k | 0 <= k < |es| :: NulFree(es[k].name) && WellFormed(es[k].value) && NestsWithin(es[k].value, room)
  }

  ghost predicate GoodItems(items: seq<Value>, room: int) {
    forall k | 0 <= k < |items| :: WellFormed(items[k]) && NestsWithin(items[k], room)
  }

  /** Whatever the parser returns has distinct names in each object, C strings only, and never
      nests deeper than the limit leaves room for. */
  lemma {:induction false} ParsedIsWellFormed(s: bytes, i: nat, nesting: nat)
    requires i <= |s| && ValueAt(s, i, nesting).Done?
    ensures var v := ValueAt(s, i, nesting).value;
            WellFormed(v) && NestsWithin(v, MAX_NESTING - nesting)
    decreases |s| - i, 2
  {
    var j := SkipWs(s, i);
    var c := At(s, j);
    if c == LBRACE {
      ObjectIsWellFormed(s, j, nesting + 1);
    } else if c == LBRACKET {
      ArrayIsWellFormed(s, j, nesting + 1);
    }
  }

  lemma {:induction false} ObjectIsWellFormed(s: bytes, i: nat, nesting: nat)
    requires i <= |s| && 0 < nesting <= MAX_NESTING + 1 && ObjectAt(s, i, nesting).Done?
    ensures var v := ObjectAt(s, i, nesting).value;
            WellFormed(v) && NestsWithin(v, MAX_NESTING - nesting + 1)
    decreases |s| - i, 1
  {
    hide GetQuotedString;
    var j := SkipWs(s, i + 1);
    if At(s, j) != RBRACE {
      MembersAreWellFormed(s, j, nesting, []);
    }
  }

  lemma {:induction false} MembersAreWellFormed(s: bytes, i: nat, nesting: nat, acc: seq<Entry<Value>>)
    requires i <= |s| && MembersAt(s, i, nesting, acc).Done?
    requires GoodEntries(acc, MAX_NESTING - nesting)
    ensures GoodEntries(MembersAt(s, i, nesting, acc).value, MAX_NESTING - nesting)
    decreases |s| - i, 1
  {
    hide GoodEntries, SkipWs, MemberAt, AddEntry;
    if At(s, i) != 0 {
      var m := MemberAt(s, i, nesting).value;
      MemberIsWellFormed(s, i, nesting);
      var acc' := AddEntry(acc, m.name, m.value).value;
      EntryAdded(acc, m, MAX_NESTING - nesting);
      var e := SkipWs(s, MemberAt(s, i, nesting).next);
      if At(s, e) == COMMA {
        MembersAreWellFormed(s, SkipWs(s, e + 1), nesting, acc');
      }
    }
  }

  lemma EntryAdded(acc: seq<Entry<Value>>, m: Entry<Value>, room: int)
    requires GoodEntries(acc, room) && AddEntry(acc, m.name, m.value).Some?
    requires NulFree(m.name) && WellFormed(m.value) && NestsWithin(m.value, room)
    ensures GoodEntries(AddEntry(acc, m.name, m.value).value, room)
  {
    hide WellFormed, NestsWithin, NulFree;
    assert m == Entry(m.name, m.value);
    DistinctAfterAppend(acc, m.name, m.value);
  }

  lemma {:induction false} MemberIsWellFormed(s: bytes, i: nat, nesting: nat)
    requires i <= |s| && MemberAt(s, i, nesting).Done?
    ensures var m := MemberAt(s, i, nesting).value;
            NulFree(m.name) && WellFormed(m.value) && NestsWithin(m.value, MAX_NESTING - nesting)
    decreases |s| - i, 0
  {
    hide GetQuotedString;
    var q := GetQuotedString(s, i).value;
    ParsedIsWellFormed(s, SkipWs(s, q.next) + 1, nesting);
  }

  lemma {:induction false} ArrayIsWellFormed(s: bytes, i: nat, nesting: nat)
    requires i <= |s| && 0 < nesting <= MAX_NESTING + 1 && ArrayAt(s, i, nesting).Done?
    ensures var v := ArrayAt(s, i, nesting).value;
            WellFormed(v) && NestsWithin(v, MAX_NESTING - nesting + 1)
    decreases |s| - i, 1
  {
    var j := SkipWs(s, i + 1);
    if At(s, j) != RBRACKET {
      ItemsAreWellFormed(s, j, nesting, []);
    }
  }

  lemma {:induction false} ItemsAreWellFormed(s: bytes, i: nat, nesting: nat, acc: seq<Value>)
    requires i <= |s| && ItemsAt(s, i, nesting, acc).Done?
    requires GoodItems(acc, MAX_NESTING - nesting)
    ensures GoodItems(ItemsAt(s, i, nesting, acc).value, MAX_NESTING - nesting)
    decreases |s| - i, 3
  {
    if At(s, i) != 0 {
      var v := ValueAt(s, i, nesting).value;
      ParsedIsWellFormed(s, i, nesting);
      assert GoodItems(acc + [v], MAX_NESTING - nesting);
      var e := SkipWs(s, ValueAt(s, i, nesting).next);
      if At(s, e) == COMMA {
        ItemsAreWellFormed(s, SkipWs(s, e + 1), nesting, acc + [v]);
      }
    }
  }
}
