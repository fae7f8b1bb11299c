/** The parsing routines as loops over a cursor, proved against the functions of Parser. */
module Cursors {
  import opened Bytes
  import opened Utf8
  import opened ObjectTable
  import opened ArrayTable
  import opened JsonValue
  import opened StringCodec
  import opened Parser
  import opened Grammar
  import opened GrammarLaws

  ghost predicate Matches<T>(r: Option<T>, pos: nat, p: Parsed<T>) {
    match p
    case Fail => r.None?
    case Done(v, next) => r == Some(v) && pos == next
  }

  lemma NothingMatches<T>(pos: nat)
    ensures Matches<T>(None, pos, Fail)
  {
  }

  lemma KeepUtf8(out: bytes)
    ensures WellEncoded(out) ==> WellEncoded(CString(out))
  {
    if WellEncoded(out) {
      CStringKeepsUtf8(out);
    }
  }

  /** is_decimal, whose loop looks for x and X from the end. */
  method CheckDecimal(str: bytes) returns (ok: bool)
    ensures ok == IsDecimal(str)
  {
    if |str| > 1 && str[0] == ZERO && str[1] != DOT {
      return false;
    }
    if |str| > 2 && str[0] == MINUS && str[1] == ZERO && str[2] != DOT {
      return false;
    }
    var length := |str|;
    while length > 0
      invariant 0 <= length <= |str|
      invariant forall k | length <= k < |str| :: str[k] != 0x78 && str[k] != 0x58
    {
      length := length - 1;
      if str[length] == 0x78 || str[length] == 0x58 {
        return false;
      }
    }
    return true;
  }

  class Cursor {
    const text: bytes
    var pos: nat

    constructor (text: bytes)
      ensures this.text == text && pos == 0
    {
      this.text := text;
      pos := 0;
    }

    method SkipWhitespaces()
      requires pos <= |text|
      modifies this
      ensures pos == SkipWs(text, old(pos))
    {
      while IsSpace(At(text, pos))
        invariant pos <= |text| && SkipWs(text, pos) == SkipWs(text, old(pos))
        decreases |text| - pos
      {
        pos := pos + 1;
      }
    }

    method SkipOverQuotes() returns (ok: bool)
      requires pos <= |text|
      modifies this
      ensures old(pos) <= pos <= |text|
      ensures ok == SkipQuotes(text, old(pos)).Some?
      ensures ok ==> pos == SkipQuotes(text, old(pos)).value
    {
      if At(text, pos) != QUOTE {
        return false;
      }
      pos := pos + 1;
      while At(text, pos) != QUOTE
        invariant old(pos) < pos <= |text|
        invariant SkipQuotes(text, old(pos)) == SkipBody(text, pos)
        decreases |text| - pos
      {
        if At(text, pos) == 0 {
          return false;
        } else if At(text, pos) == BACKSLASH {
          pos := pos + 1;
          if At(text, pos) == 0 {
            return false;
          }
        }
        pos := pos + 1;
      }
      pos := pos + 1;
      return true;
    }

    /** Also: if the bytes between the quotes are valid UTF-8, so is the result. */
    method ReadQuotedString() returns (r: Option<bytes>)
      requires pos <= |text|
      modifies this
      ensures old(pos) <= pos <= |text|
      ensures match GetQuotedString(text, old(pos))
              case None => r.None?
              case Some(q) => r == Some(q.str) && pos == q.next
      ensures r.Some? && WellEncoded(text[old(pos) + 1..pos - 1]) ==> WellEncoded(r.value)
    {
      hide SkipBody, Unescape, CString, WellEncoded;
      var start := pos;
      var ok := SkipOverQuotes();
      if !ok {
        return None;
      }
      var len := pos - start - 2;
      var processed := ProcessString(text, start + 1, len);
      if processed.None? {
        return None;
      }
      KeepUtf8(processed.value);
      return Some(CString(processed.value));
    }

    method ReadBoolean() returns (r: Option<Value>)
      requires pos <= |text|
      modifies this
      ensures old(pos) <= pos <= |text| && Matches(r, pos, BooleanAt(text, old(pos)))
    {
      if Occurs(text, pos, TRUE_TOKEN) {
        pos := pos + |TRUE_TOKEN|;
        return Some(Bool(true));
      } else if Occurs(text, pos, FALSE_TOKEN) {
        pos := pos + |FALSE_TOKEN|;
        return Some(Bool(false));
      }
      return None;
    }

    method ReadNull() returns (r: Option<Value>)
      requires pos <= |text|
      modifies this
      ensures old(pos) <= pos <= |text| && Matches(r, pos, NullAt(text, old(pos)))
    {
      if Occurs(text, pos, NULL_TOKEN) {
        pos := pos + |NULL_TOKEN|;
        return Some(Null);
      }
      return None;
    }

    /** strtod on the integer fragment: the value, and the end of what was converted. */
    method ReadInteger() returns (n: int, end: nat)
      requires pos <= |text|
      ensures var from := if At(text, pos) == MINUS then pos + 1 else pos;
              var stop := DigitsEnd(text, from);
              && end == (if stop == from then pos else stop)
              && n == (if stop == from then 0
                       else if At(text, pos) == MINUS then -DigitsValue(text[from..stop])
                       else DigitsValue(text[from..stop]))
    {
      var from := if At(text, pos) == MINUS then pos + 1 else pos;
      end, n := from, 0;
      while IsDigit(At(text, end))
        invariant from <= end <= |text|
        invariant DigitsEnd(text, end) == DigitsEnd(text, from)
        invariant n == DigitsValue(text[from..end])
        decreases |text| - end
      {
        assert text[from..end + 1][..end - from] == text[from..end];
        n := 10 * n + (text[end] - ZERO);
        end := end + 1;
      }
      if end == from {
        return 0, pos;
      }
      return if At(text, pos) == MINUS then -n else n, end;
    }

    method ReadNumber() returns (r: Option<Value>)
      requires pos <= |text|
      modifies this
      ensures old(pos) <= pos <= |text| && Matches(r, pos, NumberAt(text, old(pos)))
    {
      hide DigitsValue;
      var n, end := ReadInteger();
      var decimal := CheckDecimal(text[pos..end]);
      if !decimal {
        return None;
      }
      pos := end;
      return Some(Number(n));
    }

    method ReadString() returns (r: Option<Value>)
      requires pos <= |text|
      modifies this
      ensures old(pos) <= pos <= |text| && Matches(r, pos, StringAt(text, old(pos)))
    {
      hide GetQuotedString, WellEncoded;
      var str := ReadQuotedString();
      if str.None? {
        return None;
      }
      return Some(Str(str.value));
    }

    method ReadValue(nesting: nat) returns (r: Option<Value>)
      requires pos <= |text|
      modifies this
      ensures old(pos) <= pos <= |text| && Matches(r, pos, ValueAt(text, old(pos), nesting))
      decreases |text| - pos, 2
    {
      hide ObjectAt, ArrayAt, StringAt, BooleanAt, NumberAt, NullAt, SkipWs, Matches;
      if nesting > MAX_NESTING {
        NothingMatches<Value>(pos);
        return None;
      }
      SkipWhitespaces();
      var c := At(text, pos);
      if c == LBRACE {
        var table;
        r, table := ReadObject(nesting + 1);
      } else if c == LBRACKET {
        var table;
        r, table := ReadArray(nesting + 1);
      } else if c == QUOTE {
        r := ReadString();
      } else if c == 0x66 || c == 0x74 {
        r := ReadBoolean();
      } else if c == MINUS || IsDigit(c) {
        r := ReadNumber();
      } else if c == 0x6E {
        r := ReadNull();
      } else {
        NothingMatches<Value>(pos);
        r := None;
      }
    }

    /** The table that holds the members is trimmed to their number. */
    method ReadObject(nesting: nat) returns (r: Option<Value>, output: JsonObject<Value>)
      requires pos <= |text|
      modifies this
      ensures old(pos) <= pos <= |text| && Matches(r, pos, ObjectAt(text, old(pos), nesting))
      ensures fresh(output)
      ensures r.Some? ==> output.Valid() && r == Some(Object(output.Entries())) && output.count == output.capacity
      decreases |text| - pos, 1
    {
      hide MembersAt, SkipWs;
      output := new JsonObject<Value>();
      if At(text, pos) != LBRACE {
        return None, output;
      }
      pos := pos + 1;
      SkipWhitespaces();
      if At(text, pos) == RBRACE {
        pos := pos + 1;
        return Some(Object([])), output;
      }
      var ok := ReadMembers(output, nesting);
      if !ok {
        return None, output;
      }
      SkipWhitespaces();
      if At(text, pos) != RBRACE {
        return None, output;
      }
      var members := output.Freeze();
      ok := output.Resize(output.count); // trim
      if !ok {
        return None, output;
      }
      pos := pos + 1;
      return Some(Object(members)), output;
    }

    /** The loop over the members; on success the table holds them in order. */
    method ReadMembers(output: JsonObject<Value>, nesting: nat) returns (ok: bool)
      requires pos <= |text| && output.Valid() && output.Entries() == []
      requires output.names == null && output.values == null
      modifies this, output
      ensures old(pos) <= pos <= |text|
      ensures output.Valid()
      ensures (output.names != null ==> fresh(output.names)) && (output.values != null ==> fresh(output.values))
      ensures match MembersAt(text, old(pos), nesting, [])
              case Fail => !ok
              case Done(members, next) => ok && output.Entries() == members && pos == next
      decreases |text| - pos, 1
    {
      hide MembersAt, MemberAt, AddEntry, SkipWs, Distinct;
      ok := true;
      ghost var target := MembersAt(text, pos, nesting, []);
      while At(text, pos) != 0
        invariant old(pos) <= pos <= |text| && output.Valid() && ok
        invariant output.names == null || fresh(output.names)
        invariant output.values == null || fresh(output.values)
        invariant target == MembersAt(text, pos, nesting, output.Entries())
        decreases |text| - pos
      {
        MembersStep(text, pos, nesting, output.Entries());
        var m := ReadMember(nesting);
        if m.None? {
          return false;
        }
        var added := output.AddN(m.value.name, m.value.value);
        if !added {
          return false;
        }
        SkipWhitespaces();
        if At(text, pos) != COMMA {
          return;
        }
        pos := pos + 1;
        SkipWhitespaces();
      }
      MembersStep(text, pos, nesting, output.Entries());
    }

    method ReadMember(nesting: nat) returns (r: Option<Entry<Value>>)
      requires pos <= |text|
      modifies this
      ensures old(pos) <= pos <= |text| && Matches(r, pos, MemberAt(text, old(pos), nesting))
      ensures r.Some? ==> old(pos) < pos
      decreases |text| - pos, 0
    {
      hide GetQuotedString, ValueAt, SkipWs, WellEncoded;
      var key := ReadQuotedString();
      if key.None? {
        return None;
      }
      SkipWhitespaces();
      if At(text, pos) != COLON {
        return None;
      }
      pos := pos + 1;
      var value := ReadValue(nesting);
      if value.None? {
        return None;
      }
      return Some(Entry(key.value, value.value));
    }

    /** The buffer that holds the items is trimmed to their number. */
    method ReadArray(nesting: nat) returns (r: Option<Value>, output: JsonArray<Value>)
      requires pos <= |text|
      modifies this
      ensures old(pos) <= pos <= |text| && Matches(r, pos, ArrayAt(text, old(pos), nesting))
      ensures fresh(output)
      ensures r.Some? ==> output.Valid() && r == Some(Array(output.Contents())) && output.count == output.capacity
      decreases |text| - pos, 1
    {
      hide ItemsAt, SkipWs;
      output := new JsonArray<Value>();
      if At(text, pos) != LBRACKET {
        return None, output;
      }
      pos := pos + 1;
      SkipWhitespaces();
      if At(text, pos) == RBRACKET {
        pos := pos + 1;
        return Some(Array([])), output;
      }
      var ok := ReadItems(output, nesting);
      if !ok {
        return None, output;
      }
      SkipWhitespaces();
      if At(text, pos) != RBRACKET {
        return None, output;
      }
      ok := output.Resize(output.count); // trim
      if !ok {
        return None, output;
      }
      pos := pos + 1;
      return Some(Array(output.items[..output.count])), output;
    }

    method ReadItems(output: JsonArray<Value>, nesting: nat) returns (ok: bool)
      requires pos <= |text| && output.Valid() && output.Contents() == [] && output.items == null
      modifies this, output
      ensures old(pos) <= pos <= |text|
      ensures output.Valid() && (output.items != null ==> fresh(output.items))
      ensures match ItemsAt(text, old(pos), nesting, [])
              case Fail => !ok
              case Done(items, next) => ok && output.Contents() == items && pos == next
      decreases |text| - pos, 3
    {
      hide ItemsAt, ValueAt, SkipWs;
      ok := true;
      ghost var target := ItemsAt(text, pos, nesting, []);
      while At(text, pos) != 0
        invariant old(pos) <= pos <= |text| && output.Valid() && ok
        invariant output.items == null || fresh(output.items)
        invariant target == ItemsAt(text, pos, nesting, output.Contents())
        decreases |text| - pos
      {
        ItemsStep(text, pos, nesting, output.Contents());
        var value := ReadValue(nesting);
        if value.None? {
          return false;
        }
        var added := output.Add(value.value);
        SkipWhitespaces();
        if At(text, pos) != COMMA {
          return;
        }
        pos := pos + 1;
        SkipWhitespaces();
      }
      ItemsStep(text, pos, nesting, output.Contents());
    }
  }

  /** json_parse_string: the value is the one the text is a text of, if it fits; a lone minus sign gives 0. */
  method ParseString(text: bytes) returns (r: Option<Value>)
    ensures match DocumentAt(text) case Fail => r.None? case Done(v, _) => r == Some(v)
    ensures forall v :: r == Some(v)
              <==> if IsLoneMinus(text) then v == Number(0) else IsTextOf(text, v) && Fits(v, MAX_NESTING)
  {
    hide ValueAt, IsTextOf, Fits, IsLoneMinus;
    forall v ensures (DocumentAt(text).Done? && DocumentAt(text).value == v)
                     <==> if IsLoneMinus(text) then v == Number(0) else IsTextOf(text, v) && Fits(v, MAX_NESTING) {
      DocumentIff(text, v);
    }
    var cursor := new Cursor(text);
    if At(text, 0) == 0xEF && At(text, 1) == 0xBB && At(text, 2) == 0xBF {
      cursor.pos := 3;
    }
    r := cursor.ReadValue(0);
  }
}
