/** Scanning pieces of JSON text the way the pretty printer must understand them, and what strings, numbers
    and brackets contribute. */
module TextScan {
  import opened Bytes
  import opened PrettyPrint
  import SquirrelString
  import Utf8

  ghost predicate Unquoted(s: bytes) {
    forall k | 0 <= k < |s| :: s[k] != QUOTE && s[k] != BACKSLASH
  }

  ghost predicate NumberLike(s: bytes) {
    Unquoted(s) && forall k | 0 <= k < |s| :: !IsBlank(s[k]) && !Opens(s[k]) && !Closes(s[k])
  }

  // ---------- Scanning a piece of text ----------

  datatype Scan = Scan(mode: Mode, depth: int, previous: byte)

  const OUTSET := Scan(Outside, 0, 0)

  /** None at a blank between tokens and at a bracket that closes nothing; strictly, also at a quote
      that the printer misreads. */
  function ScanByte(strict: bool, s: Scan, c: byte): Option<Scan> {
    if strict && c == QUOTE && s.previous == BACKSLASH && !s.mode.Escaped? then None
    else if s.mode.Outside? && (IsBlank(c) || (Closes(c) && s.depth <= 0)) then None
    else Some(Scan(Lex(s.mode, c), s.depth + (if s.mode.Outside? then Nests(c) else 0), c))
  }

  function Scanned(strict: bool, p: bytes, s: Scan): Option<Scan>
    decreases |p|
  {
    if p == [] then Some(s)
    else
      match ScanByte(strict, s, p[0])
      case None => None
      case Some(s') => Scanned(strict, p[1..], s')
  }

  function Chain(strict: bool, s: Option<Scan>, p: bytes): Option<Scan> {
    match s
    case None => None
    case Some(s') => Scanned(strict, p, s')
  }

  lemma {:induction false} ScanConcat(strict: bool, a: bytes, b: bytes, s: Scan)
    ensures Scanned(strict, a + b, s) == Chain(strict, Scanned(strict, a, s), b)
    decreases |a|
  {
    hide ScanByte;
    if a == [] {
      assert a + b == b;
    } else {
      assert (a + b)[1..] == a[1..] + b;
      match ScanByte(strict, s, a[0])
      case None =>
      case Some(s') => ScanConcat(strict, a[1..], b, s');
    }
  }

  lemma ScanOne(strict: bool, c: byte, s: Scan)
    ensures Scanned(strict, [c], s) == ScanByte(strict, s, c)
  {
    assert [c][1..] == [];
  }

  /** A text that can be scanned from the outset is clean but for misread quotes; strictly, clean. */
  lemma {:induction false} ScanReaches(strict: bool, t: bytes, n: nat)
    requires n <= |t| && Scanned(strict, t, OUTSET).Some?
    ensures Scanned(strict, t[..n], OUTSET) == Some(Scan(LexAt(t, n), Nesting(t, n), Previous(t, n)))
    ensures n < |t| ==> (CleanAt(t, n) <==> !Misread(t, n)) && (strict ==> CleanAt(t, n))
    decreases n
  {
    hide Scanned;
    if n == 0 {
      ScanNothing(strict, OUTSET);
    } else {
      ScanReaches(strict, t, n - 1);
      assert t[..n] == t[..n - 1] + [t[n - 1]];
      ScanConcat(strict, t[..n - 1], [t[n - 1]], OUTSET);
      ScanOne(strict, t[n - 1], Scan(LexAt(t, n - 1), Nesting(t, n - 1), Previous(t, n - 1)));
      assert t == t[..n] + t[n..];
      ScanConcat(strict, t[..n], t[n..], OUTSET);
    }
    if n < |t| {
      ScanNextByte(strict, t, n);
    }
  }

  lemma ScanNothing(strict: bool, s: Scan)
    ensures Scanned(strict, [], s) == Some(s)
  {
  }

  lemma ScanNextByte(strict: bool, t: bytes, n: nat)
    requires n < |t| && Scanned(strict, t, OUTSET).Some?
    requires Scanned(strict, t[..n], OUTSET) == Some(Scan(LexAt(t, n), Nesting(t, n), Previous(t, n)))
    ensures (CleanAt(t, n) <==> !Misread(t, n)) && (strict ==> CleanAt(t, n))
  {
    hide Scanned, LexAt, Nesting, Previous;
    assert t == t[..n] + ([t[n]] + t[n + 1..]);
    var s := Scan(LexAt(t, n), Nesting(t, n), Previous(t, n));
    ScanConcat(strict, t[..n], [t[n]] + t[n + 1..], OUTSET);
    ScanConcat(strict, [t[n]], t[n + 1..], s);
    ScanOne(strict, t[n], s);
  }

  // ---------- Pieces that leave the scan where it was ----------

  function Last(p: bytes, previous: byte): byte {
    if p == [] then previous else p[|p| - 1]
  }

  /** What may stand in front of a quote. */
  predicate Passes(strict: bool, previous: byte) {
    strict ==> previous != BACKSLASH
  }

  /** Scanned without trouble in this mode at any depth, back to the same mode and depth. */
  ghost predicate Neat(strict: bool, p: bytes, m: Mode) {
    forall k: nat, b: byte | Passes(strict, b) :: NeatFrom(strict, p, m, k, b)
  }

  ghost predicate NeatFrom(strict: bool, p: bytes, m: Mode, k: nat, b: byte) {
    Scanned(strict, p, Scan(m, k, b)) == Some(Scan(m, k, Last(p, b))) && Passes(strict, Last(p, b))
  }

  lemma NeatConcat(strict: bool, a: bytes, b: bytes, m: Mode)
    requires Neat(strict, a, m) && Neat(strict, b, m)
    ensures Neat(strict, a + b, m)
  {
    hide Scanned;
    forall k: nat, c: byte | Passes(strict, c) ensures NeatFrom(strict, a + b, m, k, c) {
      assert NeatFrom(strict, a, m, k, c) && NeatFrom(strict, b, m, k, Last(a, c));
      ScanConcat(strict, a, b, Scan(m, k, c));
    }
  }

  lemma NeatNothing(strict: bool, m: Mode)
    ensures Neat(strict, [], m)
  {
    forall k: nat, b: byte | Passes(strict, b) ensures NeatFrom(strict, [], m, k, b) {
    }
  }

  lemma NeatByte(strict: bool, c: byte, m: Mode)
    requires !m.Escaped? && c != QUOTE && c != BACKSLASH
    requires m.Outside? ==> !IsBlank(c) && !Opens(c) && !Closes(c)
    ensures Neat(strict, [c], m)
  {
    forall k: nat, b: byte | Passes(strict, b) ensures NeatFrom(strict, [c], m, k, b) {
      ScanOne(strict, c, Scan(m, k, b));
    }
  }

  lemma {:induction false} NeatBytes(strict: bool, p: bytes, m: Mode)
    requires !m.Escaped? && Unquoted(p) && (m.Outside? ==> NumberLike(p))
    ensures Neat(strict, p, m)
    decreases |p|
  {
    hide Neat;
    if p == [] {
      NeatNothing(strict, m);
    } else {
      NeatByte(strict, p[0], m);
      assert p == [p[0]] + p[1..];
      NeatBytes(strict, p[1..], m);
      NeatConcat(strict, [p[0]], p[1..], m);
    }
  }

  /** Quotes around something neat inside. */
  lemma NeatQuoted(strict: bool, body: bytes)
    requires Neat(strict, body, Inside)
    ensures Neat(strict, [QUOTE] + body + [QUOTE], Outside)
  {
    hide Scanned;
    forall k: nat, b: byte | Passes(strict, b) ensures NeatFrom(strict, [QUOTE] + body + [QUOTE], Outside, k, b) {
      assert NeatFrom(strict, body, Inside, k, QUOTE);
      ScanConcat(strict, [QUOTE] + body, [QUOTE], Scan(Outside, k, b));
      ScanConcat(strict, [QUOTE], body, Scan(Outside, k, b));
      ScanOne(strict, QUOTE, Scan(Outside, k, b));
      ScanOne(strict, QUOTE, Scan(Inside, k, Last(body, QUOTE)));
    }
  }

  /** Brackets around something neat outside. */
  lemma NeatEnclosed(strict: bool, open: byte, body: bytes, close: byte)
    requires Neat(strict, body, Outside) && Opens(open) && Closes(close)
    ensures Neat(strict, [open] + body + [close], Outside)
  {
    hide Scanned;
    forall k: nat, b: byte | Passes(strict, b) ensures NeatFrom(strict, [open] + body + [close], Outside, k, b) {
      assert NeatFrom(strict, body, Outside, k + 1, open);
      ScanConcat(strict, [open] + body, [close], Scan(Outside, k, b));
      ScanConcat(strict, [open], body, Scan(Outside, k, b));
      ScanOne(strict, open, Scan(Outside, k, b));
      ScanOne(strict, close, Scan(Outside, k + 1, Last(body, open)));
    }
  }

  // ---------- String bodies ----------

  /** What may stand between the quotes of a string: no quote in it closes the string, and no escape is left
      open at its end. */
  predicate StringBody(p: bytes, m: Mode := Inside)
    decreases |p|
  {
    if p == [] then m.Inside? else !Lex(m, p[0]).Outside? && StringBody(p[1..], Lex(m, p[0]))
  }

  predicate EndsInBackslash(p: bytes) {
    p != [] && p[|p| - 1] == BACKSLASH
  }

  /** Inside a body no quote is misread. */
  lemma {:induction false} BodyScans(strict: bool, p: bytes, m: Mode, k: nat, b: byte)
    requires StringBody(p, m) && !m.Outside?
    ensures Scanned(strict, p, Scan(m, k, b)) == Some(Scan(Inside, k, Last(p, b)))
    decreases |p|
  {
    if p != [] {
      BodyScans(strict, p[1..], Lex(m, p[0]), k, p[0]);
    }
  }

  lemma {:induction false} BodyConcat(a: bytes, b: bytes, m: Mode)
    requires StringBody(a, m) && StringBody(b)
    ensures StringBody(a + b, m)
    decreases |a|
  {
    if a == [] {
      assert a + b == b;
    } else {
      assert (a + b)[1..] == a[1..] + b;
      BodyConcat(a[1..], b, Lex(m, a[0]));
    }
  }

  lemma {:induction false} UnquotedIsBody(p: bytes)
    requires Unquoted(p)
    ensures StringBody(p)
    decreases |p|
  {
    if p != [] {
      UnquotedIsBody(p[1..]);
    }
  }

  /** An escape goes through Escaped and comes back to Inside. */
  lemma EscapeIsBody(c: byte)
    ensures StringBody(SquirrelString.ByteEscape(c))
    ensures EndsInBackslash(SquirrelString.ByteEscape(c)) <==> c == BACKSLASH
    ensures SquirrelString.ByteEscape(c) != []
  {
    var e := SquirrelString.ByteEscape(c);
    if |e| == 2 {
      assert StringBody(e[1..], Escaped) by { assert e[1..][1..] == []; }
    } else if |e| == 6 {
      UnquotedIsBody(e[2..]);
      assert e[1..][1..] == e[2..];
      assert StringBody(e[1..], Escaped);
    }
  }

  /** The data from `i` on holds no multi-byte group that takes a quote or backslash along. */
  ghost predicate PlainGroups(data: bytes, i: nat)
    decreases |data| - i
  {
    if i >= |data| then true
    else
      var n := if data[i] < 0x80 then 0 else SquirrelString.GroupLength(data[i]);
      if n == 0 then PlainGroups(data, i + 1)
      else i + n <= |data| ==> Unquoted(data[i..i + n]) && PlainGroups(data, i + n)
  }

  /** Then what is written for it is a string body, whatever bytes are dropped. */
  lemma {:induction false} PlainGroupsGiveBody(data: bytes, i: nat)
    requires PlainGroups(data, i) && SquirrelString.EncodedFrom(data, i).Some?
    ensures StringBody(SquirrelString.EncodedFrom(data, i).value)
    decreases |data| - i
  {
    hide SquirrelString.AsciiEscape, SquirrelString.GroupLength, StringBody, Unquoted;
    if i >= |data| {
      EmptyBody();
    } else if data[i] < 0x80 {
      PlainGroupsGiveBody(data, i + 1);
      EscapeIsBody(data[i]);
      BodyConcat(SquirrelString.AsciiEscape(data[i]), SquirrelString.EncodedFrom(data, i + 1).value, Inside);
    } else {
      var n := SquirrelString.GroupLength(data[i]);
      if n == 0 {
        PlainGroupsGiveBody(data, i + 1);
      } else {
        PlainGroupsGiveBody(data, i + n);
        UnquotedIsBody(data[i..i + n]);
        BodyConcat(data[i..i + n], SquirrelString.EncodedFrom(data, i + n).value, Inside);
      }
    }
  }

  lemma EmptyBody()
    ensures StringBody([])
  {
  }

  lemma {:induction false} EscapedIsBody(data: bytes)
    ensures StringBody(SquirrelString.BytewiseEscape(data))
    ensures EndsInBackslash(SquirrelString.BytewiseEscape(data)) <==> EndsInBackslash(data)
    ensures SquirrelString.BytewiseEscape(data) == [] <==> data == []
    decreases |data|
  {
    hide StringBody, SquirrelString.ByteEscape;
    if data == [] {
      EmptyBody();
    } else {
      EscapeIsBody(data[0]);
      EscapedIsBody(data[1..]);
      BodyConcat(SquirrelString.ByteEscape(data[0]), SquirrelString.BytewiseEscape(data[1..]), Inside);
    }
  }

  /** Valid UTF-8 is written as a string body that ends in a backslash exactly if the data does. */
  lemma ValidGivesBody(data: bytes)
    requires Utf8.ValidRange(data, 0, |data|)
    ensures var body := SquirrelString.EncodedFrom(data, 0);
            body.Some? && StringBody(body.value) && (EndsInBackslash(body.value) <==> EndsInBackslash(data))
  {
    hide Utf8.ValidRange, SquirrelString.EncodedFrom, SquirrelString.BytewiseEscape, StringBody;
    SquirrelString.ValidIsEncodedBytewise(data, 0);
    assert data[0..] == data;
    EscapedIsBody(data);
  }

  // ---------- Clean texts can be scanned ----------

  lemma {:induction false} CleanScans(t: bytes, n: nat)
    requires Clean(t) && n <= |t|
    ensures Scanned(true, t[..n], OUTSET) == Some(Scan(LexAt(t, n), Nesting(t, n), Previous(t, n)))
    decreases n
  {
    hide Scanned;
    if n == 0 {
      ScanNothing(true, OUTSET);
    } else {
      CleanScans(t, n - 1);
      assert CleanAt(t, n - 1);
      assert t[..n] == t[..n - 1] + [t[n - 1]];
      ScanConcat(true, t[..n - 1], [t[n - 1]], OUTSET);
      ScanOne(true, t[n - 1], Scan(LexAt(t, n - 1), Nesting(t, n - 1), Previous(t, n - 1)));
    }
  }

  // ---------- Good and bad pieces ----------

  /** A strict scan that starts between tokens stops inside the piece, at a misread quote. */
  ghost predicate Bad(p: bytes) {
    forall k: nat, b: byte | b != BACKSLASH :: StopsFrom(p, k, b)
  }

  ghost predicate StopsFrom(p: bytes, k: nat, b: byte) {
    Scanned(true, p, Scan(Outside, k, b)) == None
  }

  ghost predicate Verdict(strict: bool, p: bytes, good: bool) {
    if strict && !good then Bad(p) else Neat(strict, p, Outside)
  }

  lemma VerdictConcat(strict: bool, a: bytes, ga: bool, b: bytes, gb: bool)
    requires Verdict(strict, a, ga) && Verdict(strict, b, gb)
    ensures Verdict(strict, a + b, ga && gb)
  {
    if !strict || (ga && gb) {
      NeatConcat(strict, a, b, Outside);
    } else {
      hide Scanned;
      forall k: nat, c: byte | c != BACKSLASH ensures StopsFrom(a + b, k, c) {
        ScanConcat(true, a, b, Scan(Outside, k, c));
        if ga {
          assert NeatFrom(true, a, Outside, k, c);
          assert StopsFrom(b, k, Last(a, c));
        } else {
          assert StopsFrom(a, k, c);
        }
      }
    }
  }

  lemma VerdictEnclosed(strict: bool, open: byte, body: bytes, good: bool, close: byte)
    requires Verdict(strict, body, good) && Opens(open) && Closes(close)
    ensures Verdict(strict, [open] + body + [close], good)
  {
    if !strict || good {
      NeatEnclosed(strict, open, body, close);
    } else {
      hide Scanned;
      forall k: nat, b: byte | b != BACKSLASH ensures StopsFrom([open] + body + [close], k, b) {
        ScanConcat(true, [open] + body, [close], Scan(Outside, k, b));
        ScanConcat(true, [open], body, Scan(Outside, k, b));
        ScanOne(true, open, Scan(Outside, k, b));
        assert StopsFrom(body, k + 1, open);
      }
    }
  }

  /** In quotes, a string body is bad exactly if it ends in a backslash. */
  lemma QuotedBodyVerdict(strict: bool, body: bytes)
    requires StringBody(body)
    ensures Verdict(strict, [QUOTE] + body + [QUOTE], !EndsInBackslash(body))
  {
    hide Scanned, StringBody;
    if !strict || !EndsInBackslash(body) {
      forall k: nat, b: byte | Passes(strict, b) ensures NeatFrom(strict, body, Inside, k, b) {
        BodyScans(strict, body, Inside, k, b);
      }
      NeatQuoted(strict, body);
    } else {
      forall k: nat, b: byte | b != BACKSLASH ensures StopsFrom([QUOTE] + body + [QUOTE], k, b) {
        BodyScans(true, body, Inside, k, QUOTE);
        ScanConcat(true, [QUOTE] + body, [QUOTE], Scan(Outside, k, b));
        ScanConcat(true, [QUOTE], body, Scan(Outside, k, b));
        ScanOne(true, QUOTE, Scan(Outside, k, b));
        ScanOne(true, QUOTE, Scan(Inside, k, Last(body, QUOTE)));
      }
    }
  }
}
