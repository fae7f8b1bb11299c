/** Blanking out comments in place before parsing. */
module Comments {
  import opened Bytes
  import opened ObjectTable
  import opened JsonValue
  import opened StringCodec
  import opened Serializer
  import opened Parser
  import opened Cursors
  import opened RoundTrip

  const SLASH_STAR: bytes := [0x2F, 0x2A]
  const STAR_SLASH: bytes := [0x2A, 0x2F]
  const SLASH_SLASH: bytes := [0x2F, 0x2F]
  const LINE_END: bytes := [NEWLINE]

  /** The two flags of the scan. */
  datatype Mode = Mode(inString: bool, escaped: bool)

  const OUTSIDE := Mode(false, false)
  const INSIDE := Mode(true, false)

  // ---------- What one pass makes of a text ----------

  function Blank(t: bytes, from: nat, to: nat): (r: bytes)
    requires from <= to <= |t|
    ensures |r| == |t|
  {
    t[..from] + Spaces(to - from) + t[to..]
  }

  /** strstr: the first place at or after `i` where the token stands. */
  function FindToken(t: bytes, i: nat, token: bytes): (r: Option<nat>)
    ensures r.Some? ==> i <= r.value && r.value + |token| <= |t| && Occurs(t, r.value, token)
    decreases |t| - i
  {
    if Occurs(t, i, token) then Some(i)
    else if i >= |t| then None
    else FindToken(t, i + 1, token)
  }

  function Strip(t: bytes, i: nat, m: Mode, open: bytes, close: bytes): (r: bytes)
    requires open != [] && close != []
    ensures |r| == |t|
    decreases |t| - i
  {
    if i >= |t| then t
    else if t[i] == BACKSLASH && !m.escaped then Strip(t, i + 1, m.(escaped := true), open, close)
    else if t[i] == QUOTE && !m.escaped then Strip(t, i + 1, Mode(!m.inString, false), open, close)
    else if !m.inString && Occurs(t, i, open) then
      match FindToken(t, i + |open|, close)
      case None => Blank(t, i, i + |open|)
      case Some(p) => Strip(Blank(t, i, p + |close|), p + |close|, Mode(m.inString, false), open, close)
    else Strip(t, i + 1, Mode(m.inString, false), open, close)
  }

  /** The scan from `i` on never meets the opening token outside a string. */
  predicate CommentFree(t: bytes, i: nat, m: Mode, open: bytes)
    decreases |t| - i
  {
    if i >= |t| then true
    else if t[i] == BACKSLASH && !m.escaped then CommentFree(t, i + 1, m.(escaped := true), open)
    else if t[i] == QUOTE && !m.escaped then CommentFree(t, i + 1, Mode(!m.inString, false), open)
    else if !m.inString && Occurs(t, i, open) then false
    else CommentFree(t, i + 1, Mode(m.inString, false), open)
  }

  predicate AtComment(t: bytes, i: nat, m: Mode, open: bytes) {
    i < |t| && !(t[i] == BACKSLASH && !m.escaped) && !(t[i] == QUOTE && !m.escaped) && !m.inString && Occurs(t, i, open)
  }

  /** The flags after one byte that starts no comment. */
  function Advance(m: Mode, c: byte): Mode {
    if c == BACKSLASH && !m.escaped then m.(escaped := true)
    else if c == QUOTE && !m.escaped then Mode(!m.inString, false)
    else Mode(m.inString, false)
  }

  lemma StripStep(t: bytes, i: nat, m: Mode, open: bytes, close: bytes)
    requires i < |t| && open != [] && close != []
    ensures !AtComment(t, i, m, open) ==> Strip(t, i, m, open, close) == Strip(t, i + 1, Advance(m, t[i]), open, close)
    ensures AtComment(t, i, m, open) ==>
              i + |open| <= |t| && Strip(t, i, m, open, close) ==
              match FindToken(t, i + |open|, close)
              case None => Blank(t, i, i + |open|)
              case Some(p) => Strip(Blank(t, i, p + |close|), p + |close|, Advance(m, t[i]), open, close)
  {
    hide FindToken, Blank;
  }

  lemma CommentFreeStep(t: bytes, i: nat, m: Mode, open: bytes)
    requires i < |t|
    ensures CommentFree(t, i, m, open) <==>
            !AtComment(t, i, m, open) && CommentFree(t, i + 1, Advance(m, t[i]), open)
  {
  }

  ghost predicate OnlyBlanks(t: bytes, r: bytes, i: nat) {
    |r| == |t| && forall k | 0 <= k < |t| :: r[k] == t[k] || (r[k] == SPACE && i <= k)
  }

  lemma BlankOnlyBlanks(t: bytes, from: nat, to: nat)
    requires from <= to <= |t|
    ensures OnlyBlanks(t, Blank(t, from, to), from)
    ensures from < to ==> Blank(t, from, to)[from] == SPACE
  {
  }

  /** A pass only ever turns bytes into spaces, and none before the position it starts at. */
  lemma {:induction false} StripOnlyBlanks(t: bytes, i: nat, m: Mode, open: bytes, close: bytes)
    requires open != [] && close != []
    ensures OnlyBlanks(t, Strip(t, i, m, open, close), i)
    decreases |t| - i
  {
    hide Blank, FindToken, AtComment, Advance;
    if i < |t| {
      StripStep(t, i, m, open, close);
      if AtComment(t, i, m, open) {
        var p := FindToken(t, i + |open|, close);
        if p.Some? {
          var to := p.value + |close|;
          BlankOnlyBlanks(t, i, to);
          StripOnlyBlanks(Blank(t, i, to), to, Advance(m, t[i]), open, close);
        } else {
          BlankOnlyBlanks(t, i, i + |open|);
        }
      } else {
        StripOnlyBlanks(t, i + 1, Advance(m, t[i]), open, close);
      }
    }
  }

  /** A pass leaves a text alone exactly when there is no comment outside its strings. */
  lemma {:induction false} StripIsIdentityIff(t: bytes, i: nat, m: Mode, open: bytes, close: bytes)
    requires open != [] && close != [] && open[0] != SPACE
    ensures Strip(t, i, m, open, close) == t <==> CommentFree(t, i, m, open)
    decreases |t| - i
  {
    hide Blank, FindToken, Advance;
    if i < |t| {
      StripStep(t, i, m, open, close);
      CommentFreeStep(t, i, m, open);
      hide CommentFree, Strip;
      if AtComment(t, i, m, open) {
        OccursAt(t, i, open, 0);
        var p := FindToken(t, i + |open|, close);
        if p.Some? {
          var to := p.value + |close|;
          BlankOnlyBlanks(t, i, to);
          StripOnlyBlanks(Blank(t, i, to), to, Advance(m, t[i]), open, close);
        } else {
          BlankOnlyBlanks(t, i, i + |open|);
        }
      } else {
        StripIsIdentityIff(t, i + 1, Advance(m, t[i]), open, close);
      }
    }
  }

  // ---------- What is blanked ----------

  /** A text as one pass must see it: single bytes, comments with their tokens around the body, and at the end
      perhaps a comment that is never closed. */
  datatype Part = Code(b: byte) | Comment(body: bytes) | Unclosed(rest: bytes)

  function PartsText(ps: seq<Part>, open: bytes, close: bytes): bytes {
    if ps == [] then []
    else
      (match ps[0]
       case Code(b) => [b]
       case Comment(body) => open + body + close
       case Unclosed(rest) => open + rest)
      + PartsText(ps[1..], open, close)
  }

  /** Comments turn into as many spaces; of an unclosed one only the opening token does. */
  function PartsBlanked(ps: seq<Part>, open: bytes, close: bytes): bytes {
    if ps == [] then []
    else
      (match ps[0]
       case Code(b) => [b]
       case Comment(body) => Spaces(|open| + |body| + |close|)
       case Unclosed(rest) => Spaces(|open|) + rest)
      + PartsBlanked(ps[1..], open, close)
  }

  /** Every opening token outside the strings starts a comment, and the comment ends with the first closing token. */
  ghost predicate GoodParts(ps: seq<Part>, inString: bool, escaped: bool, open: bytes, close: bytes)
    decreases |ps|
  {
    ps != [] ==>
      match ps[0]
      case Code(b) =>
        && (!inString ==> !(open <= PartsText(ps, open, close)))
        && (if b == BACKSLASH && !escaped then GoodParts(ps[1..], inString, true, open, close)
            else if b == QUOTE && !escaped then GoodParts(ps[1..], !inString, false, open, close)
            else GoodParts(ps[1..], inString, false, open, close))
      case Comment(body) =>
        && !inString && (forall k | 0 <= k < |body| :: !Occurs(body + close, k, close))
        && GoodParts(ps[1..], false, false, open, close)
      case Unclosed(rest) =>
        !inString && ps[1..] == [] && forall k | 0 <= k <= |rest| :: !Occurs(rest, k, close)
  }

  lemma {:induction false} FindTokenIs(t: bytes, i: nat, token: bytes, p: nat)
    requires i <= p && Occurs(t, p, token) && forall k | i <= k < p :: !Occurs(t, k, token)
    ensures FindToken(t, i, token) == Some(p)
    decreases p - i
  {
    if i < p {
      FindTokenIs(t, i + 1, token, p);
    }
  }

  lemma {:induction false} FindTokenNone(t: bytes, i: nat, token: bytes)
    requires forall k | i <= k <= |t| :: !Occurs(t, k, token)
    requires token != []
    ensures FindToken(t, i, token) == None
    decreases |t| - i
  {
    if i < |t| {
      FindTokenNone(t, i + 1, token);
    }
  }

  /** One pass on a text behind `pre` blanks exactly the comments. */
  lemma {:induction false} StripFromIs(pre: bytes, ps: seq<Part>, m: Mode, open: bytes, close: bytes)
    requires open != [] && close != [] && open[0] == SLASH && GoodParts(ps, m.inString, m.escaped, open, close)
    ensures Strip(pre + PartsText(ps, open, close), |pre|, m, open, close) == pre + PartsBlanked(ps, open, close)
    decreases |ps|
  {
    hide Strip, FindToken, Occurs, Blank, Spaces;
    var t, i := pre + PartsText(ps, open, close), |pre|;
    if ps == [] {
      StripEnds(t, i, m, open, close);
    } else {
      var rest := PartsText(ps[1..], open, close);
      match ps[0]
      case Code(b) =>
        assert t == pre + [b] + rest && t[i] == b;
        StripStep(t, i, m, open, close);
        CodeIsNoComment(pre, PartsText(ps, open, close), m, open);
        StripFromIs(pre + [b], ps[1..], Advance(m, b), open, close);
        ConcatAssoc(pre, [b], PartsBlanked(ps[1..], open, close));
      case Comment(body) =>
        StripComment(pre, body, rest, m, open, close);
        var blanked := pre + Spaces(|open| + |body| + |close|);
        StripFromIs(blanked, ps[1..], OUTSIDE, open, close);
        ConcatAssoc(pre, Spaces(|open| + |body| + |close|), PartsBlanked(ps[1..], open, close));
        ConcatAssoc(pre, open + body + close, rest);
      case Unclosed(inner) =>
        assert t == pre + (open + inner);
        StripUnclosed(pre, inner, m, open, close);
    }
  }

  lemma CodeIsNoComment(pre: bytes, text: bytes, m: Mode, open: bytes)
    requires text != [] && (!m.inString ==> !(open <= text))
    ensures !AtComment(pre + text, |pre|, m, open)
  {
    if Occurs(pre + text, |pre|, open) {
      assert text[..|open|] == (pre + text)[|pre|..|pre| + |open|];
    }
  }

  lemma OccursInside(t: bytes, pre: bytes, inner: bytes, behind: bytes, k: nat, token: bytes)
    requires t == pre + inner + behind && (k + |token| <= |inner| || behind == [])
    ensures Occurs(t, |pre| + k, token) <==> Occurs(inner, k, token)
  {
    if k + |token| <= |inner| {
      assert t[|pre| + k..|pre| + k + |token|] == inner[k..k + |token|];
    }
  }

  /** An opening token behind `pre`, the body up to the first closing token. */
  lemma StripComment(pre: bytes, body: bytes, rest: bytes, m: Mode, open: bytes, close: bytes)
    requires open != [] && close != [] && open[0] == SLASH && !m.inString
    requires forall k | 0 <= k < |body| :: !Occurs(body + close, k, close)
    ensures var t, n := pre + (open + body + close + rest), |open| + |body| + |close|;
            Strip(t, |pre|, m, open, close) == Strip(pre + Spaces(n) + rest, |pre + Spaces(n)|, OUTSIDE, open, close)
  {
    hide *;
    var t, i, n := pre + (open + body + close + rest), |pre|, |open| + |body| + |close|;
    CommentPieces(t, pre, open, body, close, rest);
    CommentStarts(t, i, m, open);
    StripStep(t, i, m, open, close);
    FirstClose(t, pre + open, body, rest, close);
    SpacesLength(n);
    BlankedIs(t, pre, n, rest);
    SlashAdvances(m);
  }

  lemma CommentPieces(t: bytes, pre: bytes, open: bytes, body: bytes, close: bytes, rest: bytes)
    requires t == pre + (open + body + close + rest)
    ensures t == (pre + open) + (body + close) + rest && Occurs(t, |pre|, open)
    ensures |pre| + |open| + |body| + |close| <= |t|
    ensures t[..|pre|] == pre && t[|pre| + |open| + |body| + |close|..] == rest
  {
    assert t[|pre|..|pre| + |open|] == open;
  }

  lemma CommentStarts(t: bytes, i: nat, m: Mode, open: bytes)
    requires Occurs(t, i, open) && open != [] && open[0] == SLASH && !m.inString
    ensures i < |t| && t[i] == SLASH && AtComment(t, i, m, open)
  {
    assert t[i..i + |open|][0] == SLASH;
  }

  lemma SlashAdvances(m: Mode)
    ensures Advance(m, SLASH) == Mode(m.inString, false) && OUTSIDE == Mode(false, false)
  {
  }

  lemma BlankedIs(t: bytes, pre: bytes, n: nat, rest: bytes)
    requires |pre| + n <= |t| && t[..|pre|] == pre && t[|pre| + n..] == rest
    ensures Blank(t, |pre|, |pre| + n) == pre + Spaces(n) + rest && |pre + Spaces(n)| == |pre| + n
  {
  }

  lemma FirstClose(t: bytes, pre: bytes, body: bytes, rest: bytes, close: bytes)
    requires t == pre + (body + close) + rest
    requires forall k | 0 <= k < |body| :: !Occurs(body + close, k, close)
    ensures FindToken(t, |pre|, close) == Some(|pre| + |body|)
  {
    hide FindToken, Occurs;
    var p := |pre| + |body|;
    assert Occurs(t, p, close) by {
      assert Occurs(body + close, |body|, close) by { EndsWith(body, close); }
      OccursInside(t, pre, body + close, rest, |body|, close);
    }
    forall k | |pre| <= k < p ensures !Occurs(t, k, close) {
      OccursInside(t, pre, body + close, rest, k - |pre|, close);
    }
    FindTokenIs(t, |pre|, close, p);
  }

  lemma EndsWith(body: bytes, close: bytes)
    ensures Occurs(body + close, |body|, close)
  {
  }

  lemma SpacesLength(n: nat)
    ensures |Spaces(n)| == n
  {
  }

  lemma StripUnclosed(pre: bytes, inner: bytes, m: Mode, open: bytes, close: bytes)
    requires open != [] && close != [] && open[0] == SLASH && !m.inString
    requires forall k | 0 <= k <= |inner| :: !Occurs(inner, k, close)
    ensures Strip(pre + (open + inner), |pre|, m, open, close) == pre + (Spaces(|open|) + inner + [])
  {
    hide Strip, FindToken, Spaces;
    var t, i := pre + (open + inner), |pre|;
    var from := i + |open|;
    assert t[i..from] == open && t[i] == SLASH;
    StripStep(t, i, m, open, close);
    assert t == (pre + open) + inner + [];
    forall k | from <= k <= |t| ensures !Occurs(t, k, close) {
      OccursInside(t, pre + open, inner, [], k - from, close);
    }
    FindTokenNone(t, from, close);
    assert t[..i] == pre && t[from..] == inner;
  }

  /** A pass turns exactly the comments into spaces. */
  lemma StripBlanksTheComments(ps: seq<Part>, open: bytes, close: bytes)
    requires open != [] && close != [] && open[0] == SLASH && GoodParts(ps, false, false, open, close)
    ensures Strip(PartsText(ps, open, close), 0, OUTSIDE, open, close) == PartsBlanked(ps, open, close)
  {
    hide Strip, GoodParts, PartsText, PartsBlanked;
    StripFromIs([], ps, OUTSIDE, open, close);
    assert [] + PartsText(ps, open, close) == PartsText(ps, open, close);
    assert [] + PartsBlanked(ps, open, close) == PartsBlanked(ps, open, close);
  }

  lemma CodeFirst(b: byte, rest: seq<Part>, inString: bool, escaped: bool, open: bytes, close: bytes)
    requires !inString ==> !(open <= [b] + PartsText(rest, open, close))
    requires var turns, escapes := b == QUOTE && !escaped, b == BACKSLASH && !escaped;
             GoodParts(rest, if turns then !inString else inString, escapes, open, close)
    ensures GoodParts([Code(b)] + rest, inString, escaped, open, close)
    ensures PartsText([Code(b)] + rest, open, close) == [b] + PartsText(rest, open, close)
  {
    assert ([Code(b)] + rest)[1..] == rest;
  }

  lemma CommentFirst(body: bytes, rest: seq<Part>, escaped: bool, open: bytes, close: bytes)
    requires GoodParts(rest, false, false, open, close) && forall k | 0 <= k < |body| :: !Occurs(body + close, k, close)
    ensures GoodParts([Comment(body)] + rest, false, escaped, open, close)
    ensures PartsText([Comment(body)] + rest, open, close) == open + body + close + PartsText(rest, open, close)
  {
    hide Occurs;
    assert ([Comment(body)] + rest)[1..] == rest;
  }

  lemma UnclosedLast(inner: bytes, escaped: bool, open: bytes, close: bytes)
    requires forall k | 0 <= k <= |inner| :: !Occurs(inner, k, close)
    ensures GoodParts([Unclosed(inner)], false, escaped, open, close)
    ensures PartsText([Unclosed(inner)], open, close) == open + inner
  {
    hide Occurs;
    assert [Unclosed(inner)][1..] == [] && open + inner + [] == open + inner;
  }

  /** And every text has such parts. */
  lemma {:induction false} EveryTextHasParts(t: bytes, inString: bool, escaped: bool, open: bytes, close: bytes)
    returns (ps: seq<Part>)
    requires open != [] && close != []
    ensures GoodParts(ps, inString, escaped, open, close) && PartsText(ps, open, close) == t
    decreases |t|
  {
    hide Occurs, GoodParts, PartsText;
    if t == [] {
      ps := [];
      NoParts(inString, escaped, open, close);
    } else if !inString && open <= t {
      var inner := t[|open|..];
      assert t == open + inner;
      var end := FirstToken(inner, close);
      if end.None? {
        ps := [Unclosed(inner)];
        UnclosedLast(inner, escaped, open, close);
      } else {
        var body, behind := inner[..end.value], inner[end.value + |close|..];
        TokenThere(inner, end.value, close);
        assert t == open + body + close + behind;
        BodyIsOpen(inner, body, behind, close);
        var rest := EveryTextHasParts(behind, false, false, open, close);
        ps := [Comment(body)] + rest;
        CommentFirst(body, rest, escaped, open, close);
      }
    } else {
      var b, turns := t[0], t[0] == QUOTE && !escaped;
      assert t == [b] + t[1..];
      var rest :=
        EveryTextHasParts(t[1..], if turns then !inString else inString, b == BACKSLASH && !escaped, open, close);
      ps := [Code(b)] + rest;
      CodeFirst(b, rest, inString, escaped, open, close);
    }
  }

  lemma NoParts(inString: bool, escaped: bool, open: bytes, close: bytes)
    ensures GoodParts([], inString, escaped, open, close) && PartsText([], open, close) == []
  {
  }

  lemma BodyIsOpen(inner: bytes, body: bytes, behind: bytes, close: bytes)
    requires inner == body + close + behind && forall k | 0 <= k < |body| :: !Occurs(inner, k, close)
    ensures forall k | 0 <= k < |body| :: !Occurs(body + close, k, close)
  {
    hide Occurs;
    assert inner == [] + (body + close) + behind;
    forall k | 0 <= k < |body| ensures !Occurs(body + close, k, close) {
      OccursInside(inner, [], body + close, behind, k, close);
    }
  }

  lemma TokenThere(t: bytes, i: nat, token: bytes)
    requires Occurs(t, i, token)
    ensures i + |token| <= |t| && t[i..i + |token|] == token && t == t[..i] + token + t[i + |token|..]
  {
  }

  lemma FirstToken(t: bytes, token: bytes) returns (r: Option<nat>)
    requires token != []
    ensures r.None? ==> forall k | 0 <= k <= |t| :: !Occurs(t, k, token)
    ensures r.Some? ==> r.value + |token| <= |t| && Occurs(t, r.value, token)
                        && forall k | 0 <= k < r.value :: !Occurs(t, k, token)
  {
    var i := 0;
    while i < |t| && !Occurs(t, i, token)
      invariant i <= |t| && forall k | 0 <= k < i :: !Occurs(t, k, token)
    {
      i := i + 1;
    }
    r := if i < |t| then Some(i) else None;
  }

  // ---------- Serialized texts hold no comments ----------

  /** The scan's flags after `t`, or None if it meets a slash outside a string. */
  function Track(t: bytes, m: Mode): Option<Mode> {
    if t == [] then Some(m)
    else if t[0] == BACKSLASH && !m.escaped then Track(t[1..], m.(escaped := true))
    else if t[0] == QUOTE && !m.escaped then Track(t[1..], Mode(!m.inString, false))
    else if !m.inString && t[0] == SLASH then None
    else Track(t[1..], Mode(m.inString, false))
  }

  lemma {:induction false} TrackConcat(a: bytes, b: bytes, m: Mode)
    ensures Track(a + b, m) == (match Track(a, m) case None => None case Some(m') => Track(b, m'))
    decreases |a|
  {
    if a == [] {
      assert a + b == b;
    } else {
      assert (a + b)[1..] == a[1..] + b && (a + b)[0] == a[0];
      TrackConcat(a[1..], b, m.(escaped := true));
      TrackConcat(a[1..], b, Mode(!m.inString, false));
      TrackConcat(a[1..], b, Mode(m.inString, false));
    }
  }

  lemma {:induction false} TrackedIsCommentFree(t: bytes, i: nat, m: Mode, open: bytes)
    requires i <= |t| && open != [] && open[0] == SLASH && Track(t[i..], m).Some?
    ensures CommentFree(t, i, m, open)
    decreases |t| - i
  {
    if i < |t| {
      assert t[i..][1..] == t[i + 1..] && t[i..][0] == t[i];
      if Occurs(t, i, open) {
        OccursAt(t, i, open, 0);
      }
      if t[i] == BACKSLASH && !m.escaped {
        TrackedIsCommentFree(t, i + 1, m.(escaped := true), open);
      } else if t[i] == QUOTE && !m.escaped {
        TrackedIsCommentFree(t, i + 1, Mode(!m.inString, false), open);
      } else {
        TrackedIsCommentFree(t, i + 1, Mode(m.inString, false), open);
      }
    }
  }

  /** Scanning `t` from outside any string ends outside any string and meets no slash there. */
  ghost predicate Neutral(t: bytes) {
    Track(t, OUTSIDE) == Some(OUTSIDE)
  }

  lemma NeutralConcat(a: bytes, b: bytes)
    requires Neutral(a) && Neutral(b)
    ensures Neutral(a + b)
  {
    TrackConcat(a, b, OUTSIDE);
  }

  lemma {:induction false} PlainIsNeutral(t: bytes)
    requires BACKSLASH !in t && QUOTE !in t && SLASH !in t
    ensures Neutral(t)
    decreases |t|
  {
    if t != [] {
      assert t[0] in t && forall b | b in t[1..] :: b in t;
      PlainIsNeutral(t[1..]);
    }
  }

  lemma EscapeStaysInside(c: byte)
    ensures Track(Escape(c), INSIDE) == Some(INSIDE)
  {
    var e := Escape(c);
    if |e| == 1 {
      assert e == [e[0]] && e[1..] == [];
    } else if |e| == 2 {
      assert e[1..] == [e[1]] && e[1..][1..] == [];
      assert Track(e[1..], Mode(true, true)) == Track(e[1..][1..], INSIDE);
    } else {
      var h1, h2 := HexDigit(c / 16), HexDigit(c % 16);
      assert e[1..] == [LOWER_U] + [ZERO, ZERO, h1, h2];
      assert e[1..][1..] == [ZERO, ZERO, h1, h2];
      assert Track(e[1..], Mode(true, true)) == Track([ZERO, ZERO, h1, h2], INSIDE);
      PlainInside([ZERO, ZERO, h1, h2]);
    }
  }

  lemma {:induction false} PlainInside(t: bytes)
    requires BACKSLASH !in t && QUOTE !in t
    ensures Track(t, INSIDE) == Some(INSIDE)
    decreases |t|
  {
    if t != [] {
      assert t[0] in t && forall b | b in t[1..] :: b in t;
      PlainInside(t[1..]);
    }
  }

  lemma {:induction false} EscapedStaysInside(str: bytes)
    ensures Track(EscapeAll(str), INSIDE) == Some(INSIDE)
    decreases |str|
  {
    hide Escape;
    EscapeAllUnfolds(str);
    if str != [] {
      EscapeStaysInside(str[0]);
      EscapedStaysInside(str[1..]);
      TrackConcat(Escape(str[0]), EscapeAll(str[1..]), INSIDE);
    }
  }

  lemma QuotedIsNeutral(str: bytes)
    ensures Neutral(Quoted(str))
  {
    hide EscapeAll;
    EscapedStaysInside(str);
    TrackConcat([QUOTE] + EscapeAll(str), [QUOTE], OUTSIDE);
    TrackConcat([QUOTE], EscapeAll(str), OUTSIDE);
  }

  lemma {:induction false} DigitsAreNeutral(n: nat)
    ensures Neutral(Digits(n))
  {
    if n < 10 {
      PlainIsNeutral(Digits(n));
    } else {
      DigitsAreNeutral(n / 10);
      PlainIsNeutral([ZERO + n % 10]);
      NeutralConcat(Digits(n / 10), [ZERO + n % 10]);
    }
  }

  lemma {:induction false} IndentIsNeutral(level: nat)
    ensures Neutral(Indent(level))
  {
    if level > 0 {
      PlainIsNeutral(INDENT);
      IndentIsNeutral(level - 1);
      NeutralConcat(INDENT, Indent(level - 1));
    }
  }

  /** The text of every value is neutral: its quotes and escapes are exactly what the scan sees. */
  lemma {:induction false} TextIsNeutral(v: Value, level: nat, pretty: bool)
    ensures Neutral(Text(v, level, pretty))
    decreases v, 1
  {
    hide Neutral, Quoted, Digits, ItemsText, MembersText, Opening, Closing;
    match v
    case Null => PlainIsNeutral(NULL_TOKEN);
    case Bool(b) => PlainIsNeutral(TRUE_TOKEN); PlainIsNeutral(FALSE_TOKEN);
    case Number(n) =>
      DigitsAreNeutral(if n < 0 then -n else n);
      PlainIsNeutral([MINUS]);
      if n < 0 {
        NeutralConcat([MINUS], Digits(-n));
      }
    case Str(s) => QuotedIsNeutral(s);
    case Array(items) =>
      BracketsAreNeutral(LBRACKET, RBRACKET, |items|, level, pretty);
      ItemsAreNeutral(items, 0, level, pretty);
      NeutralConcat(Opening(LBRACKET, |items|, pretty), ItemsText(items, 0, level, pretty));
      NeutralConcat(Opening(LBRACKET, |items|, pretty) + ItemsText(items, 0, level, pretty),
                    Closing(RBRACKET, |items|, level, pretty));
    case Object(members) =>
      BracketsAreNeutral(LBRACE, RBRACE, |members|, level, pretty);
      MembersAreNeutral(members, 0, level, pretty);
      NeutralConcat(Opening(LBRACE, |members|, pretty), MembersText(members, 0, level, pretty));
      NeutralConcat(Opening(LBRACE, |members|, pretty) + MembersText(members, 0, level, pretty),
                    Closing(RBRACE, |members|, level, pretty));
  }

  lemma WhenIsNeutral(c: bool, t: bytes)
    requires c ==> Neutral(t)
    ensures Neutral(When(c, t))
  {
    PlainIsNeutral([]);
  }

  lemma BracketsAreNeutral(open: byte, close: byte, count: nat, level: nat, pretty: bool)
    requires open in {LBRACKET, LBRACE} && close in {RBRACKET, RBRACE}
    ensures Neutral(Opening(open, count, pretty)) && Neutral(Closing(close, count, level, pretty))
  {
    hide Neutral, Indent, When;
    PlainIsNeutral([open]);
    PlainIsNeutral([close]);
    PlainIsNeutral([NEWLINE]);
    IndentIsNeutral(level);
    WhenIsNeutral(count > 0 && pretty, [NEWLINE]);
    WhenIsNeutral(count > 0 && pretty, Indent(level));
    NeutralConcat([open], When(count > 0 && pretty, [NEWLINE]));
    NeutralConcat(When(count > 0 && pretty, Indent(level)), [close]);
  }

  lemma SeparatorIsNeutral(last: bool, pretty: bool)
    ensures Neutral(Separator(last, pretty))
  {
    hide Neutral, When;
    PlainIsNeutral([COMMA]);
    PlainIsNeutral([NEWLINE]);
    WhenIsNeutral(!last, [COMMA]);
    WhenIsNeutral(pretty, [NEWLINE]);
    NeutralConcat(When(!last, [COMMA]), When(pretty, [NEWLINE]));
  }

  lemma {:induction false} ItemsAreNeutral(items: seq<Value>, k: nat, level: nat, pretty: bool)
    requires k <= |items|
    ensures Neutral(ItemsText(items, k, level, pretty))
    decreases items, |items| - k
  {
    hide Neutral, Text, ItemsText, When, Indent, Separator;
    ItemsUnfold(items, k, level, pretty);
    PlainIsNeutral([]);
    if k < |items| {
      var lead, text := When(pretty, Indent(level + 1)), Text(items[k], level + 1, pretty);
      IndentIsNeutral(level + 1);
      WhenIsNeutral(pretty, Indent(level + 1));
      TextIsNeutral(items[k], level + 1, pretty);
      SeparatorIsNeutral(k == |items| - 1, pretty);
      NeutralConcat(lead, text);
      NeutralConcat(lead + text, Separator(k == |items| - 1, pretty));
      ItemsAreNeutral(items, k + 1, level, pretty);
      NeutralConcat(ItemText(items, k, level, pretty), ItemsText(items, k + 1, level, pretty));
    }
  }

  lemma KeyIsNeutral(key: bytes, level: nat, pretty: bool)
    ensures Neutral(KeyText(key, level, pretty))
  {
    hide Neutral, When, Indent, Quoted;
    var lead := When(pretty, Indent(level + 1));
    IndentIsNeutral(level + 1);
    WhenIsNeutral(pretty, Indent(level + 1));
    QuotedIsNeutral(key);
    PlainIsNeutral([COLON]);
    PlainIsNeutral([SPACE]);
    WhenIsNeutral(pretty, [SPACE]);
    NeutralConcat(lead, Quoted(key));
    NeutralConcat(lead + Quoted(key), [COLON]);
    NeutralConcat(lead + Quoted(key) + [COLON], When(pretty, [SPACE]));
  }

  lemma {:induction false} MembersAreNeutral(members: seq<Entry<Value>>, k: nat, level: nat, pretty: bool)
    requires k <= |members|
    ensures Neutral(MembersText(members, k, level, pretty))
    decreases members, |members| - k
  {
    hide Neutral, Text, MembersText, KeyText, Separator, Find;
    MembersUnfold(members, k, level, pretty);
    PlainIsNeutral([]);
    if k < |members| {
      OwnNameIsFound(members, k);
      var f := Find(members, members[k].name);
      var head, text := KeyText(members[k].name, level, pretty), Text(members[f].value, level + 1, pretty);
      KeyIsNeutral(members[k].name, level, pretty);
      TextIsNeutral(members[f].value, level + 1, pretty);
      SeparatorIsNeutral(k == |members| - 1, pretty);
      NeutralConcat(head, text);
      NeutralConcat(head + text, Separator(k == |members| - 1, pretty));
      MembersAreNeutral(members, k + 1, level, pretty);
      NeutralConcat(MemberText(members, k, level, pretty), MembersText(members, k + 1, level, pretty));
    }
  }

  /** Both passes leave every serialized text, compact or pretty, exactly as it is. */
  lemma SerializedHasNoComments(v: Value, pretty: bool)
    ensures var t := Text(v, 0, pretty);
            Strip(t, 0, OUTSIDE, SLASH_STAR, STAR_SLASH) == t
            && Strip(t, 0, OUTSIDE, SLASH_SLASH, LINE_END) == t
  {
    hide Text, Strip, CommentFree;
    var t := Text(v, 0, pretty);
    TextIsNeutral(v, 0, pretty);
    assert t[0..] == t;
    TrackedIsCommentFree(t, 0, OUTSIDE, SLASH_STAR);
    TrackedIsCommentFree(t, 0, OUTSIDE, SLASH_SLASH);
    StripIsIdentityIff(t, 0, OUTSIDE, SLASH_STAR, STAR_SLASH);
    StripIsIdentityIff(t, 0, OUTSIDE, SLASH_SLASH, LINE_END);
  }

  // ---------- Parsing with comments ----------

  function WithoutComments(s: bytes): bytes {
    Strip(Strip(s, 0, OUTSIDE, SLASH_STAR, STAR_SLASH), 0, OUTSIDE, SLASH_SLASH, LINE_END)
  }

  /** What is parsed: first the block comments turn into spaces, then the line comments of what that leaves. */
  lemma WithoutCommentsIs(ps: seq<Part>, qs: seq<Part>)
    requires GoodParts(ps, false, false, [0x2F, 0x2A], [0x2A, 0x2F])
    requires GoodParts(qs, false, false, [0x2F, 0x2F], [0x0A])
    requires PartsText(qs, [0x2F, 0x2F], [0x0A]) == PartsBlanked(ps, [0x2F, 0x2A], [0x2A, 0x2F])
    ensures WithoutComments(PartsText(ps, [0x2F, 0x2A], [0x2A, 0x2F])) == PartsBlanked(qs, [0x2F, 0x2F], [0x0A])
  {
    hide Strip, GoodParts, PartsText, PartsBlanked;
    StripBlanksTheComments(ps, SLASH_STAR, STAR_SLASH);
    StripBlanksTheComments(qs, SLASH_SLASH, LINE_END);
  }

  /** json_parse_string_with_comments also returns every serialized value it has room for. */
  lemma SerializedReadsBackWithComments(v: Value, pretty: bool)
    requires WellFormed(v)
    ensures ValueAt(WithoutComments(Text(v, 0, pretty)), 0, 0) ==
            if NestsWithin(v, MAX_NESTING) then Done(v, |Text(v, 0, pretty)|) else Fail
  {
    hide Text, Strip, WellFormed, NestsWithin, ValueAt;
    var s := Text(v, 0, pretty);
    SerializedHasNoComments(v, pretty);
    assert s[0..|s|] == s;
    ValueReadsBack(s, 0, v, 0, pretty, 0);
  }

  // ---------- The in-place loop ----------

  method Locate(buf: array<byte>, n: nat, from: nat, token: bytes) returns (r: Option<nat>)
    requires from <= n <= buf.Length && token != []
    ensures r == FindToken(buf[..n], from, token)
  {
    var p := from;
    while p + |token| <= n
      invariant from <= p <= n
      invariant FindToken(buf[..n], from, token) == FindToken(buf[..n], p, token)
    {
      if buf[p..p + |token|] == token {
        assert buf[..n][p..p + |token|] == token;
        return Some(p);
      }
      assert buf[..n][p..p + |token|] == buf[p..p + |token|];
      p := p + 1;
    }
    return None;
  }

  method Fill(buf: array<byte>, from: nat, to: nat)
    requires from <= to <= buf.Length
    modifies buf
    ensures buf[..] == Blank(old(buf[..]), from, to)
  {
    ghost var b0 := buf[..];
    for i := from to to
      invariant forall k | 0 <= k < buf.Length :: buf[k] == if from <= k < i then SPACE else b0[k]
    {
      buf[i] := SPACE;
    }
    assert buf[..] == Blank(b0, from, to);
  }

  lemma OnlyBlanksNulFree(t: bytes, r: bytes, i: nat)
    requires OnlyBlanks(t, r, i) && NulFree(t)
    ensures NulFree(r)
  {
    forall b | b in r ensures b != 0 {
      var k :| 0 <= k < |r| && r[k] == b;
      assert t[k] in t;
    }
  }

  /** remove_comments on a buffer whose first NUL is at `n`. */
  method RemoveComments(buf: array<byte>, n: nat, open: bytes, close: bytes)
    requires n < buf.Length && buf[n] == 0 && NulFree(buf[..n])
    requires open != [] && close != []
    modifies buf
    ensures buf[..n] == Strip(old(buf[..n]), 0, OUTSIDE, open, close)
    ensures buf[n..] == old(buf[n..]) && NulFree(buf[..n])
  {
    hide Strip, FindToken, NulFree, Occurs, Blank;
    var p, m := 0, OUTSIDE;
    while buf[p] != 0
      invariant p <= n && buf[n] == 0
      invariant buf[n..] == old(buf[n..])
      invariant NulFree(buf[..n])
      invariant Strip(buf[..n], p, m, open, close) == Strip(old(buf[..n]), 0, OUTSIDE, open, close)
      decreases n - p
    {
      ghost var t := buf[..n];
      StripStep(t, p, m, open, close);
      var c := buf[p];
      var comment := StartsComment(buf, n, p, m, open);
      if comment {
        var end := Locate(buf, n, p + |open|, close);
        if end.None? {
          BlankRange(buf, n, p, p + |open|);
          BlankOnlyBlanks(t, p, p + |open|);
          OnlyBlanksNulFree(t, buf[..n], p);
          return;
        }
        BlankRange(buf, n, p, end.value + |close|);
        BlankOnlyBlanks(t, p, end.value + |close|);
        OnlyBlanksNulFree(t, buf[..n], p);
        p := end.value + |close| - 1;
      }
      m := Advance(m, c);
      p := p + 1;
    }
    NoNulBefore(buf[..n], p, buf[p]);
    StripEnds(buf[..n], p, m, open, close);
  }

  lemma NoNulBefore(t: bytes, p: nat, b: byte)
    requires NulFree(t) && p <= |t| && b == 0 && (p < |t| ==> t[p] == b)
    ensures p == |t|
  {
  }

  lemma StripEnds(t: bytes, i: nat, m: Mode, open: bytes, close: bytes)
    requires open != [] && close != []
    ensures i >= |t| ==> Strip(t, i, m, open, close) == t
  {
  }

  /** Blanks the opening token, then everything to the end of the closing one. */
  method BlankRange(buf: array<byte>, n: nat, from: nat, to: nat)
    requires from <= to <= n < buf.Length
    modifies buf
    ensures buf[..n] == Blank(old(buf[..n]), from, to)
    ensures buf[n..] == old(buf[n..])
  {
    Fill(buf, from, to);
    ghost var b0 := old(buf[..]);
    assert buf[..n] == Blank(b0, from, to)[..n] == Blank(b0[..n], from, to);
    assert b0[..n] == old(buf[..n]);
    assert buf[n..] == Blank(b0, from, to)[n..] == b0[n..];
  }

  /** The tests that decide whether the byte at `p` opens a comment. */
  method StartsComment(buf: array<byte>, n: nat, p: nat, m: Mode, open: bytes) returns (r: bool)
    requires p < n < buf.Length
    ensures r == AtComment(buf[..n], p, m, open)
  {
    assert buf[..n][p] == buf[p];
    if buf[p] == BACKSLASH && !m.escaped {
      return false;
    } else if buf[p] == QUOTE && !m.escaped {
      return false;
    } else if !m.inString && p + |open| <= n && buf[p..p + |open|] == open {
      assert buf[..n][p..p + |open|] == buf[p..p + |open|];
      return true;
    }
    if p + |open| <= n {
      assert buf[..n][p..p + |open|] == buf[p..p + |open|];
    }
    return false;
  }

  method ParseStringWithComments(text: bytes) returns (r: Option<Value>)
    requires NulFree(text)
    ensures match ValueAt(WithoutComments(text), 0, 0) case Fail => r.None? case Done(v, _) => r == Some(v)
  {
    hide ValueAt, Strip;
    var n := |text|;
    var copy := new byte[n + 1](i => if 0 <= i < n then text[i] else 0);
    assert copy[..n] == text;
    RemoveComments(copy, n, SLASH_STAR, STAR_SLASH);
    RemoveComments(copy, n, SLASH_SLASH, LINE_END);
    var cursor := new Cursor(copy[..n]);
    r := cursor.ReadValue(0);
  }
}
