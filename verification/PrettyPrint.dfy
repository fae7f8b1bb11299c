/** The pretty printer's layout pass over encoder output. It tells strings apart by looking one byte
    back, which goes wrong exactly at quotes that follow a backslash without being escaped by it. */
module PrettyPrint {
  import opened Bytes
  import opened GrowBuffer

  const INITIAL_SIZE := 50

  datatype State = State(inQuotes: bool, indent: int, previous: byte)

  const START := State(false, 0, 0)

  predicate Opens(c: byte) {
    c == LBRACE || c == LBRACKET
  }

  predicate Closes(c: byte) {
    c == RBRACE || c == RBRACKET
  }

  function Nests(c: byte): int {
    if Opens(c) then 1 else if Closes(c) then -1 else 0
  }

  predicate Toggles(st: State, c: byte) {
    c == QUOTE && st.previous != BACKSLASH
  }

  function Next(st: State, c: byte): State {
    if Toggles(st, c) then State(!st.inQuotes, st.indent, c)
    else State(st.inQuotes, st.indent + (if st.inQuotes then 0 else Nests(c)), c)
  }

  /** A new line at an indent level. */
  function Line(indent: int): bytes {
    [NEWLINE] + if indent < 0 then [] else Spaces(4 * indent)
  }

  function BeforeIt(st: State, c: byte): bytes {
    if !st.inQuotes && Closes(c) then Line(st.indent - 1) else []
  }

  function BehindIt(st: State, c: byte): bytes {
    if st.inQuotes then []
    else if Opens(c) then Line(st.indent + 1)
    else if c == COMMA then Line(st.indent)
    else if c == COLON then [SPACE]
    else []
  }

  /** What one character is laid out as. */
  function Shown(st: State, c: byte): bytes {
    BeforeIt(st, c) + [c] + BehindIt(st, c)
  }

  /** The layout of the text from `i` on; a space outside quotes is skipped, with its successor. */
  function Layout(t: bytes, i: nat, st: State): bytes
    decreases |t| - i
  {
    if i >= |t| then []
    else if t[i] == SPACE && !st.inQuotes then Layout(t, i + 2, st)
    else Shown(st, t[i]) + Layout(t, i + 1, Next(st, t[i]))
  }

  /** The indent level never goes below zero, as a memset with its size demands. */
  predicate Safe(t: bytes, i: nat, st: State)
    decreases |t| - i
  {
    if i >= |t| then true
    else if t[i] == SPACE && !st.inQuotes then Safe(t, i + 2, st)
    else Next(st, t[i]).indent >= 0 && Safe(t, i + 1, Next(st, t[i]))
  }

  // ---------- The method ----------

  method PutLine(indent: int, out: Buffer)
    requires indent >= 0 && out.Valid()
    modifies out, out.storage
    ensures out.Valid() && (out.storage == old(out.storage) || fresh(out.storage))
    ensures out.Contents() == old(out.Contents()) + Line(indent)
  {
    ghost var before := out.Contents();
    out.GrowStorage(out.size + 1 + 4 * indent);
    out.Put(NEWLINE);
    assert out.Contents() == before + [NEWLINE] + Spaces(0);
    for k := 0 to 4 * indent
      invariant out.Valid() && (out.storage == old(out.storage) || fresh(out.storage))
      invariant out.size + (4 * indent - k) <= out.storage.Length
      invariant out.Contents() == before + [NEWLINE] + Spaces(k)
    {
      out.Put(SPACE);
      assert Spaces(k + 1) == Spaces(k) + [SPACE];
      ConcatAssoc(before + [NEWLINE], Spaces(k), [SPACE]);
    }
    ConcatAssoc(before, [NEWLINE], Spaces(4 * indent));
  }

  /** One character that is not skipped: the fields of the state are the loop's variables. */
  method Show(st: State, c: byte, out: Buffer) returns (after: State)
    requires st.indent >= 0 && Next(st, c).indent >= 0 && !(c == SPACE && !st.inQuotes) && out.Valid()
    modifies out, out.storage
    ensures out.Valid() && (out.storage == old(out.storage) || fresh(out.storage))
    ensures after == Next(st, c) && out.Contents() == old(out.Contents()) + Shown(st, c)
  {
    hide Line;
    var inQuotes, indentLevel := st.inQuotes, st.indent;
    ghost var before := out.Contents();
    if c == QUOTE && st.previous != BACKSLASH {
      inQuotes := !inQuotes;
    } else if Closes(c) && !inQuotes {
      indentLevel := indentLevel - 1;
      PutLine(indentLevel, out);
    }
    assert out.Contents() == before + BeforeIt(st, c);
    out.Append(c);
    ghost var upTo := before + BeforeIt(st, c) + [c];
    if (c == COMMA || Opens(c)) && !inQuotes {
      if Opens(c) {
        indentLevel := indentLevel + 1;
      }
      PutLine(indentLevel, out);
    } else if c == COLON && !inQuotes {
      out.Append(SPACE);
    }
    assert out.Contents() == upTo + BehindIt(st, c);
    FourParts(before, BeforeIt(st, c), [c], BehindIt(st, c));
    return State(inQuotes, indentLevel, c);
  }

  method Print(text: bytes) returns (pretty: bytes)
    requires Safe(text, 0, START)
    ensures pretty == Layout(text, 0, START) + [0]
  {
    hide Layout, Safe, Shown, Next;
    var out := new Buffer(INITIAL_SIZE);
    var st := START;
    var i := 0;
    assert [] + Layout(text, 0, START) == Layout(text, 0, START);
    while i < |text|
      invariant out.Valid() && fresh(out) && fresh(out.storage) && st.indent >= 0
      invariant Safe(text, i, st)
      invariant out.Contents() + Layout(text, i, st) == Layout(text, 0, START)
      decreases |text| - i
    {
      LayoutStep(text, i, st);
      if text[i] == SPACE && !st.inQuotes {
        i := i + 2;
        continue;
      }
      ConcatAssoc(out.Contents(), Shown(st, text[i]), Layout(text, i + 1, Next(st, text[i])));
      st := Show(st, text[i], out);
      i := i + 1;
    }
    LayoutEnds(text, i, st);
    assert out.Contents() + [] == out.Contents();
    out.Append(0);
    pretty := out.storage[..out.size];
  }

  lemma LayoutStep(t: bytes, i: nat, st: State)
    requires i < |t| && Safe(t, i, st)
    ensures t[i] == SPACE && !st.inQuotes ==> Layout(t, i, st) == Layout(t, i + 2, st) && Safe(t, i + 2, st)
    ensures !(t[i] == SPACE && !st.inQuotes) ==>
              && Layout(t, i, st) == Shown(st, t[i]) + Layout(t, i + 1, Next(st, t[i]))
              && Next(st, t[i]).indent >= 0 && Safe(t, i + 1, Next(st, t[i]))
  {
  }

  lemma LayoutEnds(t: bytes, i: nat, st: State)
    requires i >= |t|
    ensures Layout(t, i, st) == []
  {
  }

  // ---------- What the text really is ----------

  datatype Mode = Outside | Inside | Escaped

  /** JSON's strings: a backslash escapes the next byte. */
  function Lex(m: Mode, c: byte): Mode {
    match m
    case Outside => if c == QUOTE then Inside else Outside
    case Inside => if c == BACKSLASH then Escaped else if c == QUOTE then Outside else Inside
    case Escaped => Inside
  }

  function LexAt(t: bytes, n: nat): Mode
    requires n <= |t|
  {
    if n == 0 then Outside else Lex(LexAt(t, n - 1), t[n - 1])
  }

  /** Brackets open before position `n`. */
  function Nesting(t: bytes, n: nat): int
    requires n <= |t|
  {
    if n == 0 then 0
    else Nesting(t, n - 1) + if LexAt(t, n - 1).Outside? then Nests(t[n - 1]) else 0
  }

  function Previous(t: bytes, n: nat): byte
    requires n <= |t|
  {
    if n == 0 then 0 else t[n - 1]
  }

  /** A quote that opens or closes a string although a backslash stands in front of it. */
  predicate Misread(t: bytes, i: nat)
    requires i < |t|
  {
    t[i] == QUOTE && Previous(t, i) == BACKSLASH && !LexAt(t, i).Escaped?
  }

  /** The printer knows whether position `n` is inside a string and how deep it is nested. */
  predicate AgreesAt(t: bytes, n: nat, st: State)
    requires n <= |t|
  {
    (st.inQuotes <==> !LexAt(t, n).Outside?) && st.indent == Nesting(t, n)
  }

  /** It does so at every position its loop visits from `i` on, and at the end. */
  predicate Tracks(t: bytes, i: nat, st: State)
    decreases |t| - i
  {
    if i >= |t| then AgreesAt(t, |t|, st)
    else
      && AgreesAt(t, i, st)
      && if t[i] == SPACE && !st.inQuotes then Tracks(t, i + 2, st) else Tracks(t, i + 1, Next(st, t[i]))
  }

  /** Read as JSON from `i` on, two characters at a time where a space stands between tokens: no such
      space stands in front of a quote or a bracket, and no other quote that opens or closes a string
      comes right after a backslash. */
  predicate Trackable(t: bytes, i: nat, previous: byte)
    decreases |t| - i
  {
    if i >= |t| then true
    else if t[i] == SPACE && LexAt(t, i).Outside? then
      (i + 1 < |t| ==> t[i + 1] != QUOTE && Nests(t[i + 1]) == 0) && Trackable(t, i + 2, previous)
    else
      !(t[i] == QUOTE && previous == BACKSLASH && !LexAt(t, i).Escaped?) && Trackable(t, i + 1, t[i])
  }

  /** What the printer's state and the text have in common while it tracks. */
  predicate OnTrack(t: bytes, i: nat, st: State)
    requires i <= |t|
  {
    AgreesAt(t, i, st) && (LexAt(t, i).Escaped? ==> st.previous == BACKSLASH)
  }

  lemma SkipKeepsTrackIff(t: bytes, i: nat, st: State)
    requires i + 1 < |t| && OnTrack(t, i, st) && t[i] == SPACE && !st.inQuotes
    ensures AgreesAt(t, i + 2, st) <==> t[i + 1] != QUOTE && Nests(t[i + 1]) == 0
    ensures AgreesAt(t, i + 2, st) ==> OnTrack(t, i + 2, st)
  {
    assert LexAt(t, i + 1) == Outside && Nesting(t, i + 1) == Nesting(t, i);
  }

  lemma ShowKeepsTrackIff(t: bytes, i: nat, st: State)
    requires i < |t| && OnTrack(t, i, st)
    ensures AgreesAt(t, i + 1, Next(st, t[i]))
            <==> !(t[i] == QUOTE && st.previous == BACKSLASH && !LexAt(t, i).Escaped?)
    ensures AgreesAt(t, i + 1, Next(st, t[i])) ==> OnTrack(t, i + 1, Next(st, t[i]))
    ensures Next(st, t[i]).previous == t[i]
  {
  }

  lemma {:induction false} TracksFromIff(t: bytes, i: nat, st: State)
    requires i <= |t| && OnTrack(t, i, st)
    ensures Tracks(t, i, st) <==> Trackable(t, i, st.previous)
    decreases |t| - i
  {
    hide AgreesAt, LexAt, Nesting, Nests, Next;
    if i < |t| {
      AgreementIsNecessary(t, i, st);
      if t[i] == SPACE && !st.inQuotes {
        if i + 1 < |t| {
          SkipKeepsTrackIff(t, i, st);
          if AgreesAt(t, i + 2, st) {
            TracksFromIff(t, i + 2, st);
          }
          AgreementIsNecessary(t, i + 2, st);
        } else {
          LastSpaceAgrees(t, st);
          assert Tracks(t, i + 2, st) && Trackable(t, i + 2, st.previous);
        }
      } else {
        ShowKeepsTrackIff(t, i, st);
        if AgreesAt(t, i + 1, Next(st, t[i])) {
          TracksFromIff(t, i + 1, Next(st, t[i]));
        }
        AgreementIsNecessary(t, i + 1, Next(st, t[i]));
      }
    }
  }

  lemma AgreementIsNecessary(t: bytes, i: nat, st: State)
    requires i <= |t|
    ensures Tracks(t, i, st) ==> AgreesAt(t, i, st)
    ensures AgreesAt(t, i, st) ==> (st.inQuotes <==> !LexAt(t, i).Outside?)
  {
  }

  lemma LastSpaceAgrees(t: bytes, st: State)
    requires t != [] && t[|t| - 1] == SPACE && !st.inQuotes && AgreesAt(t, |t| - 1, st)
    ensures AgreesAt(t, |t|, st)
  {
  }

  /** Along the loop's real run the printer tells strings and nesting right at every position it visits
      if and only if the text is trackable. */
  lemma TracksIff(t: bytes)
    ensures Tracks(t, 0, START) <==> Trackable(t, 0, 0)
  {
    hide Tracks, Trackable;
    TracksFromIff(t, 0, START);
  }

  /** A space between tokens can hide the start of a string: its comma is taken for structure. */
  lemma SpaceHidesAString()
    ensures var t := [SPACE, QUOTE, COMMA, SPACE];
            && !Trackable(t, 0, 0) && (forall i | 0 <= i < |t| :: !Misread(t, i))
            && LexAt(t, 2) == Inside && Layout(t, 0, START) == [COMMA, NEWLINE]
  {
    var t := [SPACE, QUOTE, COMMA, SPACE];
    assert LexAt(t, 0) == Outside && t[0] == SPACE && t[1] == QUOTE;
    assert LexAt(t, 1) == Lex(LexAt(t, 0), t[0]) == Outside;
    assert LexAt(t, 2) == Lex(LexAt(t, 1), t[1]) == Inside;
    assert Layout(t, 3, Next(START, COMMA)) == [];
    assert Spaces(0) == [];
    assert Shown(START, COMMA) == [COMMA, NEWLINE];
    assert Layout(t, 2, START) == [COMMA, NEWLINE];
  }

  /** No bracket behind position `i` closes more than has been opened. */
  ghost predicate StaysOpen(t: bytes, i: nat) {
    forall n | i < n <= |t| :: Nesting(t, n) >= 0
  }

  lemma {:induction false} SafeFromIff(t: bytes, i: nat, st: State)
    requires i <= |t| && OnTrack(t, i, st) && Trackable(t, i, st.previous) && Nesting(t, i) >= 0
    ensures Safe(t, i, st) <==> StaysOpen(t, i)
    decreases |t| - i
  {
    hide LexAt, Nests, Nesting, Next, AgreesAt;
    if i < |t| {
      AgreementIsNecessary(t, i, st);
      if t[i] == SPACE && !st.inQuotes {
        SpaceDoesNotNest(t, i);
        if i + 1 < |t| {
          SkipKeepsTrackIff(t, i, st);
          NestingIsIndent(t, i, st);
          NestingIsIndent(t, i + 2, st);
          SafeFromIff(t, i + 2, st);
        } else {
          assert Safe(t, i + 2, st);
        }
      } else {
        ShowKeepsTrackIff(t, i, st);
        NestingIsIndent(t, i + 1, Next(st, t[i]));
        if Nesting(t, i + 1) >= 0 {
          SafeFromIff(t, i + 1, Next(st, t[i]));
        }
      }
    }
  }

  lemma NestingIsIndent(t: bytes, i: nat, st: State)
    requires i <= |t| && AgreesAt(t, i, st)
    ensures st.indent == Nesting(t, i)
  {
  }

  lemma SpaceDoesNotNest(t: bytes, i: nat)
    requires i < |t| && t[i] == SPACE && LexAt(t, i).Outside?
    ensures LexAt(t, i + 1) == Outside && Nesting(t, i + 1) == Nesting(t, i)
  {
  }

  /** For a trackable text the indent level stays non-negative exactly if no bracket closes too much. */
  lemma SafeIff(t: bytes)
    requires Trackable(t, 0, 0)
    ensures Safe(t, 0, START) <==> StaysOpen(t, 0)
  {
    hide Trackable, Safe;
    SafeFromIff(t, 0, START);
  }

  // ---------- Layout can be erased again ----------

  predicate IsBlank(c: byte) {
    c == SPACE || c == NEWLINE
  }

  /** Nothing at position `i` misleads the printer: no misread quote, no blank between tokens, no
      closing bracket without an open one. */
  predicate CleanAt(t: bytes, i: nat)
    requires i < |t|
  {
    && !Misread(t, i)
    && (LexAt(t, i).Outside? ==> !IsBlank(t[i]) && (Closes(t[i]) ==> Nesting(t, i) > 0))
  }

  ghost predicate Clean(t: bytes) {
    forall i | 0 <= i < |t| :: CleanAt(t, i)
  }

  function LexAll(p: bytes, m: Mode): Mode
    decreases |p|
  {
    if p == [] then m else LexAll(p[1..], Lex(m, p[0]))
  }

  function Kept(c: byte, m: Mode): bytes {
    if m.Outside? && IsBlank(c) then [] else [c]
  }

  /** The text without the blanks between its tokens. */
  function Erase(p: bytes, m: Mode): bytes
    decreases |p|
  {
    if p == [] then [] else Kept(p[0], m) + Erase(p[1..], Lex(m, p[0]))
  }

  lemma {:induction false} EraseConcat(a: bytes, b: bytes, m: Mode)
    ensures Erase(a + b, m) == Erase(a, m) + Erase(b, LexAll(a, m))
    ensures LexAll(a + b, m) == LexAll(b, LexAll(a, m))
    decreases |a|
  {
    hide *;
    if a == [] {
      assert a + b == b;
      EraseNothing(m);
      assert [] + Erase(b, m) == Erase(b, m);
    } else {
      assert (a + b)[1..] == a[1..] + b && (a + b)[0] == a[0];
      EraseUnfolds(a, m);
      EraseUnfolds(a + b, m);
      EraseConcat(a[1..], b, Lex(m, a[0]));
      ConcatAssoc(Kept(a[0], m), Erase(a[1..], Lex(m, a[0])), Erase(b, LexAll(a, m)));
    }
  }

  lemma EraseUnfolds(p: bytes, m: Mode)
    requires p != []
    ensures Erase(p, m) == Kept(p[0], m) + Erase(p[1..], Lex(m, p[0])) && LexAll(p, m) == LexAll(p[1..], Lex(m, p[0]))
  {
  }

  lemma EraseNothing(m: Mode)
    ensures Erase([], m) == [] && LexAll([], m) == m
  {
  }

  lemma EraseOne(c: byte, m: Mode)
    ensures Erase([c], m) == Kept(c, m) && LexAll([c], m) == Lex(m, c)
  {
    assert [c][1..] == [];
  }

  lemma {:induction false} SpacesVanish(n: nat)
    ensures Erase(Spaces(n), Outside) == [] && LexAll(Spaces(n), Outside) == Outside
  {
    if n == 0 {
      EraseNothing(Outside);
    } else {
      SpacesVanish(n - 1);
      assert Spaces(n) == Spaces(n - 1) + [SPACE];
      EraseConcat(Spaces(n - 1), [SPACE], Outside);
      EraseOne(SPACE, Outside);
    }
  }

  lemma LineVanishes(indent: int)
    ensures Erase(Line(indent), Outside) == [] && LexAll(Line(indent), Outside) == Outside
  {
    EraseOne(NEWLINE, Outside);
    if indent < 0 {
      assert Line(indent) == [NEWLINE];
    } else {
      EraseConcat([NEWLINE], Spaces(4 * indent), Outside);
      SpacesVanish(4 * indent);
    }
  }

  lemma ShownErases(st: State, c: byte, m: Mode)
    requires st.inQuotes <==> !m.Outside?
    ensures Erase(Shown(st, c), m) == Kept(c, m) && LexAll(Shown(st, c), m) == Lex(m, c)
  {
    hide Erase, LexAll, Line, Shown;
    var a, b := BeforeIt(st, c), BehindIt(st, c);
    EraseNothing(m);
    EraseNothing(Lex(m, c));
    EraseOne(c, m);
    EraseOne(SPACE, Outside);
    LineVanishes(st.indent - 1);
    LineVanishes(st.indent);
    LineVanishes(st.indent + 1);
    assert Erase(a, m) == [] && LexAll(a, m) == m;
    assert Erase(b, Lex(m, c)) == [] && LexAll(b, Lex(m, c)) == Lex(m, c);
    EraseConcat(a, [c], m);
    EraseConcat(a + [c], b, m);
    assert [] + Kept(c, m) + [] == Kept(c, m);
    ShownIs(st, c);
  }

  lemma ShownIs(st: State, c: byte)
    ensures Shown(st, c) == BeforeIt(st, c) + [c] + BehindIt(st, c)
  {
  }

  // ---------- What the layout loses ----------

  /** Behind every space that is skipped stands a blank or the end. */
  predicate NothingSwallowed(t: bytes, i: nat)
    decreases |t| - i
  {
    if i >= |t| then true
    else if t[i] == SPACE && LexAt(t, i).Outside? then
      (i + 1 < |t| ==> IsBlank(t[i + 1])) && NothingSwallowed(t, i + 2)
    else NothingSwallowed(t, i + 1)
  }

  lemma {:induction false} ErasesFromIff(t: bytes, i: nat, st: State)
    requires i <= |t| && OnTrack(t, i, st) && Trackable(t, i, st.previous)
    ensures var printed, given := Erase(Layout(t, i, st), LexAt(t, i)), Erase(t[i..], LexAt(t, i));
            |printed| <= |given| && (printed == given <==> NothingSwallowed(t, i))
    decreases |t| - i
  {
    hide Shown, Erase, LexAll, Nests, Nesting;
    var m := LexAt(t, i);
    if i == |t| {
      assert t[i..] == [];
    } else {
      AgreementIsNecessary(t, i, st);
      var c := t[i];
      assert t[i..][0] == c && t[i..][1..] == t[i + 1..];
      EraseUnfolds(t[i..], m);
      if c == SPACE && !st.inQuotes {
        if i + 1 < |t| {
          SkipKeepsTrackIff(t, i, st);
          assert t[i + 1..][0] == t[i + 1] && t[i + 1..][1..] == t[i + 2..];
          EraseUnfolds(t[i + 1..], Lex(m, c));
          ErasesFromIff(t, i + 2, st);
        } else {
          assert t[i + 1..] == [];
          EraseNothing(m);
          EraseNothing(Lex(m, c));
        }
      } else {
        ShowKeepsTrackIff(t, i, st);
        ErasesFromIff(t, i + 1, Next(st, c));
        ShownErases(st, c, m);
        EraseConcat(Shown(st, c), Layout(t, i + 1, Next(st, c)), m);
        SameHead(Kept(c, m), Erase(Layout(t, i + 1, Next(st, c)), LexAt(t, i + 1)), Erase(t[i + 1..], LexAt(t, i + 1)));
      }
    }
  }

  /** Erasing the blanks between the tokens of the layout and of a trackable text gives the same if and
      only if no skipped space takes anything but a blank with it. */
  lemma LayoutErasesIff(t: bytes)
    requires Trackable(t, 0, 0)
    ensures Erase(Layout(t, 0, START), Outside) == Erase(t, Outside) <==> NothingSwallowed(t, 0)
  {
    hide Layout, Erase, Trackable, NothingSwallowed;
    assert t[0..] == t;
    ErasesFromIff(t, 0, START);
  }

  // ---------- What the layout looks like ----------

  /** A new line with four spaces for each open bracket. */
  function NewLine(open: int): bytes {
    [0x0A] + if open < 0 then [] else seq(4 * open, _ => 0x20)
  }

  /** How the byte at `i` must appear, told by what the text really is: bytes of strings as they are; opening
      brackets and commas followed by a new line, closing ones behind a new line, colons followed by a space. */
  function Placed(t: bytes, i: nat): bytes
    requires i < |t|
  {
    if !LexAt(t, i).Outside? then [t[i]]
    else if t[i] in {0x7D, 0x5D} then NewLine(Nesting(t, i + 1)) + [t[i]]
    else if t[i] in {0x7B, 0x5B, 0x2C} then [t[i]] + NewLine(Nesting(t, i + 1))
    else if t[i] == 0x3A then [t[i], 0x20]
    else [t[i]]
  }

  function LaidOut(t: bytes, i: nat): bytes
    decreases |t| - i
  {
    if i >= |t| then []
    else if t[i] == SPACE && LexAt(t, i).Outside? then LaidOut(t, i + 2)
    else Placed(t, i) + LaidOut(t, i + 1)
  }

  lemma LineIsNewLine(open: int)
    ensures Line(open) == NewLine(open)
  {
  }

  lemma ShownIsPlaced(t: bytes, i: nat, st: State)
    requires i < |t| && AgreesAt(t, i, st) && AgreesAt(t, i + 1, Next(st, t[i]))
    ensures Shown(st, t[i]) == Placed(t, i)
  {
    hide LexAt, Nesting, NewLine, Line;
    var c := t[i];
    LineIsNewLine(Nesting(t, i + 1));
    assert !st.inQuotes && c != QUOTE ==> Nesting(t, i + 1) == st.indent + Nests(c);
    assert BeforeIt(st, c) + [c] + [] == BeforeIt(st, c) + [c] && [] + [c] == [c];
    assert [c] + [SPACE] == [c, 0x20];
  }

  lemma {:induction false} LayoutFromIs(t: bytes, i: nat, st: State)
    requires i <= |t| && OnTrack(t, i, st) && Trackable(t, i, st.previous)
    ensures Layout(t, i, st) == LaidOut(t, i)
    decreases |t| - i
  {
    hide Shown, Placed, LexAt, Nests, Nesting, Next, AgreesAt;
    if i < |t| {
      AgreementIsNecessary(t, i, st);
      if t[i] == SPACE && !st.inQuotes {
        if i + 1 < |t| {
          SkipKeepsTrackIff(t, i, st);
          LayoutFromIs(t, i + 2, st);
        }
      } else {
        ShowKeepsTrackIff(t, i, st);
        ShownIsPlaced(t, i, st);
        LayoutFromIs(t, i + 1, Next(st, t[i]));
      }
    }
  }

  /** On every text that the printer tracks, byte by byte, its layout is the one that the brackets, commas and
      colons outside the strings call for. */
  lemma LayoutIsLaidOut(t: bytes)
    requires Trackable(t, 0, 0)
    ensures Layout(t, 0, START) == LaidOut(t, 0)
  {
    LayoutFromIs(t, 0, START);
  }

  lemma {:induction false} LayoutReadsOnlyTheRest(t: bytes, u: bytes, i: nat, st: State)
    requires |t| == |u| && forall k | i <= k < |t| :: t[k] == u[k]
    ensures Layout(t, i, st) == Layout(u, i, st)
    decreases |t| - i
  {
    hide Shown, Next;
    if i < |t| {
      if t[i] == SPACE && !st.inQuotes {
        LayoutReadsOnlyTheRest(t, u, i + 2, st);
      } else {
        LayoutReadsOnlyTheRest(t, u, i + 1, Next(st, t[i]));
      }
    }
  }

  /** Skipping a space outside quotes also skips the character behind it, whatever that is. */
  lemma SpaceSwallowsItsSuccessor(t: bytes, i: nat, st: State, c: byte)
    requires i + 1 < |t| && t[i] == SPACE && !st.inQuotes
    ensures Layout(t[i + 1 := c], i, st) == Layout(t, i, st)
  {
    LayoutReadsOnlyTheRest(t[i + 1 := c], t, i + 2, st);
  }

  // ---------- Clean texts ----------

  /** No blank stands between tokens. */
  ghost predicate Compact(t: bytes) {
    forall i | 0 <= i < |t| :: LexAt(t, i).Outside? ==> !IsBlank(t[i])
  }

  lemma {:induction false} CompactTracksIff(t: bytes, i: nat)
    requires Compact(t) && i <= |t|
    ensures Trackable(t, i, Previous(t, i)) <==> forall j | i <= j < |t| :: !Misread(t, j)
    ensures NothingSwallowed(t, i)
    decreases |t| - i
  {
    hide LexAt;
    if i < |t| {
      CompactTracksIff(t, i + 1);
      assert Previous(t, i + 1) == t[i] && !(t[i] == SPACE && LexAt(t, i).Outside?);
      assert Trackable(t, i, Previous(t, i)) <==> !Misread(t, i) && Trackable(t, i + 1, t[i]);
    }
  }

  lemma {:induction false} CompactErasesToItself(t: bytes, i: nat)
    requires Compact(t) && i <= |t|
    ensures Erase(t[i..], LexAt(t, i)) == t[i..]
    decreases |t| - i
  {
    hide Erase, IsBlank;
    if i == |t| {
      EraseNothing(LexAt(t, i));
    } else {
      CompactErasesToItself(t, i + 1);
      assert t[i..][1..] == t[i + 1..];
      EraseUnfolds(t[i..], LexAt(t, i));
      SliceHead(t, i, |t|);
      assert t[i..] == t[i..|t|] && t[i + 1..] == t[i + 1..|t|];
    }
  }

  lemma {:induction false} NestingStaysOpen(t: bytes, n: nat)
    requires Clean(t) && n <= |t|
    ensures Nesting(t, n) >= 0
    decreases n
  {
    if n > 0 {
      NestingStaysOpen(t, n - 1);
      assert CleanAt(t, n - 1);
    }
  }

  lemma CleanIsCompact(t: bytes)
    requires Clean(t)
    ensures Compact(t) && forall j | 0 <= j < |t| :: !Misread(t, j)
  {
    forall i | 0 <= i < |t| ensures !Misread(t, i) && (LexAt(t, i).Outside? ==> !IsBlank(t[i])) {
      assert CleanAt(t, i);
    }
  }

  /** A clean text can be printed, the printer tracks it, and erasing the blanks outside its strings
      gives it back. */
  lemma PrettyTextErases(t: bytes)
    requires Clean(t)
    ensures Safe(t, 0, START) && Tracks(t, 0, START)
    ensures Erase(Layout(t, 0, START), Outside) == t
  {
    hide Erase, Layout, Safe, Clean, Tracks, Trackable, NothingSwallowed, Compact, Misread;
    CleanIsCompact(t);
    CompactTracksIff(t, 0);
    TracksIff(t);
    forall n | 0 < n <= |t| ensures Nesting(t, n) >= 0 {
      NestingStaysOpen(t, n);
    }
    assert StaysOpen(t, 0);
    SafeIff(t);
    LayoutErasesIff(t);
    assert t[0..] == t;
    CompactErasesToItself(t, 0);
  }
}
