/** UTF-8 validation (section 4 of RFC 3629), as the JSON library does it byte by byte. */
module Utf8 {
  import opened Bytes

  // ---------- The validator ----------

  predicate IsCont(b: byte) {
    b / 64 == 2
  }

  /** Length announced by a lead byte, 0 when no sequence can start with it. */
  function SequenceLength(c: byte): nat {
    if c == 0xC0 || c == 0xC1 || c > 0xF4 || IsCont(c) then 0
    else if c < 0x80 then 1
    else if c / 32 == 6 then 2
    else if c / 16 == 14 then 3
    else if c / 8 == 30 then 4
    else 0
  }

  /** The code point assembled from a lead byte and `len - 1` continuation bytes. */
  function Assemble(s: bytes, i: nat, len: nat): nat {
    if len == 1 then At(s, i)
    else if len == 2 then At(s, i) % 32 * 64 + At(s, i + 1) % 64
    else if len == 3 then (At(s, i) % 16 * 64 + At(s, i + 1) % 64) * 64 + At(s, i + 2) % 64
    else ((At(s, i) % 8 * 64 + At(s, i + 1) % 64) * 64 + At(s, i + 2) % 64) * 64 + At(s, i + 3) % 64
  }

  /** Length of the sequence at `i`, 0 when it is rejected. */
  function VerifySequence(s: bytes, i: nat): nat {
    var len := SequenceLength(At(s, i));
    if len == 0
       || (len >= 2 && !IsCont(At(s, i + 1)))
       || (len >= 3 && !IsCont(At(s, i + 2)))
       || (len >= 4 && !IsCont(At(s, i + 3))) then 0
    else
      var cp := Assemble(s, i, len);
      if (cp < 0x80 && len > 1) || (cp < 0x800 && len > 2) || (cp < 0x10000 && len > 3) then 0 // overlong
      else if cp > 0x10FFFF then 0
      else if 0xD800 <= cp <= 0xDFFF then 0 // surrogate halves
      else len
  }

  /** Every sequence from `i` on is accepted and the last one ends exactly at `end`. */
  predicate ValidRange(s: bytes, i: nat, end: nat)
    decreases end - i
  {
    if i >= end then i == end
    else
      var len := VerifySequence(s, i);
      len > 0 && ValidRange(s, i + len, end)
  }

  // ---------- The standard ----------

  predicate IsScalar(cp: int) {
    0 <= cp < 0xD800 || 0xE000 <= cp <= 0x10FFFF
  }

  function Encode(cp: int): (r: bytes)
    requires IsScalar(cp)
  {
    if cp < 0x80 then [cp]
    else if cp < 0x800 then [0xC0 + cp / 64, 0x80 + cp % 64]
    else if cp < 0x10000 then [0xE0 + cp / 4096, 0x80 + cp / 64 % 64, 0x80 + cp % 64]
    else [0xF0 + cp / 262144, 0x80 + cp / 4096 % 64, 0x80 + cp / 64 % 64, 0x80 + cp % 64]
  }

  predicate AllScalars(cps: seq<int>) {
    forall k | 0 <= k < |cps| :: IsScalar(cps[k])
  }

  function EncodeAll(cps: seq<int>): bytes
    requires AllScalars(cps)
  {
    if cps == [] then [] else Encode(cps[0]) + EncodeAll(cps[1..])
  }

  /** `s` is a concatenation of encodings of Unicode scalar values. */
  ghost predicate WellEncoded(s: bytes) {
    exists cps: seq<int> :: AllScalars(cps) && s == EncodeAll(cps)
  }

  // ---------- The validator accepts exactly the standard's encodings ----------

  lemma LeadBytes(c: byte)
    ensures IsCont(c) <==> 0x80 <= c < 0xC0
    ensures SequenceLength(c) == 1 <==> c < 0x80
    ensures SequenceLength(c) == 2 <==> 0xC2 <= c < 0xE0
    ensures SequenceLength(c) == 3 <==> 0xE0 <= c < 0xF0
    ensures SequenceLength(c) == 4 <==> 0xF0 <= c <= 0xF4
    ensures SequenceLength(c) <= 4
  {
  }

  lemma Split3(cp: int, a: int, b: int, c: int)
    requires 0 <= b < 64 && 0 <= c < 64
    requires cp == (a * 64 + b) * 64 + c
    ensures cp / 4096 == a && cp / 64 % 64 == b && cp % 64 == c
  {
    assert cp / 64 == a * 64 + b;
  }

  lemma Split4(cp: int, a: int, b: int, c: int, d: int)
    requires 0 <= b < 64 && 0 <= c < 64 && 0 <= d < 64
    requires cp == ((a * 64 + b) * 64 + c) * 64 + d
    ensures cp / 262144 == a && cp / 4096 % 64 == b && cp / 64 % 64 == c && cp % 64 == d
  {
    assert cp / 64 == (a * 64 + b) * 64 + c;
    Split3(cp / 64, a, b, c);
    assert cp / 4096 == cp / 64 / 64;
    assert cp / 262144 == cp / 64 / 4096;
  }

  lemma EncodingIsAccepted(s: bytes, i: nat, cp: int)
    requires IsScalar(cp) && Occurs(s, i, Encode(cp))
    ensures VerifySequence(s, i) == |Encode(cp)| && Assemble(s, i, |Encode(cp)|) == cp
  {
    var e := Encode(cp);
    OccursAt(s, i, e, 0);
    if |e| >= 2 { OccursAt(s, i, e, 1); LeadBytes(e[1]); }
    if |e| >= 3 { OccursAt(s, i, e, 2); LeadBytes(e[2]); }
    if |e| >= 4 { OccursAt(s, i, e, 3); LeadBytes(e[3]); }
    LeadBytes(e[0]);
    AssembleEncoding(s, i, cp);
  }

  lemma AssembleEncoding(s: bytes, i: nat, cp: int)
    requires IsScalar(cp)
    requires forall k | 0 <= k < |Encode(cp)| :: At(s, i + k) == Encode(cp)[k]
    ensures Assemble(s, i, |Encode(cp)|) == cp
  {
    var e := Encode(cp);
    assert At(s, i + 0) == e[0];
    if |e| == 2 {
      assert At(s, i + 1) == e[1];
    } else if |e| == 3 {
      assert At(s, i + 1) == e[1] && At(s, i + 2) == e[2];
      Join3(cp, e[0], e[1], e[2]);
    } else if |e| == 4 {
      assert At(s, i + 1) == e[1] && At(s, i + 2) == e[2] && At(s, i + 3) == e[3];
      Join4(cp, e[0], e[1], e[2], e[3]);
    }
  }

  lemma Join3(cp: int, x: int, y: int, z: int)
    requires 0 <= cp < 0x10000
    requires x == 0xE0 + cp / 4096 && y == 0x80 + cp / 64 % 64 && z == 0x80 + cp % 64
    ensures (x % 16 * 64 + y % 64) * 64 + z % 64 == cp
  {
    assert cp / 4096 == cp / 64 / 64;
    assert x % 16 == cp / 4096;
  }

  lemma Join4(cp: int, x: int, y: int, z: int, w: int)
    requires 0 <= cp <= 0x10FFFF
    requires x == 0xF0 + cp / 262144 && y == 0x80 + cp / 4096 % 64
    requires z == 0x80 + cp / 64 % 64 && w == 0x80 + cp % 64
    ensures ((x % 8 * 64 + y % 64) * 64 + z % 64) * 64 + w % 64 == cp
  {
    var q := cp / 64;
    assert cp / 4096 == q / 64 && cp / 262144 == q / 4096;
    assert x % 8 == q / 4096 && y % 64 == q / 64 % 64 && z % 64 == q % 64;
    assert q / 4096 == q / 64 / 64;
    assert (x % 8 * 64 + y % 64) * 64 + z % 64 == q;
  }

  lemma AcceptedIsEncoding(s: bytes, i: nat)
    requires i < |s| && VerifySequence(s, i) > 0
    ensures var len := VerifySequence(s, i);
            var cp := Assemble(s, i, len);
            i + len <= |s| && IsScalar(cp) && s[i..i + len] == Encode(cp)
  {
    LeadBytes(s[i]);
    var len := VerifySequence(s, i);
    var cp := Assemble(s, i, len);
    LeadBytes(At(s, i + 1));
    if len == 1 {
      assert s[i..i + 1] == [s[i]] == Encode(cp);
    } else if len == 2 {
      assert s[i..i + 2] == [s[i], s[i + 1]] == Encode(cp);
    } else if len == 3 {
      AcceptedThree(s, i);
    } else {
      AcceptedFour(s, i);
    }
  }

  lemma AcceptedThree(s: bytes, i: nat)
    requires i < |s| && VerifySequence(s, i) == 3
    ensures i + 3 <= |s| && IsScalar(Assemble(s, i, 3)) && s[i..i + 3] == Encode(Assemble(s, i, 3))
  {
    var cp := Assemble(s, i, 3);
    LeadBytes(s[i]);
    LeadBytes(At(s, i + 1));
    LeadBytes(At(s, i + 2));
    Split3(cp, s[i] % 16, s[i + 1] % 64, s[i + 2] % 64);
    assert s[i..i + 3] == [s[i], s[i + 1], s[i + 2]] == Encode(cp);
  }

  lemma AcceptedFour(s: bytes, i: nat)
    requires i < |s| && VerifySequence(s, i) == 4
    ensures i + 4 <= |s| && IsScalar(Assemble(s, i, 4)) && s[i..i + 4] == Encode(Assemble(s, i, 4))
  {
    var cp := Assemble(s, i, 4);
    LeadBytes(s[i]);
    LeadBytes(At(s, i + 1));
    LeadBytes(At(s, i + 2));
    LeadBytes(At(s, i + 3));
    Split4(cp, s[i] % 8, s[i + 1] % 64, s[i + 2] % 64, s[i + 3] % 64);
    assert s[i..i + 4] == [s[i], s[i + 1], s[i + 2], s[i + 3]] == Encode(cp);
  }

  lemma {:induction false} ValidRangeIsWellEncoded(s: bytes, i: nat, end: nat)
    requires i <= end <= |s| && ValidRange(s, i, end)
    ensures WellEncoded(s[i..end])
    decreases end - i
  {
    hide *;
    if i == end {
      EmptyRange(s, i);
    } else {
      var next := RangeStep(s, i, end);
      ValidRangeIsWellEncoded(s, next, end);
      EncodedConcat(s[i..next], s[next..end]);
      assert s[i..end] == s[i..next] + s[next..end];
    }
  }

  lemma EmptyRange(s: bytes, i: nat)
    requires i <= |s|
    ensures WellEncoded(s[i..i])
  {
    assert s[i..i] == EncodeAll([]);
  }

  /** A valid range that is not empty starts with a well encoded piece. */
  lemma RangeStep(s: bytes, i: nat, end: nat) returns (next: nat)
    requires i < end <= |s| && ValidRange(s, i, end)
    ensures i < next <= end && ValidRange(s, next, end) && WellEncoded(s[i..next])
  {
    hide VerifySequence;
    next := i + VerifySequence(s, i);
    AcceptedIsWellEncoded(s, i);
  }

  lemma AcceptedIsWellEncoded(s: bytes, i: nat)
    requires i < |s| && VerifySequence(s, i) > 0
    ensures i + VerifySequence(s, i) <= |s| && WellEncoded(s[i..i + VerifySequence(s, i)])
  {
    AcceptedIsEncoding(s, i);
    OneEncoded(Assemble(s, i, VerifySequence(s, i)));
  }

  lemma {:induction false} EncodedIsValidRange(s: bytes, i: nat, cps: seq<int>)
    requires AllScalars(cps) && Occurs(s, i, EncodeAll(cps))
    ensures ValidRange(s, i, i + |EncodeAll(cps)|)
    decreases |cps|
  {
    hide Encode, VerifySequence, Occurs, Assemble;
    if cps != [] {
      OccursConcat(s, i, Encode(cps[0]), EncodeAll(cps[1..]));
      EncodingIsAccepted(s, i, cps[0]);
      EncodedIsValidRange(s, i + |Encode(cps[0])|, cps[1..]);
    }
  }

  /** The validator accepts a range exactly when its bytes encode a sequence of scalar values. */
  lemma ValidRangeIffWellEncoded(s: bytes, i: nat, end: nat)
    requires i <= end <= |s|
    ensures ValidRange(s, i, end) <==> WellEncoded(s[i..end])
  {
    if ValidRange(s, i, end) {
      ValidRangeIsWellEncoded(s, i, end);
    }
    if WellEncoded(s[i..end]) {
      var cps :| AllScalars(cps) && s[i..end] == EncodeAll(cps);
      EncodedIsValidRange(s, i, cps);
    }
  }

  method IsValidUtf8(s: bytes) returns (ok: bool)
    ensures ok <==> WellEncoded(s)
  {
    ValidRangeIffWellEncoded(s, 0, |s|);
    assert s[0..|s|] == s;
    var p := 0;
    while p < |s|
      invariant p <= |s|
      invariant ValidRange(s, 0, |s|) == ValidRange(s, p, |s|)
      decreases |s| - p
    {
      var len := VerifySequence(s, p);
      if len == 0 {
        return false;
      }
      AcceptedIsEncoding(s, p);
      p := p + len;
    }
    return true;
  }

  lemma EncodedConcat(a: bytes, b: bytes)
    requires WellEncoded(a) && WellEncoded(b)
    ensures WellEncoded(a + b)
  {
    var ca :| AllScalars(ca) && a == EncodeAll(ca);
    var cb :| AllScalars(cb) && b == EncodeAll(cb);
    EncodeAllConcat(ca, cb);
    assert AllScalars(ca + cb);
  }

  lemma {:induction false} EncodeAllConcat(ca: seq<int>, cb: seq<int>)
    requires AllScalars(ca) && AllScalars(cb)
    ensures EncodeAll(ca + cb) == EncodeAll(ca) + EncodeAll(cb)
  {
    if ca == [] {
      assert ca + cb == cb;
    } else {
      assert (ca + cb)[1..] == ca[1..] + cb;
      EncodeAllConcat(ca[1..], cb);
    }
  }

  lemma OneEncoded(cp: int)
    requires IsScalar(cp)
    ensures WellEncoded(Encode(cp))
  {
    assert Encode(cp) == EncodeAll([cp]);
  }

  /** A sequence of several bytes has no 7-bit byte in it. */
  lemma MultibyteIsHigh(s: bytes, i: nat)
    requires i < |s| && s[i] >= 0x80 && VerifySequence(s, i) > 0
    ensures i + VerifySequence(s, i) <= |s|
    ensures forall k | i <= k < i + VerifySequence(s, i) :: s[k] >= 0x80
  {
    AcceptedIsEncoding(s, i);
    var len := VerifySequence(s, i);
    var e := Encode(Assemble(s, i, len));
    forall k | i <= k < i + len ensures s[k] >= 0x80 {
      assert s[k] == s[i..i + len][k - i] == e[k - i];
      assert e[0] == s[i];
    }
  }
}
