/** Bytes, byte strings, and the view a C pointer has of a NUL-terminated text. */
module Bytes {

  type byte = b: int | 0 <= b < 256
  type bytes = seq<byte>

  datatype Option<+T> = None | Some(value: T)

  const QUOTE: byte := 0x22      // "
  const BACKSLASH: byte := 0x5C  // \
  const SLASH: byte := 0x2F      // /
  const COMMA: byte := 0x2C
  const COLON: byte := 0x3A
  const MINUS: byte := 0x2D
  const PLUS: byte := 0x2B
  const DOT: byte := 0x2E
  const ZERO: byte := 0x30       // the digit 0
  const LBRACE: byte := 0x7B
  const RBRACE: byte := 0x7D
  const LBRACKET: byte := 0x5B
  const RBRACKET: byte := 0x5D
  const SPACE: byte := 0x20
  const NEWLINE: byte := 0x0A
  const LOWER_U: byte := 0x75
  const LOWER_X: byte := 0x78
  const UPPER_X: byte := 0x58

  const NULL_TOKEN: bytes := [0x6E, 0x75, 0x6C, 0x6C]
  const TRUE_TOKEN: bytes := [0x74, 0x72, 0x75, 0x65]
  const FALSE_TOKEN: bytes := [0x66, 0x61, 0x6C, 0x73, 0x65]

  /** The byte at `i`: the terminating NUL stands right after the last byte. */
  function At(s: bytes, i: nat): byte {
    if i < |s| then s[i] else 0
  }

  function Spaces(n: nat): bytes {
    seq(n, _ => SPACE)
  }

  predicate NulFree(s: bytes) {
    0 !in s
  }

  predicate IsSpace(b: byte) {
    b == SPACE || 0x09 <= b <= 0x0D
  }

  /** What the letter behind a backslash stands for; u is treated separately. */
  function SimpleEscape(c: byte): Option<byte> {
    if c == QUOTE || c == BACKSLASH || c == SLASH then Some(c)
    else if c == 0x62 then Some(0x08) // b
    else if c == 0x66 then Some(0x0C) // f
    else if c == 0x6E then Some(0x0A) // n
    else if c == 0x72 then Some(0x0D) // r
    else if c == 0x74 then Some(0x09) // t
    else None
  }

  /** The value of a hexadecimal digit; -1 for every other character. */
  function HexCharToInt(c: byte): (r: int)
    ensures -1 <= r < 16
  {
    if 0x30 <= c <= 0x39 then c - 0x30
    else if 0x61 <= c <= 0x66 then c - 0x61 + 10
    else if 0x41 <= c <= 0x46 then c - 0x41 + 10
    else -1
  }

  /** `t` stands in `s` at position `i`. */
  predicate Occurs(s: bytes, i: nat, t: bytes) {
    i + |t| <= |s| && s[i..i + |t|] == t
  }

  /** What the C string functions see of a buffer: everything before its first NUL. */
  function CString(s: bytes): (r: bytes)
    ensures NulFree(r) && |r| <= |s| && r == s[..|r|]
    ensures |r| < |s| ==> s[|r|] == 0
  {
    if s == [] || s[0] == 0 then [] else [s[0]] + CString(s[1..])
  }

  lemma {:induction false} CStringOfNulFree(s: bytes)
    requires NulFree(s)
    ensures CString(s) == s
  {
    if s != [] {
      CStringOfNulFree(s[1..]);
    }
  }

  lemma OccursConcat(s: bytes, i: nat, a: bytes, b: bytes)
    ensures Occurs(s, i, a + b) <==> Occurs(s, i, a) && Occurs(s, i + |a|, b)
  {
    if Occurs(s, i, a + b) {
      assert s[i..i + |a|] == s[i..i + |a + b|][..|a|] == a;
      assert s[i + |a|..i + |a| + |b|] == s[i..i + |a + b|][|a|..] == b;
    }
    if Occurs(s, i, a) && Occurs(s, i + |a|, b) {
      assert s[i..i + |a + b|] == s[i..i + |a|] + s[i + |a|..i + |a| + |b|];
    }
  }

  lemma OccursAt(s: bytes, i: nat, t: bytes, k: nat)
    requires Occurs(s, i, t) && k < |t|
    ensures i + k < |s| && s[i + k] == t[k]
  {
    assert s[i + k] == s[i..i + |t|][k];
  }

  lemma ConcatAssoc<T>(a: seq<T>, b: seq<T>, c: seq<T>)
    ensures a + b + c == a + (b + c)
  {
  }

  lemma FourParts<T>(a: seq<T>, b: seq<T>, c: seq<T>, d: seq<T>)
    ensures a + b + c + d == a + (b + c + d)
  {
  }

  lemma SliceHead<T>(s: seq<T>, i: nat, j: nat)
    requires i < j <= |s|
    ensures s[i..j] == [s[i]] + s[i + 1..j]
  {
  }

  lemma SameHead<T>(h: seq<T>, a: seq<T>, b: seq<T>)
    ensures h + a == h + b <==> a == b
  {
    if h + a == h + b {
      assert (h + a)[|h|..] == a && (h + b)[|h|..] == b;
    }
  }
}
