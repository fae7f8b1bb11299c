/** JSON texts (RFC 8259) as documents that remember how they are spelled: which white space stands in which gap
    and how every character of a string is written. Nothing here refers to the parser. */
module Grammar {
  import opened Bytes
  import opened Utf8
  import opened ObjectTable
  import opened JsonValue

  /** The white space of the C locale, a superset of the four bytes of section 2. */
  const BLANKS: set<byte> := {0x20, 0x09, 0x0A, 0x0B, 0x0C, 0x0D}

  ghost predicate Blank(w: bytes) {
    forall k | 0 <= k < |w| :: w[k] in BLANKS
  }

  // ---------- Characters of a string ----------

  /** A byte as it is, a two-character escape, or a code point in UTF-16 escapes (section 7). */
  datatype Char =
    | Plain(b: byte)
    | Short(letter: byte)
    | Unit(cp: nat, hex: bytes)
    | Pair(cp: nat, lead: bytes, trail: bytes)

  const ESCAPES: map<byte, byte> :=
    map[0x22 := 0x22, 0x5C := 0x5C, 0x2F := 0x2F, 0x62 := 0x08, 0x66 := 0x0C, 0x6E := 0x0A, 0x72 := 0x0D, 0x74 := 0x09]

  /** `c` is the hexadecimal digit for `d`, in either case. */
  predicate IsHex(c: byte, d: nat) {
    if d < 10 then c == 0x30 + d else d < 16 && (c == 0x61 + (d - 10) || c == 0x41 + (d - 10))
  }

  /** Four hexadecimal digits, the most significant first. */
  predicate SpellsUnit(h: bytes, unit: nat) {
    && |h| == 4 && unit < 0x10000
    && IsHex(h[0], unit / 0x1000) && IsHex(h[1], unit / 0x100 % 16)
    && IsHex(h[2], unit / 0x10 % 16) && IsHex(h[3], unit % 16)
  }

  predicate GoodChar(c: Char) {
    match c
    case Plain(b) => b >= 0x20 && b != QUOTE && b != BACKSLASH
    case Short(letter) => letter in ESCAPES
    case Unit(cp, hex) => IsScalar(cp) && SpellsUnit(hex, cp)
    case Pair(cp, lead, trail) =>
      && IsScalar(cp) && cp >= 0x10000
      && SpellsUnit(lead, 0xD800 + (cp - 0x10000) / 0x400) && SpellsUnit(trail, 0xDC00 + (cp - 0x10000) % 0x400)
  }

  predicate GoodChars(cs: seq<Char>) {
    forall k | 0 <= k < |cs| :: GoodChar(cs[k])
  }

  function CharText(c: Char): bytes {
    match c
    case Plain(b) => [b]
    case Short(letter) => [BACKSLASH, letter]
    case Unit(_, hex) => [BACKSLASH, LOWER_U] + hex
    case Pair(_, lead, trail) => [BACKSLASH, LOWER_U] + lead + [BACKSLASH, LOWER_U] + trail
  }

  /** The bytes a character stands for: code points in UTF-8. */
  function CharBytes(c: Char): bytes {
    match c
    case Plain(b) => [b]
    case Short(letter) => if letter in ESCAPES then [ESCAPES[letter]] else []
    case Unit(cp, _) => if IsScalar(cp) then Encode(cp) else []
    case Pair(cp, _, _) => if IsScalar(cp) then Encode(cp) else []
  }

  function CharsText(cs: seq<Char>): bytes {
    if cs == [] then [] else CharText(cs[0]) + CharsText(cs[1..])
  }

  function CharsBytes(cs: seq<Char>): bytes {
    if cs == [] then [] else CharBytes(cs[0]) + CharsBytes(cs[1..])
  }

  function StringText(cs: seq<Char>): bytes {
    [QUOTE] + CharsText(cs) + [QUOTE]
  }

  /** Users of the value see a C string. */
  function Stored(cs: seq<Char>): bytes {
    CString(CharsBytes(cs))
  }

  // ---------- Documents ----------

  datatype Doc =
    | NullDoc
    | BoolDoc(b: bool)
    | NumberDoc(negative: bool, digits: bytes)
    | StringDoc(chars: seq<Char>)
    | ArrayDoc(items: seq<ItemDoc>, gap: bytes)
    | ObjectDoc(members: seq<MemberDoc>, gap: bytes)
    // `gap`: what stands between the brackets of an empty container

  datatype ItemDoc = ItemDoc(before: bytes, doc: Doc, behind: bytes)

  datatype MemberDoc =
    MemberDoc(before: bytes, key: seq<Char>, behindKey: bytes, behindColon: bytes, doc: Doc, behind: bytes)

  ghost predicate GoodDoc(d: Doc) {
    match d
    case NumberDoc(_, ds) =>
      && ds != [] && (|ds| > 1 ==> ds[0] != 0x30)
      && forall k | 0 <= k < |ds| :: 0x30 <= ds[k] <= 0x39
    case StringDoc(cs) => GoodChars(cs)
    case ArrayDoc(items, gap) => Blank(gap) && forall i | 0 <= i < |items| :: GoodItem(items[i])
    case ObjectDoc(members, gap) => Blank(gap) && forall i | 0 <= i < |members| :: GoodMember(members[i])
    case _ => true
  }

  ghost predicate GoodItem(item: ItemDoc) {
    Blank(item.before) && GoodDoc(item.doc) && Blank(item.behind)
  }

  ghost predicate GoodMember(m: MemberDoc) {
    && Blank(m.before) && GoodChars(m.key) && Blank(m.behindKey)
    && Blank(m.behindColon) && GoodDoc(m.doc) && Blank(m.behind)
  }

  function Written(d: Doc): bytes
    decreases d
  {
    match d
    case NullDoc => [0x6E, 0x75, 0x6C, 0x6C]
    case BoolDoc(b) => if b then [0x74, 0x72, 0x75, 0x65] else [0x66, 0x61, 0x6C, 0x73, 0x65]
    case NumberDoc(negative, ds) => if negative then [MINUS] + ds else ds
    case StringDoc(cs) => StringText(cs)
    case ArrayDoc(items, gap) => [LBRACKET] + (if items == [] then gap else WrittenItems(items)) + [RBRACKET]
    case ObjectDoc(members, gap) => [LBRACE] + (if members == [] then gap else WrittenMembers(members)) + [RBRACE]
  }

  function WrittenItems(items: seq<ItemDoc>): bytes
    requires items != []
    decreases items
  {
    var first := items[0].before + Written(items[0].doc) + items[0].behind;
    if |items| == 1 then first else first + [COMMA] + WrittenItems(items[1..])
  }

  function WrittenMembers(members: seq<MemberDoc>): bytes
    requires members != []
    decreases members
  {
    var m := members[0];
    var first := m.before + StringText(m.key) + m.behindKey + [COLON] + m.behindColon + Written(m.doc) + m.behind;
    if |members| == 1 then first else first + [COMMA] + WrittenMembers(members[1..])
  }

  /** Decimal digits, the most significant first. */
  function Horner(ds: bytes, acc: int): int {
    if ds == [] then acc else Horner(ds[1..], 10 * acc + ds[0] - 0x30)
  }

  /** The value a document stands for. */
  function Meaning(d: Doc): Value
    decreases d
  {
    match d
    case NullDoc => Null
    case BoolDoc(b) => Bool(b)
    case NumberDoc(negative, ds) => Number(if negative then -Horner(ds, 0) else Horner(ds, 0))
    case StringDoc(cs) => Str(Stored(cs))
    case ArrayDoc(items, _) => Array(ItemValues(items))
    case ObjectDoc(members, _) => Object(MemberEntries(members))
  }

  function ItemValues(items: seq<ItemDoc>): (r: seq<Value>)
    ensures |r| == |items|
    decreases items
  {
    if items == [] then [] else [Meaning(items[0].doc)] + ItemValues(items[1..])
  }

  function MemberEntries(members: seq<MemberDoc>): (r: seq<Entry<Value>>)
    ensures |r| == |members|
    decreases members
  {
    if members == [] then []
    else [Entry(Stored(members[0].key), Meaning(members[0].doc))] + MemberEntries(members[1..])
  }

  // ---------- Texts of a value ----------

  const BYTE_ORDER_MARK: bytes := [0xEF, 0xBB, 0xBF]

  /** `s` is a text of `v`: a byte order mark or none, white space, a document that means `v`, and anything that
      does not prolong a number. */
  ghost predicate IsTextOf(s: bytes, v: Value) {
    exists bom, w, d, rest :: Splits(s, bom, w, d, rest) && Meaning(d) == v
  }

  ghost predicate Splits(s: bytes, bom: bytes, w: bytes, d: Doc, rest: bytes) {
    && s == bom + w + Written(d) + rest
    && (bom == [] || bom == BYTE_ORDER_MARK) && Blank(w) && GoodDoc(d)
    && (d.NumberDoc? && rest != [] ==> !(0x30 <= rest[0] <= 0x39))
  }
}
