/**
 The language cJSON_Parse accepts, as a grammar that stands beside the parser: how a value may be spelled,
 which texts are spellings, and what each of them means.
 */
module JsonGrammar {
  import opened Basics
  import opened Json
  import opened JsonReader

  // ---------- spellings ----------

  /** A character of a string, or an escape sequence: a letter behind the backslash, or four hexadecimal
      digits behind \u, or two such sequences for one character. */
  datatype Piece =
    | Plain(b: byte)
    | Short(letter: byte)
    | Unit(h: seq<byte>)
    | Surrogates(high: seq<byte>, low: seq<byte>)

  /** `lone`: in front of the closing quote stands a backslash that the first pass has taken for the
      second half of an escape sequence, which only happens behind wrong hexadecimal digits. */
  datatype Token = Token(pieces: seq<Piece>, lone: bool)

  /** A value with all its blanks; `inner` is the blank in empty brackets. */
  datatype Spelling =
    | Word(v: Json)
    | Numeral(negative: bool, digits: seq<byte>)
    | Chars(token: Token)
    | List(inner: seq<byte>, items: seq<Item>)
    | Table(inner: seq<byte>, entries: seq<Entry>)

  datatype Item = Item(before: seq<byte>, value: Spelling, after: seq<byte>)
  datatype Entry = Entry(before: seq<byte>, key: Token, after: seq<byte>, item: Item)

  // ---------- their text ----------

  function Ascii(t: string): (r: seq<byte>)
    requires forall i | 0 <= i < |t| :: t[i] < 128 as char
    ensures |r| == |t| && forall i | 0 <= i < |t| :: r[i] == t[i] as int
  {
    seq(|t|, i requires 0 <= i < |t| => t[i] as int)
  }

  function PieceText(c: Piece): (r: seq<byte>)
    ensures r != []
  {
    match c
    case Plain(b) => [b]
    case Short(letter) => [BACKSLASH, letter]
    case Unit(h) => [BACKSLASH, 117] + h
    case Surrogates(high, low) => [BACKSLASH, 117] + high + ([BACKSLASH, 117] + low)
  }

  function PiecesText(cs: seq<Piece>): seq<byte> {
    if cs == [] then [] else PieceText(cs[0]) + PiecesText(cs[1..])
  }

  function Inside(t: Token): seq<byte> { PiecesText(t.pieces) + if t.lone then [BACKSLASH] else [] }

  function TokenText(t: Token): seq<byte> { [QUOTE] + Inside(t) + [QUOTE] }

  function WordText(v: Json): seq<byte> {
    match v
    case Null => Ascii("null")
    case False => Ascii("false")
    case _ => Ascii("true")
  }

  function Render(p: Spelling): seq<byte> {
    match p
    case Word(v) => WordText(v)
    case Numeral(negative, digits) => (if negative then [MINUS] else []) + digits
    case Chars(t) => TokenText(t)
    case List(inner, items) => [OPEN_ARRAY] + (if items == [] then inner else ItemsRender(items)) + [CLOSE_ARRAY]
    case Table(inner, entries) =>
      [OPEN_OBJECT] + (if entries == [] then inner else EntriesRender(entries)) + [CLOSE_OBJECT]
  }

  function ItemRender(i: Item): seq<byte> { i.before + Render(i.value) + i.after }

  function ItemsRender(items: seq<Item>): seq<byte>
    requires items != []
  {
    ItemRender(items[0]) + if |items| == 1 then [] else [COMMA] + ItemsRender(items[1..])
  }

  function EntryRender(e: Entry): seq<byte> {
    e.before + TokenText(e.key) + e.after + [COLON] + ItemRender(e.item)
  }

  function EntriesRender(entries: seq<Entry>): seq<byte>
    requires entries != []
  {
    EntryRender(entries[0]) + if |entries| == 1 then [] else [COMMA] + EntriesRender(entries[1..])
  }

  /** The spelling without its blanks; those in strings stay. */
  function Bare(p: Spelling): Spelling {
    match p
    case List(_, items) => List([], BareItems(items))
    case Table(_, entries) => Table([], BareEntries(entries))
    case _ => p
  }

  function BareItem(i: Item): Item { Item([], Bare(i.value), []) }

  function BareItems(items: seq<Item>): seq<Item> {
    if items == [] then [] else [BareItem(items[0])] + BareItems(items[1..])
  }

  function BareEntry(e: Entry): Entry { Entry([], e.key, [], BareItem(e.item)) }

  function BareEntries(entries: seq<Entry>): seq<Entry> {
    if entries == [] then [] else [BareEntry(entries[0])] + BareEntries(entries[1..])
  }

  // ---------- which are spellings ----------

  /** The parser takes everything up to 32 for a blank. */
  ghost predicate Blank(w: seq<byte>) {
    forall i | 0 <= i < |w| :: w[i] <= 32
  }

  /** What the letter behind a backslash stands for: quote, backslash and slash themselves, then
      backspace, form feed, newline, carriage return and tab. */
  const ESCAPES: map<byte, byte> :=
    map[34 := 34, 92 := 92, 47 := 47, 98 := 8, 102 := 12, 110 := 10, 114 := 13, 116 := 9]

  const HEX_LOWER := "0123456789abcdef"
  const HEX_UPPER := "0123456789ABCDEF"

  /** Byte b is the hexadecimal digit d, small or capital. */
  ghost predicate Stands(b: byte, d: nat) {
    d < 16 && (b == HEX_LOWER[d] as int || b == HEX_UPPER[d] as int)
  }

  predicate AllHex(h: seq<byte>) { forall i | 0 <= i < |h| :: HexValue(h[i]).Some? }

  function HexNumber(h: seq<byte>): (n: nat)
    requires AllHex(h)
    ensures |h| <= 4 ==> n < [1, 16, 256, 4096, 65536][|h|]
  {
    if h == [] then 0 else 16 * HexNumber(h[..|h| - 1]) + HexValue(h[|h| - 1]).value
  }

  /** Wrong digits count as zero. */
  function UnitValue(h: seq<byte>): nat { if AllHex(h) then HexNumber(h) else 0 }

  ghost predicate ProperPiece(c: Piece) {
    match c
    case Plain(b) => b != BACKSLASH
    case Short(letter) => letter in ESCAPES
    case Unit(h) => |h| == 4 && !(0xD800 <= UnitValue(h) <= 0xDFFF)
    case Surrogates(high, low) =>
      |high| == |low| == 4 && 0xD800 <= UnitValue(high) <= 0xDBFF && 0xDC00 <= UnitValue(low) <= 0xDFFF
  }

  /** No quote but behind a backslash, and no backslash without a byte behind it. */
  ghost predicate Closed(r: seq<byte>) {
    r == [] ||
    if r[0] == BACKSLASH then |r| >= 2 && Closed(r[2..]) else r[0] != QUOTE && Closed(r[1..])
  }

  ghost predicate ProperPieces(cs: seq<Piece>) { forall i | 0 <= i < |cs| :: ProperPiece(cs[i]) }

  ghost predicate ProperToken(t: Token) { ProperPieces(t.pieces) && Closed(Inside(t)) }

  ghost predicate AllDigits(d: seq<byte>) { forall i | 0 <= i < |d| :: IsDigit(d[i]) }

  ghost function Decimal(d: seq<byte>): nat
    requires AllDigits(d)
  {
    if d == [] then 0 else 10 * Decimal(d[..|d| - 1]) + (d[|d| - 1] - 48)
  }

  /** At most 63 characters are read of a number; leading zeros are taken. */
  ghost predicate ProperNumeral(negative: bool, digits: seq<byte>) {
    && digits != [] && AllDigits(digits) && |digits| + (if negative then 1 else 0) <= 63
    && Decimal(digits) < NUMBER_LIMIT && !(negative && Decimal(digits) == 0)
  }

  ghost predicate Proper(p: Spelling) {
    match p
    case Word(v) => v == Null || v == False || v == True
    case Numeral(negative, digits) => ProperNumeral(negative, digits)
    case Chars(t) => ProperToken(t)
    case List(inner, items) => Blank(inner) && forall i | 0 <= i < |items| :: ProperItem(items[i])
    case Table(inner, entries) => Blank(inner) && forall i | 0 <= i < |entries| :: ProperEntry(entries[i])
  }

  ghost predicate ProperItem(i: Item) { Blank(i.before) && Proper(i.value) && Blank(i.after) }

  ghost predicate ProperEntry(e: Entry) {
    Blank(e.before) && ProperToken(e.key) && Blank(e.after) && ProperItem(e.item)
  }

  ghost predicate ProperItems(items: seq<Item>) { forall i | 0 <= i < |items| :: ProperItem(items[i]) }

  ghost predicate ProperEntries(entries: seq<Entry>) { forall i | 0 <= i < |entries| :: ProperEntry(entries[i]) }

  // ---------- what they mean ----------

  ghost function PieceBytes(c: Piece): seq<byte>
    requires ProperPiece(c)
  {
    match c
    case Plain(b) => [b]
    case Short(letter) => [ESCAPES[letter]]
    case Unit(h) => Utf8(UnitValue(h))
    case Surrogates(high, low) => Utf8(0x10000 + (UnitValue(high) - 0xD800) * 0x400 + (UnitValue(low) - 0xDC00))
  }

  ghost function PiecesBytes(cs: seq<Piece>): seq<byte>
    requires ProperPieces(cs)
  {
    if cs == [] then [] else PieceBytes(cs[0]) + PiecesBytes(cs[1..])
  }

  /** A string ends at its first NUL. */
  ghost function TokenBytes(t: Token): seq<byte>
    requires ProperToken(t)
  {
    CString(PiecesBytes(t.pieces) + if t.lone then [QUOTE] else [])
  }

  ghost function Meaning(p: Spelling): Json
    requires Proper(p)
  {
    match p
    case Word(v) => v
    case Numeral(negative, digits) => Num(if negative then -(Decimal(digits) as int) else Decimal(digits))
    case Chars(t) => Str(TokenBytes(t))
    case List(_, items) => Arr(ItemsMeaning(items))
    case Table(_, entries) => Obj(EntriesMeaning(entries))
  }

  ghost function ItemMeaning(i: Item): Json
    requires ProperItem(i)
  {
    Meaning(i.value)
  }

  ghost function ItemsMeaning(items: seq<Item>): (r: seq<Json>)
    requires ProperItems(items)
    ensures |r| == |items|
  {
    if items == [] then [] else [ItemMeaning(items[0])] + ItemsMeaning(items[1..])
  }

  ghost function EntryMeaning(e: Entry): Member
    requires ProperEntry(e)
  {
    Member(TokenBytes(e.key), ItemMeaning(e.item))
  }

  ghost function EntriesMeaning(entries: seq<Entry>): (r: seq<Member>)
    requires ProperEntries(entries)
    ensures |r| == |entries|
  {
    if entries == [] then [] else [EntryMeaning(entries[0])] + EntriesMeaning(entries[1..])
  }
}
