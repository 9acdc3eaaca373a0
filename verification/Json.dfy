/** cJSON's values and the text the printer gives them. */
module Json {
  import opened Basics

  const INT_MAX := 0x7fff_ffff
  const CJSON_NESTING_LIMIT := 1000
  const NUMBER_LIMIT := 1_000_000_000_000_000  // sixteen digits no longer fit "%1.15g"

  const QUOTE: byte := 34
  const BACKSLASH: byte := 92
  const COMMA: byte := 44
  const COLON: byte := 58
  const MINUS: byte := 45
  const TAB: byte := 9
  const NEWLINE: byte := 10
  const SPACE: byte := 32
  const OPEN_ARRAY: byte := 91
  const CLOSE_ARRAY: byte := 93
  const OPEN_OBJECT: byte := 123
  const CLOSE_OBJECT: byte := 125
  const NULL_TEXT: seq<byte> := [110, 117, 108, 108]        // null
  const FALSE_TEXT: seq<byte> := [102, 97, 108, 115, 101]   // false
  const TRUE_TEXT: seq<byte> := [116, 114, 117, 101]        // true

  /** The children of an array or object, in list order; a key belongs to its member. */
  datatype Json =
    | Null
    | False
    | True
    | Num(n: int)
    | Str(s: seq<byte>)
    | Arr(items: seq<Json>)
    | Obj(members: seq<Member>)

  datatype Member = Member(key: seq<byte>, value: Json)

  /** C strings hold no NUL, and numbers are integers of at most fifteen digits. */
  ghost predicate Printable(v: Json) {
    match v
    case Null => true
    case False => true
    case True => true
    case Num(n) => -NUMBER_LIMIT < n < NUMBER_LIMIT
    case Str(s) => 0 !in s
    case Arr(items) => forall i | 0 <= i < |items| :: Printable(items[i])
    case Obj(members) => forall i | 0 <= i < |members| :: 0 !in members[i].key && Printable(members[i].value)
  }

  /** How many arrays and objects are nested in each other. */
  ghost function Nest(v: Json): nat {
    match v
    case Null => 0
    case False => 0
    case True => 0
    case Num(_) => 0
    case Str(_) => 0
    case Arr(items) => 1 + NestItems(items)
    case Obj(members) => 1 + NestMembers(members)
  }

  ghost function NestItems(items: seq<Json>): nat {
    if items == [] then 0 else Max(Nest(items[0]), NestItems(items[1..]))
  }

  ghost function NestMembers(members: seq<Member>): nat {
    if members == [] then 0 else Max(Nest(members[0].value), NestMembers(members[1..]))
  }

  // ---------- numbers ----------

  function Digits(n: nat): (r: seq<byte>)
    ensures r != []
    ensures forall b | b in r :: 48 <= b <= 57
  {
    if n < 10 then [48 + n] else Digits(n / 10) + [48 + n % 10]
  }

  function Number(n: int): seq<byte> {
    if n < 0 then [MINUS] + Digits(-n) else Digits(n)
  }

  // ---------- strings ----------

  function HexDigit(d: nat): byte
    requires d < 16
  {
    if d < 10 then 48 + d else 87 + d
  }

  /** The letter of a one-character escape sequence. */
  function EscapeLetter(b: byte): byte {
    if b == 8 then 98 else if b == 12 then 102 else if b == 10 then 110
    else if b == 13 then 114 else if b == 9 then 116 else b
  }

  predicate ShortEscape(b: byte) {
    b == QUOTE || b == BACKSLASH || b == 8 || b == 12 || b == 10 || b == 13 || b == 9
  }

  function Escape(b: byte): (r: seq<byte>)
    ensures |r| == if ShortEscape(b) then 2 else if b < 32 then 6 else 1
  {
    if ShortEscape(b) then [BACKSLASH, EscapeLetter(b)]
    else if b < 32 then [BACKSLASH, 117, 48, 48, HexDigit(b / 16), HexDigit(b % 16)]
    else [b]
  }

  function Escaped(s: seq<byte>): seq<byte> {
    if s == [] then [] else Escape(s[0]) + Escaped(s[1..])
  }

  function Quoted(s: seq<byte>): seq<byte> { [QUOTE] + Escaped(s) + [QUOTE] }

  // ---------- values ----------

  function Tabs(n: nat): (r: seq<byte>)
    ensures |r| == n && forall b | b in r :: b == TAB
  {
    seq(n, _ => TAB)
  }

  /** The text of a value when `depth` arrays and objects are open around it. */
  function Text(v: Json, depth: nat, format: bool): seq<byte>
    decreases v
  {
    match v
    case Null => NULL_TEXT
    case False => FALSE_TEXT
    case True => TRUE_TEXT
    case Num(n) => Number(n)
    case Str(s) => Quoted(s)
    case Arr(items) => [OPEN_ARRAY] + ItemsText(items, depth + 1, format) + [CLOSE_ARRAY]
    case Obj(members) =>
      [OPEN_OBJECT] + (if format then [NEWLINE] else []) + MembersText(members, depth + 1, format)
      + (if format then Tabs(depth) else []) + [CLOSE_OBJECT]
  }

  function Comma(more: bool, format: bool): seq<byte> {
    if !more then [] else if format then [COMMA, SPACE] else [COMMA]
  }

  function ItemsText(items: seq<Json>, depth: nat, format: bool): seq<byte>
    decreases items
  {
    if items == [] then []
    else Text(items[0], depth, format) + Comma(|items| > 1, format) + ItemsText(items[1..], depth, format)
  }

  function KeyText(key: seq<byte>, depth: nat, format: bool): seq<byte> {
    (if format then Tabs(depth) else []) + Quoted(key) + (if format then [COLON, TAB] else [COLON])
  }

  function LineEnd(more: bool, format: bool): seq<byte> {
    (if more then [COMMA] else []) + (if format then [NEWLINE] else [])
  }

  function MembersText(members: seq<Member>, depth: nat, format: bool): seq<byte>
    decreases members
  {
    if members == [] then []
    else KeyText(members[0].key, depth, format) + Text(members[0].value, depth, format)
         + LineEnd(|members| > 1, format) + MembersText(members[1..], depth, format)
  }

  // ---------- no text contains the terminator ----------

  lemma {:induction false} EscapedHasNoNul(s: seq<byte>)
    requires 0 !in s
    ensures 0 !in Escaped(s)
  {
    if s != [] {
      EscapedHasNoNul(s[1..]);
    }
  }

  /** So the printer's strlen always finds the end of what was written. */
  lemma {:induction false} TextHasNoNul(v: Json, depth: nat, format: bool)
    requires Printable(v)
    ensures 0 !in Text(v, depth, format)
    decreases v
  {
    match v
    case Null =>
    case False =>
    case True =>
    case Num(n) =>
    case Str(s) => EscapedHasNoNul(s);
    case Arr(items) => ItemsHaveNoNul(items, depth + 1, format);
    case Obj(members) => MembersHaveNoNul(members, depth + 1, format);
  }

  lemma {:induction false} ItemsHaveNoNul(items: seq<Json>, depth: nat, format: bool)
    requires forall i | 0 <= i < |items| :: Printable(items[i])
    ensures 0 !in ItemsText(items, depth, format)
    decreases items
  {
    if items != [] {
      TextHasNoNul(items[0], depth, format);
      ItemsHaveNoNul(items[1..], depth, format);
    }
  }

  lemma {:induction false} MembersHaveNoNul(members: seq<Member>, depth: nat, format: bool)
    requires forall i | 0 <= i < |members| :: 0 !in members[i].key && Printable(members[i].value)
    ensures 0 !in MembersText(members, depth, format)
    decreases members
  {
    if members != [] {
      EscapedHasNoNul(members[0].key);
      TextHasNoNul(members[0].value, depth, format);
      MembersHaveNoNul(members[1..], depth, format);
    }
  }
}
