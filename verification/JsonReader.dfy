/** cJSON_Parse as functions of the text: what is read at a position, and where reading ends. */
module JsonReader {
  import opened Basics
  import opened Json

  /** `Beyond` marks a number that is not an integer of at most fifteen digits. */
  datatype Outcome<T> = Done(value: T, end: nat) | Failed | Beyond

  /** The parser works on a C string together with its terminator. */
  predicate Terminated(s: seq<byte>) {
    s != [] && s[|s| - 1] == 0
  }

  /** buffer_skip_whitespace: everything up to 32 is skipped, the terminator too; at the very end it
      steps back. */
  function Skip(s: seq<byte>, p: nat): (q: nat)
    requires p < |s|
    ensures p <= q < |s|
    decreases |s| - p
  {
    if s[p] > 32 then p else if p + 1 == |s| then p else Skip(s, p + 1)
  }

  predicate At(s: seq<byte>, p: nat, word: seq<byte>) {
    p + |word| <= |s| && s[p..p + |word|] == word
  }

  // ---------- strings ----------

  function HexValue(b: byte): Option<nat> {
    if 48 <= b <= 57 then Some(b - 48)
    else if 65 <= b <= 70 then Some(b - 55)
    else if 97 <= b <= 102 then Some(b - 87)
    else None
  }

  /** parse_hex4: an invalid digit makes it 0. */
  function Hex4(s: seq<byte>, p: nat): (h: nat)
    requires p + 4 <= |s|
    ensures h <= 0xFFFF
  {
    var a, b, c, d := HexValue(s[p]), HexValue(s[p + 1]), HexValue(s[p + 2]), HexValue(s[p + 3]);
    if a.Some? && b.Some? && c.Some? && d.Some? then 4096 * a.value + 256 * b.value + 16 * c.value + d.value else 0
  }

  /** A code point in UTF-8. */
  function Utf8(c: nat): (r: seq<byte>)
    requires c <= 0x10FFFF
    ensures 1 <= |r| <= 4 && (c < 0x10000 ==> |r| <= 3)
  {
    if c < 0x80 then [c]
    else if c < 0x800 then [0xC0 + c / 64, 0x80 + c % 64]
    else if c < 0x10000 then [0xE0 + c / 4096, 0x80 + c / 64 % 64, 0x80 + c % 64]
    else [0xF0 + c / 262144, 0x80 + c / 4096 % 64, 0x80 + c / 64 % 64, 0x80 + c % 64]
  }

  /** utf16_literal_to_utf8: one \\u sequence, or a surrogate pair of two; with its length. */
  function Literal(s: seq<byte>, p: nat, end: nat): (r: Option<(seq<byte>, nat)>)
    requires p <= end < |s|
    ensures r.Some? ==> (r.value.1 == 6 && 1 <= |r.value.0| <= 3) || (r.value.1 == 12 && |r.value.0| <= 4)
    ensures r.Some? ==> p + r.value.1 <= end
  {
    if end - p < 6 then None
    else
      var first := Hex4(s, p + 2);
      if 0xDC00 <= first <= 0xDFFF then None
      else if 0xD800 <= first <= 0xDBFF then
        if end - (p + 6) < 6 || s[p + 6] != BACKSLASH || s[p + 7] != 117 then None
        else
          var second := Hex4(s, p + 8);
          if second < 0xDC00 || second > 0xDFFF then None
          else Some((Utf8(0x10000 + (first - 0xD800) * 1024 + (second - 0xDC00)), 12))
      else Some((Utf8(first), 6))
  }

  /** What a one-character escape stands for. */
  function Unescape(letter: byte): Option<byte> {
    if letter == 98 then Some(8) else if letter == 102 then Some(12) else if letter == 110 then Some(10)
    else if letter == 114 then Some(13) else if letter == 116 then Some(9)
    else if letter == QUOTE || letter == BACKSLASH || letter == 47 then Some(letter)
    else None
  }

  /** One character or escape sequence at p: the bytes it gives and the characters it takes. */
  function Character(s: seq<byte>, p: nat, end: nat): (r: Option<(seq<byte>, nat)>)
    requires p < end < |s|
    ensures r.Some? ==> r.value.1 >= 1
  {
    if s[p] != BACKSLASH then Some(([s[p]], 1))
    else if s[p + 1] == 117 then Literal(s, p, end)
    else match Unescape(s[p + 1])
      case None => None
      case Some(b) => Some(([b], 2))
  }

  function Prefix<T>(a: seq<T>, o: Option<seq<T>>): Option<seq<T>> {
    match o
    case None => None
    case Some(b) => Some(a + b)
  }

  /** The bytes of the literal from p to its closing quote. */
  function Decode(s: seq<byte>, p: nat, end: nat): Option<seq<byte>>
    requires end < |s|
    decreases end - p
  {
    if p >= end then Some([])
    else match Character(s, p, end)
      case None => None
      case Some((bytes, n)) => Prefix(bytes, Decode(s, p + n, end))
  }

  /** The closing quote: the next one that does not follow a backslash. */
  function EndQuote(s: seq<byte>, p: nat): (r: Option<nat>)
    ensures r.Some? ==> p <= r.value < |s| && s[r.value] == QUOTE
    decreases |s| - p
  {
    if p >= |s| then None
    else if s[p] == QUOTE then Some(p)
    else if s[p] == BACKSLASH then EndQuote(s, p + 2)
    else EndQuote(s, p + 1)
  }

  /** A C string ends at its first NUL. */
  function CString(s: seq<byte>): seq<byte> {
    if s == [] || s[0] == 0 then [] else [s[0]] + CString(s[1..])
  }

  function ParseString(s: seq<byte>, p: nat): (r: Outcome<seq<byte>>)
    requires Terminated(s) && p < |s|
    ensures r.Done? ==> p < r.end < |s|
    ensures r != Beyond
  {
    if s[p] != QUOTE then Failed
    else match EndQuote(s, p + 1)
      case None => Failed
      case Some(e) =>
        match Decode(s, p + 1, e)
        case None => Failed
        case Some(bytes) => Done(CString(bytes), e + 1)
  }

  // ---------- numbers ----------

  predicate IsDigit(b: byte) { 48 <= b <= 57 }

  /** Digits, signs, the letters of an exponent and the point. */
  predicate InNumber(b: byte) {
    IsDigit(b) || b == 43 || b == MINUS || b == 101 || b == 69 || b == 46
  }

  /** How many characters are copied for strtod, at most 63. */
  function NumberRun(s: seq<byte>, p: nat, i: nat): (n: nat)
    requires p + i <= |s| && i <= 63
    ensures i <= n <= 63 && p + n <= |s|
    decreases 63 - i
  {
    if i == 63 || p + i == |s| || !InNumber(s[p + i]) then i else NumberRun(s, p, i + 1)
  }

  /** The leading decimal digits and their value so far. */
  function DigitRun(t: seq<byte>, i: nat, value: nat): (r: (nat, nat))
    requires i <= |t|
    ensures i <= r.0 <= |t|
    decreases |t| - i
  {
    if i < |t| && IsDigit(t[i]) then DigitRun(t, i + 1, 10 * value + (t[i] - 48)) else (i, value)
  }

  /** What strtod makes of an integer: its value and the characters used. */
  function Strtod(t: seq<byte>): (r: Outcome<int>)
    ensures r.Done? ==> 0 < r.end <= |t|
  {
    var sign := if t != [] && (t[0] == MINUS || t[0] == 43) then 1 else 0;
    var (n, value) := DigitRun(t, sign, 0);
    if n == sign then
      if n + 1 < |t| && t[n] == 46 && IsDigit(t[n + 1]) then Beyond else Failed
    else if n < |t| && t[n] == 46 then Beyond
    else if n + 1 < |t| && (t[n] == 101 || t[n] == 69)
            && (IsDigit(t[n + 1]) || (n + 2 < |t| && (t[n + 1] == 43 || t[n + 1] == MINUS) && IsDigit(t[n + 2])))
    then Beyond
    else if value >= NUMBER_LIMIT || (t[0] == MINUS && value == 0) then Beyond
    else Done(if t[0] == MINUS then -(value as int) else value, n)
  }

  function ParseNumber(s: seq<byte>, p: nat): (r: Outcome<Json>)
    requires Terminated(s) && p < |s|
    ensures r.Done? ==> p < r.end < |s|
  {
    var n := NumberRun(s, p, 0);
    NumberRunEnds(s, p, 0);
    match Strtod(s[p..p + n])
    case Failed => Failed
    case Beyond => Beyond
    case Done(v, used) => Done(Num(v), p + used)
  }

  lemma NumberRunEnds(s: seq<byte>, p: nat, i: nat)
    requires Terminated(s) && p + i < |s| && i <= 63
    ensures p + NumberRun(s, p, i) < |s|
    decreases 63 - i
  {
  }

  // ---------- values ----------

  /** parse_value; `depth` counts the arrays and objects around it. */
  function ParseValue(s: seq<byte>, p: nat, depth: nat): (r: Outcome<Json>)
    requires Terminated(s) && p < |s|
    ensures r.Done? ==> p < r.end < |s|
    decreases |s| - p, 1
  {
    if At(s, p, NULL_TEXT) then Done(Null, p + 4)
    else if At(s, p, FALSE_TEXT) then Done(False, p + 5)
    else if At(s, p, TRUE_TEXT) then Done(True, p + 4)
    else if s[p] == QUOTE then
      match ParseString(s, p) {
        case Done(bytes, e) => Done(Str(bytes), e)
        case _ => Failed
      }
    else if s[p] == MINUS || IsDigit(s[p]) then ParseNumber(s, p)
    else if s[p] == OPEN_ARRAY then ParseArray(s, p, depth)
    else if s[p] == OPEN_OBJECT then ParseObject(s, p, depth)
    else Failed
  }

  function ParseArray(s: seq<byte>, p: nat, depth: nat): (r: Outcome<Json>)
    requires Terminated(s) && p < |s| && s[p] == OPEN_ARRAY
    ensures r.Done? ==> p < r.end < |s|
    decreases |s| - p, 0
  {
    if depth >= CJSON_NESTING_LIMIT then Failed
    else
      var q := Skip(s, p + 1);
      if s[q] == CLOSE_ARRAY then Done(Arr([]), q + 1)
      else match ParseItems(s, q, depth + 1)
        case Done(items, e) => Done(Arr(items), e)
        case Failed => Failed
        case Beyond => Beyond
  }

  function Cons<T>(v: T, o: Outcome<seq<T>>): Outcome<seq<T>> {
    match o
    case Done(vs, e) => Done([v] + vs, e)
    case Failed => Failed
    case Beyond => Beyond
  }

  /** The elements from position q to the closing bracket. */
  function ParseItems(s: seq<byte>, q: nat, depth: nat): (r: Outcome<seq<Json>>)
    requires Terminated(s) && q < |s|
    ensures r.Done? ==> q < r.end < |s|
    decreases |s| - q, 2
  {
    var a := Skip(s, q);
    match ParseValue(s, a, depth)
    case Failed => Failed
    case Beyond => Beyond
    case Done(v, e) =>
      var b := Skip(s, e);
      if s[b] == COMMA then Cons(v, ParseItems(s, b + 1, depth))
      else if s[b] == CLOSE_ARRAY then Done([v], b + 1)
      else Failed
  }

  function ParseObject(s: seq<byte>, p: nat, depth: nat): (r: Outcome<Json>)
    requires Terminated(s) && p < |s| && s[p] == OPEN_OBJECT
    ensures r.Done? ==> p < r.end < |s|
    decreases |s| - p, 0
  {
    if depth >= CJSON_NESTING_LIMIT then Failed
    else
      var q := Skip(s, p + 1);
      if s[q] == CLOSE_OBJECT then Done(Obj([]), q + 1)
      else match ParseMembers(s, q, depth + 1)
        case Done(members, e) => Done(Obj(members), e)
        case Failed => Failed
        case Beyond => Beyond
  }

  /** A key, a colon and a value. */
  function ParseMember(s: seq<byte>, q: nat, depth: nat): (r: Outcome<Member>)
    requires Terminated(s) && q < |s|
    ensures r.Done? ==> q < r.end < |s|
    decreases |s| - q, 2
  {
    match ParseString(s, Skip(s, q))
    case Done(key, e) =>
      var b := Skip(s, e);
      if s[b] != COLON then Failed
      else match ParseValue(s, Skip(s, b + 1), depth) {
        case Failed => Failed
        case Beyond => Beyond
        case Done(v, f) => Done(Member(key, v), f)
      }
    case _ => Failed
  }

  function ParseMembers(s: seq<byte>, q: nat, depth: nat): (r: Outcome<seq<Member>>)
    requires Terminated(s) && q < |s|
    ensures r.Done? ==> q < r.end < |s|
    decreases |s| - q, 3
  {
    match ParseMember(s, q, depth)
    case Failed => Failed
    case Beyond => Beyond
    case Done(m, e) =>
      var b := Skip(s, e);
      if s[b] == COMMA then Cons(m, ParseMembers(s, b + 1, depth))
      else if s[b] == CLOSE_OBJECT then Done([m], b + 1)
      else Failed
  }

  /** skip_utf8_bom. */
  function SkipBom(s: seq<byte>): (p: nat)
    requires s != []
    ensures p < |s|
  {
    if |s| > 4 && s[..3] == [0xEF, 0xBB, 0xBF] then 3 else 0
  }

  /** cJSON_ParseWithOpts on the text of a C string. */
  function Parse(text: seq<byte>, requireTerminated: bool): Outcome<Json> {
    var s := text + [0];
    match ParseValue(s, Skip(s, SkipBom(s)), 0)
    case Done(v, e) =>
      if requireTerminated && s[Skip(s, e)] != 0 then Failed
      else Done(v, if requireTerminated then Skip(s, e) else e)
    case Failed => Failed
    case Beyond => Beyond
  }
}
