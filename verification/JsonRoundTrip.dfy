/**
 What the printer writes is JSON, of one spelling for each value, formatted or not; so the parser gives the
 value back, exactly as long as it is not nested too deep.
 */
module JsonRoundTrip {
  import opened Basics
  import opened Json
  import opened JsonReader
  import opened JsonGrammar
  import opened JsonTokens
  import opened JsonLanguage
  import opened JsonDocuments
  import JsonParser
  import JsonPrinter

  // ---------- the spelling of a printed string ----------

  function WrittenPiece(b: byte): Piece {
    if ShortEscape(b) then Short(EscapeLetter(b))
    else if b < 32 then Unit([48, 48, HexDigit(b / 16), HexDigit(b % 16)])
    else Plain(b)
  }

  function WrittenPieces(s: seq<byte>): (r: seq<Piece>)
    ensures |r| == |s|
  {
    if s == [] then [] else [WrittenPiece(s[0])] + WrittenPieces(s[1..])
  }

  function WrittenToken(s: seq<byte>): Token { Token(WrittenPieces(s), false) }

  lemma HexDigits(b: byte)
    requires b < 32
    ensures HexValue(48) == Some(0)
    ensures HexValue(HexDigit(b / 16)) == Some(b / 16) && HexValue(HexDigit(b % 16)) == Some(b % 16)
  {
  }

  /** Every byte but NUL is escaped to what stands for it. */
  lemma WrittenPieceMeans(b: byte)
    requires b != 0
    ensures StrictPiece(WrittenPiece(b)) && ProperPiece(WrittenPiece(b))
    ensures PieceText(WrittenPiece(b)) == Escape(b) && PieceBytes(WrittenPiece(b)) == [b]
  {
    if !ShortEscape(b) && b < 32 {
      ControlMeans(b);
    }
  }

  lemma ControlMeans(b: byte)
    requires 0 < b < 32 && !ShortEscape(b)
    ensures StrictPiece(WrittenPiece(b)) && PieceText(WrittenPiece(b)) == Escape(b)
    ensures PieceBytes(WrittenPiece(b)) == [b]
  {
    hide HexValue, HexDigit;
    var h := [48, 48, HexDigit(b / 16), HexDigit(b % 16)];
    HexDigits(b);
    FourDigits(h);
    assert UnitValue(h) == b;
  }

  /** A printed string spells itself. */
  lemma {:induction false} WrittenPiecesMean(s: seq<byte>)
    requires 0 !in s
    ensures (forall i | 0 <= i < |s| :: StrictPiece(WrittenPieces(s)[i])) && ProperPieces(WrittenPieces(s))
    ensures PiecesText(WrittenPieces(s)) == Escaped(s) && PiecesBytes(WrittenPieces(s)) == s
  {
    hide StrictPiece, ProperPiece, PieceText, PieceBytes, Escape, WrittenPiece;
    if s != [] {
      var cs := WrittenPieces(s);
      WrittenPieceMeans(s[0]);
      WrittenPiecesMean(s[1..]);
      assert cs[1..] == WrittenPieces(s[1..]);
      forall i | 0 <= i < |s|
        ensures StrictPiece(cs[i]) && ProperPiece(cs[i])
      {
        if i > 0 {
          assert cs[i] == cs[1..][i - 1];
          StrictIsProper(cs[i]);
        }
      }
      assert PiecesText(cs) == Escape(s[0]) + Escaped(s[1..]);
      assert PiecesBytes(cs) == [s[0]] + s[1..];
    }
  }

  lemma WrittenTokenMeans(s: seq<byte>)
    requires 0 !in s
    ensures StrictToken(WrittenToken(s)) && ProperToken(WrittenToken(s))
    ensures TokenText(WrittenToken(s)) == Quoted(s) && TokenBytes(WrittenToken(s)) == s
  {
    hide StrictPiece, PiecesText, PiecesBytes, CString, Escaped, ProperPieces, Closed, WrittenPieces;
    WrittenPiecesMean(s);
    StrictTokens(WrittenToken(s));
    CStringWhole(s);
    assert Escaped(s) + [] == Escaped(s);
    assert s + [] == s;
  }

  // ---------- the spelling of a printed number ----------

  function Power10(k: nat): nat { if k == 0 then 1 else 10 * Power10(k - 1) }

  lemma {:induction false} DigitsLength(n: nat, k: nat)
    requires n < Power10(k) && k > 0
    ensures |Digits(n)| <= k
    decreases k
  {
    if n >= 10 {
      DigitsLength(n / 10, k - 1);
    }
  }

  lemma Power10Of15()
    ensures Power10(15) == NUMBER_LIMIT
  {
    assert Power10(5) == 100000;
    assert Power10(10) == 10000000000;
  }

  /** The digits written are those of the number, the first of them no zero but for zero itself. */
  lemma {:induction false} DigitsMean(n: nat)
    ensures AllDigits(Digits(n)) && Decimal(Digits(n)) == n && (Digits(n)[0] == 48 ==> n == 0)
    ensures n < 10 ==> |Digits(n)| == 1
  {
    hide AllDigits, Decimal;
    if n >= 10 {
      DigitsMean(n / 10);
      DecimalStep(Digits(n / 10), 48 + n % 10);
    } else {
      NoDigits();
      DecimalStep([], 48 + n);
      assert [] + [48 + n] == [48 + n];
    }
  }

  lemma NumberMeans(n: int)
    requires -NUMBER_LIMIT < n < NUMBER_LIMIT
    ensures Strict(WrittenNumber(n)) && Proper(WrittenNumber(n))
    ensures Render(WrittenNumber(n)) == Number(n) && Meaning(WrittenNumber(n)) == Num(n)
  {
    hide AllDigits, Decimal, Digits, Power10;
    var m: nat := if n < 0 then -n else n;
    Power10Of15();
    DigitsLength(m, 15);
    DigitsMean(m);
    assert [] + Digits(m) == Digits(m);
  }

  function WrittenNumber(n: int): Spelling { Numeral(n < 0, Digits(if n < 0 then -n else n)) }

  // ---------- the spelling of a printed value ----------

  function Newline(format: bool): seq<byte> { if format then [NEWLINE] else [] }

  function Indent(d: nat, format: bool): seq<byte> { if format then Tabs(d) else [] }

  function Line(d: nat, format: bool): seq<byte> { Newline(format) + Indent(d, format) }

  /** Formatted, a blank goes before every element of an array but the first; every member of an object
      starts a line of its own, indented, with a tab behind its colon; the closing brace does too. */
  function Written(v: Json, depth: nat, format: bool): Spelling
    decreases v
  {
    match v
    case Num(n) => WrittenNumber(n)
    case Str(s) => Chars(WrittenToken(s))
    case Arr(items) => List([], WrittenItems(items, depth + 1, format, false))
    case Obj(members) => Table(Line(depth, format), WrittenEntries(members, depth, format))
    case _ => Word(v)
  }

  function WrittenItems(items: seq<Json>, depth: nat, format: bool, more: bool): (r: seq<Item>)
    ensures |r| == |items|
    decreases items
  {
    if items == [] then []
    else [Item(if format && more then [SPACE] else [], Written(items[0], depth, format), [])]
         + WrittenItems(items[1..], depth, format, true)
  }

  /** `depth` is that of the object. */
  function WrittenEntries(members: seq<Member>, depth: nat, format: bool): (r: seq<Entry>)
    ensures |r| == |members|
    decreases members
  {
    if members == [] then []
    else
      var last := if |members| == 1 then Line(depth, format) else [];
      [Entry(Line(depth + 1, format), WrittenToken(members[0].key), [],
             Item(if format then [TAB] else [], Written(members[0].value, depth + 1, format), last))]
      + WrittenEntries(members[1..], depth, format)
  }

  // ---------- it is JSON, it is the text printed, and it means the value ----------

  ghost predicate Faithful(v: Json, depth: nat, format: bool) {
    var p := Written(v, depth, format);
    Strict(p) && Proper(p) && Render(p) == Text(v, depth, format) && Meaning(p) == v
  }

  lemma {:induction false} WrittenMeans(v: Json, depth: nat, format: bool)
    requires Printable(v)
    ensures Faithful(v, depth, format)
    decreases v, 0
  {
    hide Strict, Proper, Render, Meaning, Text, Written;
    match v
    case Num(n) => WrittenNum(n, depth, format);
    case Str(s) => WrittenStr(s, depth, format);
    case Arr(items) => WrittenArr(items, depth, format);
    case Obj(members) => WrittenObj(members, depth, format);
    case _ => WrittenWord(v, depth, format);
  }

  lemma WrittenWord(v: Json, depth: nat, format: bool)
    requires v == Null || v == False || v == True
    ensures Faithful(v, depth, format)
  {
    hide WordText;
    Words();
  }

  lemma WrittenNum(n: int, depth: nat, format: bool)
    requires Printable(Num(n))
    ensures Faithful(Num(n), depth, format)
  {
    hide Strict, Proper, Render, Meaning, Number, WrittenNumber;
    NumberMeans(n);
  }

  lemma WrittenStr(s: seq<byte>, depth: nat, format: bool)
    requires Printable(Str(s))
    ensures Faithful(Str(s), depth, format)
  {
    hide StrictToken, ProperToken, TokenText, TokenBytes, Quoted, WrittenToken;
    WrittenTokenMeans(s);
  }

  lemma {:induction false} WrittenArr(items: seq<Json>, depth: nat, format: bool)
    requires forall i | 0 <= i < |items| :: Printable(items[i])
    ensures Faithful(Arr(items), depth, format)
    decreases items, 1
  {
    hide Printable, ItemsRender, ItemsMeaning, ItemsText, WrittenItems, StrictItem, ProperItem;
    var w := WrittenItems(items, depth + 1, format, false);
    if items != [] {
      ItemsWritten(items, depth + 1, format, false);
      assert [] + ItemsText(items, depth + 1, format) == ItemsText(items, depth + 1, format);
    } else {
      NoTexts(depth + 1, format);
    }
    ListMeans([], w);
  }

  lemma NoTexts(depth: nat, format: bool)
    ensures ItemsText([], depth, format) == [] && MembersText([], depth, format) == []
  {
  }

  lemma {:induction false} ItemsWritten(items: seq<Json>, depth: nat, format: bool, more: bool)
    requires items != [] && forall i | 0 <= i < |items| :: Printable(items[i])
    ensures var w := WrittenItems(items, depth, format, more);
            && (forall i | 0 <= i < |w| :: StrictItem(w[i])) && ProperItems(w)
            && ItemsRender(w) == (if format && more then [SPACE] else []) + ItemsText(items, depth, format)
            && ItemsMeaning(w) == items
    decreases items, 0
  {
    hide Printable, Text, ItemsText, ItemRender, ItemsRender, ItemsMeaning, ItemMeaning, StrictItem, ProperItem,
      ProperItems, Written, Faithful;
    var rest := WrittenItems(items[1..], depth, format, true);
    var i := Item(if format && more then [SPACE] else [], Written(items[0], depth, format), []);
    WrittenMeans(items[0], depth, format);
    WrittenItem(items[0], depth, format, i);
    assert WrittenItems(items, depth, format, more) == [i] + rest;
    ItemsTextStep(items, depth, format);
    OneItem(i);
    if |items| > 1 {
      ItemsWritten(items[1..], depth, format, true);
      ItemsJoin(i, rest);
      JoinTexts(i.before, Text(items[0], depth, format), format, ItemsText(items[1..], depth, format));
    } else {
      assert rest == [] && [i] + rest == [i];
    }
    MeaningCons([i] + rest);
    assert [items[0]] + items[1..] == items;
    forall k | 0 <= k < |[i] + rest|
      ensures StrictItem(([i] + rest)[k])
    {
      assert k > 0 ==> ([i] + rest)[k] == rest[k - 1];
    }
  }

  lemma ItemsJoin(i: Item, rest: seq<Item>)
    requires ProperItem(i) && rest != [] && ProperItems(rest)
    ensures ProperItems([i] + rest) && ([i] + rest)[1..] == rest
    ensures ItemsRender([i] + rest) == ItemRender(i) + ([COMMA] + ItemsRender(rest))
  {
    hide ProperItem, ItemRender;
    assert ([i] + rest)[1..] == rest;
  }

  lemma JoinTexts(lead: seq<byte>, text: seq<byte>, format: bool, rest: seq<byte>)
    ensures lead + text + ([COMMA] + ((if format then [SPACE] else []) + rest))
            == lead + (text + Comma(true, format) + rest)
  {
    assert [COMMA] + ((if format then [SPACE] else []) + rest) == Comma(true, format) + rest;
  }

  lemma ItemsTextStep(items: seq<Json>, depth: nat, format: bool)
    requires items != []
    ensures ItemsText(items, depth, format)
            == if |items| == 1 then Text(items[0], depth, format)
               else Text(items[0], depth, format) + Comma(true, format) + ItemsText(items[1..], depth, format)
  {
    hide Text;
    if |items| == 1 {
      assert items[1..] == [];
    }
  }

  lemma WrittenItem(v: Json, depth: nat, format: bool, i: Item)
    requires Faithful(v, depth, format) && i.value == Written(v, depth, format)
    requires StrictBlank(i.before) && StrictBlank(i.after)
    ensures StrictItem(i) && ProperItem(i) && ItemMeaning(i) == v && Meaning(i.value) == v
    ensures ItemRender(i) == i.before + Text(v, depth, format) + i.after
    ensures i.after == [] ==> ItemRender(i) == i.before + Text(v, depth, format)
  {
    hide Strict, Proper, Render, Meaning, Text, Written, StrictBlank, Blank;
    StrictBlanks(i.before);
    StrictBlanks(i.after);
    ItemMeans(i);
  }

  // ---------- objects ----------

  lemma {:induction false} WrittenObj(members: seq<Member>, depth: nat, format: bool)
    requires forall i | 0 <= i < |members| :: 0 !in members[i].key && Printable(members[i].value)
    ensures Faithful(Obj(members), depth, format)
    decreases members, 1
  {
    hide Printable, EntriesRender, EntriesMeaning, MembersText, WrittenEntries, StrictEntry, ProperEntry, Line,
      StrictBlank, Blank;
    var w := WrittenEntries(members, depth, format);
    LineBlank(depth, format);
    StrictBlanks(Line(depth, format));
    ObjText(members, depth, format);
    if members != [] {
      EntriesWritten(members, depth, format);
    } else {
      NoTexts(depth + 1, format);
      NoMembers(depth, format);
    }
    TableMeans(Line(depth, format), w);
  }

  lemma NoMembers(depth: nat, format: bool)
    ensures Newline(format) + ([] + Indent(depth, format)) == Line(depth, format)
  {
  }

  lemma ObjText(members: seq<Member>, depth: nat, format: bool)
    ensures Text(Obj(members), depth, format)
            == [OPEN_OBJECT] + (Newline(format) + (MembersText(members, depth + 1, format) + Indent(depth, format)))
               + [CLOSE_OBJECT]
  {
    hide MembersText, Tabs;
    Regroup([OPEN_OBJECT] + Newline(format), MembersText(members, depth + 1, format), Indent(depth, format));
    Regroup([OPEN_OBJECT], Newline(format), MembersText(members, depth + 1, format) + Indent(depth, format));
  }

  lemma LineBlank(depth: nat, format: bool)
    ensures StrictBlank(Line(depth, format)) && StrictBlank([]) && StrictBlank([TAB]) && StrictBlank([SPACE])
  {
  }

  lemma {:induction false} EntriesWritten(members: seq<Member>, depth: nat, format: bool)
    requires members != []
    requires forall i | 0 <= i < |members| :: 0 !in members[i].key && Printable(members[i].value)
    ensures var w := WrittenEntries(members, depth, format);
            && (forall i | 0 <= i < |w| :: StrictEntry(w[i])) && ProperEntries(w)
            && EntriesRender(w)
               == Newline(format) + (MembersText(members, depth + 1, format) + Indent(depth, format))
            && EntriesMeaning(w) == members
    decreases members, 0
  {
    hide Printable, Text, MembersText, EntryRender, EntriesRender, EntriesMeaning, EntryMeaning, StrictEntry,
      ProperEntry, ProperEntries, Written, WrittenToken, Faithful, Line, Newline, Indent, StrictBlank;
    var m, rest := members[0], WrittenEntries(members[1..], depth, format);
    var last := if |members| == 1 then Line(depth, format) else [];
    var e := Entry(Line(depth + 1, format), WrittenToken(m.key), [],
                   Item(if format then [TAB] else [], Written(m.value, depth + 1, format), last));
    WrittenMeans(m.value, depth + 1, format);
    LineBlank(depth, format);
    LineBlank(depth + 1, format);
    WrittenEntry(m, depth, format, e);
    assert WrittenEntries(members, depth, format) == [e] + rest;
    if |members| > 1 {
      EntriesWritten(members[1..], depth, format);
    }
    EntriesTogether(members, depth, format, e, rest);
  }

  lemma {:induction false} EntriesTogether(members: seq<Member>, depth: nat, format: bool, e: Entry, rest: seq<Entry>)
    requires members != [] && |rest| == |members| - 1
    requires StrictEntry(e) && ProperEntry(e) && EntryMeaning(e) == members[0]
    requires EntryRender(e)
             == Newline(format) + (MemberText(members[0], depth + 1, format)
                                   + if |members| == 1 then Line(depth, format) else [])
    requires |members| > 1 ==>
               && (forall i | 0 <= i < |rest| :: StrictEntry(rest[i])) && ProperEntries(rest)
               && EntriesRender(rest)
                  == Newline(format) + (MembersText(members[1..], depth + 1, format) + Indent(depth, format))
               && EntriesMeaning(rest) == members[1..]
    ensures var w := [e] + rest;
            && (forall i | 0 <= i < |w| :: StrictEntry(w[i])) && ProperEntries(w)
            && EntriesRender(w)
               == Newline(format) + (MembersText(members, depth + 1, format) + Indent(depth, format))
            && EntriesMeaning(w) == members
  {
    hide Text, MembersText, MemberText, EntryRender, EntriesRender, EntriesMeaning, EntryMeaning, StrictEntry,
      ProperEntry, ProperEntries, Line, Newline, Indent;
    OneEntry(e);
    if |members| > 1 {
      EntriesJoin(e, rest);
    } else {
      assert [e] + rest == [e];
    }
    MemberTexts(members, depth, format);
    EntriesCons([e] + rest);
    EntryMeans(e);
    assert [members[0]] + members[1..] == members;
    StrictMore(e, rest);
  }

  lemma StrictMore(e: Entry, rest: seq<Entry>)
    requires StrictEntry(e) && forall i | 0 <= i < |rest| :: StrictEntry(rest[i])
    ensures forall i | 0 <= i < |[e] + rest| :: StrictEntry(([e] + rest)[i])
  {
    hide StrictEntry;
  }

  lemma EntriesJoin(e: Entry, rest: seq<Entry>)
    requires ProperEntry(e) && rest != [] && ProperEntries(rest)
    ensures ProperEntries([e] + rest) && ([e] + rest)[1..] == rest
    ensures EntriesRender([e] + rest) == EntryRender(e) + ([COMMA] + EntriesRender(rest))
  {
    hide ProperEntry, EntryRender;
    assert ([e] + rest)[1..] == rest;
  }

  /** One member without what ends its line. */
  function MemberText(m: Member, depth: nat, format: bool): seq<byte> {
    Indent(depth, format)
    + (Quoted(m.key) + ([COLON] + ((if format then [TAB] else []) + Text(m.value, depth, format))))
  }

  lemma MembersTextStep(members: seq<Member>, d: nat, format: bool)
    requires members != []
    ensures MembersText(members, d, format)
            == if |members| == 1 then MemberText(members[0], d, format) + Newline(format)
               else MemberText(members[0], d, format)
                    + ([COMMA] + (Newline(format) + MembersText(members[1..], d, format)))
  {
    hide Text, Quoted, Tabs, MembersText;
    var m, rest := members[0], MembersText(members[1..], d, format);
    MembersOneStep(members, d, format);
    KeyParts(m, d, format);
    if |members| == 1 {
      NoTexts(d, format);
      assert members[1..] == [];
      assert LineEnd(false, format) + [] == Newline(format);
      Regroup(MemberText(m, d, format), LineEnd(false, format), []);
    } else {
      assert LineEnd(true, format) + rest == [COMMA] + (Newline(format) + rest);
      Regroup(MemberText(m, d, format), LineEnd(true, format), rest);
    }
  }

  lemma MembersOneStep(members: seq<Member>, d: nat, format: bool)
    requires members != []
    ensures MembersText(members, d, format)
            == KeyText(members[0].key, d, format) + Text(members[0].value, d, format)
               + LineEnd(|members| > 1, format) + MembersText(members[1..], d, format)
  {
  }

  lemma KeyParts(m: Member, d: nat, format: bool)
    ensures KeyText(m.key, d, format) + Text(m.value, d, format) == MemberText(m, d, format)
  {
    hide Text, Quoted, Tabs;
    var tab := if format then [TAB] else [];
    assert KeyText(m.key, d, format) == Indent(d, format) + Quoted(m.key) + ([COLON] + tab);
    Regroup(Indent(d, format) + Quoted(m.key), [COLON] + tab, Text(m.value, d, format));
    Regroup(Indent(d, format), Quoted(m.key), [COLON] + tab + Text(m.value, d, format));
    Regroup([COLON], tab, Text(m.value, d, format));
  }

  lemma WrittenEntry(m: Member, depth: nat, format: bool, e: Entry)
    requires 0 !in m.key && Faithful(m.value, depth + 1, format)
    requires e.before == Line(depth + 1, format) && e.key == WrittenToken(m.key) && e.after == []
    requires e.item.before == (if format then [TAB] else []) && e.item.value == Written(m.value, depth + 1, format)
    requires StrictBlank(e.item.after)
    ensures StrictEntry(e) && ProperEntry(e) && EntryMeaning(e) == m
    ensures EntryRender(e) == Newline(format) + (MemberText(m, depth + 1, format) + e.item.after)
  {
    hide StrictToken, ProperToken, TokenText, TokenBytes, WrittenToken, StrictItem, ProperItem, ItemRender, Faithful,
      Written, StrictBlank, Blank, Text, Quoted, Indent, Newline, Line;
    LineBlank(depth + 1, format);
    WrittenTokenMeans(m.key);
    WrittenItem(m.value, depth + 1, format, e.item);
    StrictBlanks(e.before);
    StrictBlanks(e.after);
    EntryMeans(e);
    EntryTexts(m, depth + 1, format, e);
  }

  lemma EntryTexts(m: Member, d: nat, format: bool, e: Entry)
    requires e.before == Line(d, format) && TokenText(e.key) == Quoted(m.key) && e.after == []
    requires ItemRender(e.item) == (if format then [TAB] else []) + Text(m.value, d, format) + e.item.after
    ensures EntryRender(e) == Newline(format) + (MemberText(m, d, format) + e.item.after)
  {
    hide TokenText, ItemRender, Text, Quoted, Indent, Newline;
    var tab, text := if format then [TAB] else [], Text(m.value, d, format);
    var key := Quoted(m.key);
    assert Line(d, format) + key + [] == Line(d, format) + key;
    assert EntryRender(e) == Line(d, format) + key + [COLON] + (tab + text + e.item.after);
    Regroup(Line(d, format) + key + [COLON], tab + text, e.item.after);
    Regroup(Line(d, format) + key, [COLON], tab + text);
    Regroup(Line(d, format), key, [COLON] + (tab + text));
    Regroup(Newline(format), Indent(d, format), key + ([COLON] + (tab + text)));
    Regroup(Newline(format), MemberText(m, d, format), e.item.after);
  }

  /** The ends of lines regrouped: each line begins with its newline. */
  lemma MemberTexts(members: seq<Member>, depth: nat, format: bool)
    requires members != []
    ensures var one, rest := MemberText(members[0], depth + 1, format), MembersText(members[1..], depth + 1, format);
            var all := MembersText(members, depth + 1, format);
            if |members| == 1 then
              Newline(format) + (one + Line(depth, format)) == Newline(format) + (all + Indent(depth, format))
            else
              Newline(format) + (one + []) + ([COMMA] + (Newline(format) + (rest + Indent(depth, format))))
              == Newline(format) + (all + Indent(depth, format))
  {
    hide Text, MembersText, MemberText, Indent, Newline;
    var one, rest := MemberText(members[0], depth + 1, format), MembersText(members[1..], depth + 1, format);
    var n, i := Newline(format), Indent(depth, format);
    MembersTextStep(members, depth + 1, format);
    if |members| == 1 {
      Regroup(one, n, i);
    } else {
      assert one + [] == one;
      Regroup([COMMA], n + rest, i);
      Regroup(n, rest, i);
      Regroup(one, [COMMA] + (n + rest), i);
      Regroup(n, one, [COMMA] + (n + (rest + i)));
    }
  }

  // ---------- the whole text ----------

  /**
   Parsing the printed form of a value, formatted or not, gives the value back exactly when its
   arrays and objects are nested at most CJSON_NESTING_LIMIT deep; deeper ones are printed all the
   same, but the parser refuses them.
   */
  lemma PrintedParses(v: Json, format: bool, requireTerminated: bool)
    requires Printable(v)
    ensures Parse(Text(v, 0, format), requireTerminated)
            == if Nest(v) <= CJSON_NESTING_LIMIT then Done(v, |Text(v, 0, format)|) else Failed
  {
    hide Text, Printable, Nest, Proper, Render, Meaning, Strict, Written, Parse;
    WrittenMeans(v, 0, format);
    var d := Document(false, [], Written(v, 0, format), []);
    DocumentParses(d, requireTerminated);
    assert DocumentText(d) == Text(v, 0, format);
  }

  // ---------- formatting ----------

  /** Without its blanks, the spelling of a value is the same formatted or not and however deep; unformatted
      there are none to begin with. */
  lemma {:induction false} BareWritten(v: Json, depth: nat, format: bool, d: nat)
    ensures Bare(Written(v, depth, format)) == Written(v, d, false)
    decreases v, 0
  {
    hide WrittenItems, WrittenEntries, BareItems, BareEntries;
    match v
    case Arr(items) => BareArr(items, depth + 1, format, false, d + 1, false);
    case Obj(members) => BareObj(members, depth, format, d);
    case _ =>
  }

  lemma {:induction false} BareArr(items: seq<Json>, depth: nat, format: bool, more: bool, d: nat, m: bool)
    ensures BareItems(WrittenItems(items, depth, format, more)) == WrittenItems(items, d, false, m)
    decreases items
  {
    hide Written, Bare;
    if items != [] {
      BareWritten(items[0], depth, format, d);
      BareArr(items[1..], depth, format, true, d, true);
      BareItemsCons(Item(if format && more then [SPACE] else [], Written(items[0], depth, format), []),
                    WrittenItems(items[1..], depth, format, true));
    }
  }

  lemma BareItemsCons(i: Item, rest: seq<Item>)
    ensures BareItems([i] + rest) == [BareItem(i)] + BareItems(rest)
  {
    hide BareItem;
    assert ([i] + rest)[1..] == rest;
  }

  lemma {:induction false} BareObj(members: seq<Member>, depth: nat, format: bool, d: nat)
    ensures BareEntries(WrittenEntries(members, depth, format)) == WrittenEntries(members, d, false)
    ensures Line(d, false) == []
    decreases members
  {
    hide Written, Bare, WrittenToken;
    if members != [] {
      var m := members[0];
      var last := if |members| == 1 then Line(depth, format) else [];
      BareWritten(m.value, depth + 1, format, d + 1);
      BareObj(members[1..], depth, format, d);
      BareEntriesCons(Entry(Line(depth + 1, format), WrittenToken(m.key), [],
                            Item(if format then [TAB] else [], Written(m.value, depth + 1, format), last)),
                      WrittenEntries(members[1..], depth, format));
    }
  }

  lemma BareEntriesCons(e: Entry, rest: seq<Entry>)
    ensures BareEntries([e] + rest) == [BareEntry(e)] + BareEntries(rest)
  {
    hide BareEntry;
    assert ([e] + rest)[1..] == rest;
  }

  /** The formatted text spells the value, and what is left of that spelling without its blanks is the
      unformatted text, which has no blank outside its strings. */
  lemma FormattingAddsBlanks(v: Json) returns (p: Spelling)
    requires Printable(v)
    ensures Proper(p) && Meaning(p) == v && Text(v, 0, true) == Render(p) && Text(v, 0, false) == Render(Bare(p))
  {
    hide Text, Printable, Proper, Render, Meaning, Strict, Written, Bare;
    p := Written(v, 0, true);
    WrittenMeans(v, 0, true);
    WrittenMeans(v, 0, false);
    BareWritten(v, 0, true, 0);
  }

  lemma ItemsLayout(format: bool)
    ensures Text(Arr([Num(1), Num(-2)]), 1, format)
            == if format then [91, 49, 44, 32, 45, 50, 93] else [91, 49, 44, 45, 50, 93]
  {
    hide ItemsText;
    var items := [Num(1), Num(-2)];
    assert items[1..] == [Num(-2)];
    ItemsTextStep(items, 2, format);
    ItemsTextStep(items[1..], 2, format);
    assert ItemsText(items, 2, format) == if format then [49, 44, 32, 45, 50] else [49, 44, 45, 50];
  }

  lemma MemberLayout(format: bool)
    ensures var m := Member([97], Arr([Num(1), Num(-2)]));
            MembersText([m], 1, format)
            == if format then [9, 34, 97, 34, 58, 9, 91, 49, 44, 32, 45, 50, 93, 10]
               else [34, 97, 34, 58, 91, 49, 44, 45, 50, 93]
  {
    hide Text, MembersText;
    var m := Member([97], Arr([Num(1), Num(-2)]));
    ItemsLayout(format);
    MembersTextStep([m], 1, format);
    assert Escaped([97]) == [97] + Escaped([97][1..]);
    assert Quoted([97]) == [34, 97, 34];
    assert Tabs(1) == [9];
    assert MemberText(m, 1, format)
        == if format then [9, 34, 97, 34, 58, 9, 91, 49, 44, 32, 45, 50, 93]
           else [34, 97, 34, 58, 91, 49, 44, 45, 50, 93];
  }

  /** How {"a":[1,-2]} is laid out. */
  lemma Layout()
    ensures var v := Obj([Member([97], Arr([Num(1), Num(-2)]))]);
            && Text(v, 0, false) == [123, 34, 97, 34, 58, 91, 49, 44, 45, 50, 93, 125]
            && Text(v, 0, true) == [123, 10, 9, 34, 97, 34, 58, 9, 91, 49, 44, 32, 45, 50, 93, 10, 125]
  {
    hide MembersText;
    MemberLayout(false);
    MemberLayout(true);
    assert Tabs(0) == [];
  }

  /** The printer and the parser in sequence. */
  method PrintAndParse(v: Json, format: bool) returns (r: Outcome<Json>)
    requires Printable(v) && Nest(v) <= CJSON_NESTING_LIMIT && |Text(v, 0, format)| + 2 <= INT_MAX
    ensures r == Done(v, |Text(v, 0, format)|)
  {
    hide Text, Printable, Nest, Parse;
    var ok, printed := JsonPrinter.Print(v, format);
    var text := printed[..printed.Length - 1];
    PrintedParses(v, format, true);
    r := JsonParser.Parse(text, true);
  }
}
