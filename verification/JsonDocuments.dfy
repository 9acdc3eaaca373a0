/** Whole texts: which ones cJSON_Parse accepts, that every JSON text is one, and what escapes stand for. */
module JsonDocuments {
  import opened Basics
  import opened Json
  import opened JsonReader
  import opened JsonGrammar
  import opened JsonTokens
  import opened JsonLanguage

  const BOM: seq<byte> := [0xEF, 0xBB, 0xBF]  // the byte order mark in UTF-8

  /** A text: perhaps a byte order mark, blanks, a value, blanks. */
  datatype Document = Document(bom: bool, before: seq<byte>, value: Spelling, after: seq<byte>)

  function DocumentText(d: Document): seq<byte> {
    (if d.bom then BOM else []) + (d.before + Render(d.value) + d.after)
  }

  ghost predicate ProperDocument(d: Document) { Blank(d.before) && Proper(d.value) && Blank(d.after) }

  // ---------- the language accepted ----------

  lemma BomSkipped(d: Document, s: seq<byte>)
    requires ProperDocument(d) && s == DocumentText(d) + [0]
    ensures SkipBom(s) == if d.bom then 3 else 0
  {
    hide Proper, Render, Blank;
    RenderStarts(d.value);
    var body := d.before + Render(d.value) + d.after;
    if d.bom {
      assert s[..3] == BOM;
    } else {
      assert s[0] == (d.before + Render(d.value))[0];
      FirstOf(d);
      if |s| > 4 {
        assert s[..3][0] == s[0];
      }
    }
  }

  lemma FirstOf(d: Document)
    requires ProperDocument(d)
    ensures Render(d.value) != [] && (d.before + Render(d.value))[0] != 0xEF
  {
    hide Proper, Render;
    RenderStarts(d.value);
  }

  /** Where the value stands. */
  lemma ValuePlace(d: Document, s: seq<byte>)
    requires ProperDocument(d) && s == DocumentText(d) + [0]
    ensures var p := (if d.bom then 3 else 0) + |d.before|;
            var e := p + |Render(d.value)|;
            && SkipBom(s) < |s| && Skip(s, SkipBom(s)) == p && e < |s| && At(s, p, Render(d.value))
            && !InNumber(s[e]) && s[Skip(s, e)] == 0 && Skip(s, e) + 1 == |s|
  {
    hide Proper, Render, Skip, Blank, At, InNumber, SkipBom;
    BomSkipped(d, s);
    RenderStarts(d.value);
    Behind(if d.bom then BOM else [], d.before + Render(d.value) + d.after, s);
    Parts(s, if d.bom then 3 else 0, d.before, Render(d.value), d.after);
    EndPlace(s, (if d.bom then 3 else 0) + |d.before| + |Render(d.value)|, d.after);
  }

  /** A lead, blanks and a value, and what stands behind it. */
  lemma Parts(s: seq<byte>, b: nat, before: seq<byte>, value: seq<byte>, after: seq<byte>)
    requires At(s, b, before + value + after) && Blank(before) && value != [] && value[0] > 32
    ensures var p := b + |before|;
            b < |s| && Skip(s, b) == p && At(s, p, value) && At(s, p + |value|, after)
  {
    hide Skip, Blank, At;
    AtSplit(s, b, before + value, after);
    AtSplit(s, b, before, value);
    AtFirst(s, b + |before|, value);
    SkipBlank(s, b, before);
  }

  lemma Behind(lead: seq<byte>, body: seq<byte>, s: seq<byte>)
    requires s == lead + body + [0]
    ensures At(s, |lead|, body) && |lead| + |body| + 1 == |s| && s[|s| - 1] == 0
  {
  }

  lemma EndPlace(s: seq<byte>, e: nat, after: seq<byte>)
    requires At(s, e, after) && Blank(after) && e + |after| + 1 == |s| && s[|s| - 1] == 0
    ensures e < |s| && Skip(s, e) == |s| - 1 && !InNumber(s[e])
  {
    hide Skip, Blank, At;
    SkipToEnd(s, e, after);
    if after != [] {
      AtFirst(s, e, after);
      BlankFirst(after);
    }
  }

  lemma {:induction false} SkipToEnd(s: seq<byte>, p: nat, w: seq<byte>)
    requires At(s, p, w) && Blank(w) && p + |w| + 1 == |s| && s[p + |w|] == 0
    ensures Skip(s, p) == p + |w|
    decreases |w|
  {
    if w != [] {
      assert w == [w[0]] + w[1..];
      AtSplit(s, p, [w[0]], w[1..]);
      AtFirst(s, p, w);
      SkipToEnd(s, p + 1, w[1..]);
    }
  }

  /** Every spelling of a value is read as that value, and refused exactly when it is nested too deep. */
  lemma DocumentParses(d: Document, requireTerminated: bool)
    requires ProperDocument(d)
    ensures Parse(DocumentText(d), requireTerminated)
            == Expected(Meaning(d.value), |DocumentText(d)| - (if requireTerminated then 0 else |d.after|),
                        Nest(Meaning(d.value)))
  {
    hide Proper, Render, Skip, Blank, ParseValue, Meaning, Nest, SkipBom;
    var s := DocumentText(d) + [0];
    ValuePlace(d, s);
    ValueParses(s, (if d.bom then 3 else 0) + |d.before|, d.value, 0);
  }

  /** Whatever is accepted is a document, up to where reading ended. */
  lemma DocumentSpelled(text: seq<byte>, requireTerminated: bool) returns (d: Document)
    requires Parse(text, requireTerminated).Done?
    ensures ProperDocument(d) && Nest(Meaning(d.value)) <= CJSON_NESTING_LIMIT
    ensures var r := Parse(text, requireTerminated);
            && r.end <= |text| && DocumentText(d) == text[..r.end] && Meaning(d.value) == r.value
            && (requireTerminated ==> r.end == |text|)
  {
    hide Proper, Render, Skip, Blank, ParseValue, Meaning, Nest, At, SkipBom;
    var s := text + [0];
    var b := SkipBom(s);
    BomMeans(s);
    var p := Skip(s, b);
    Skipped(s, b);
    var v := ValueSpelled(s, p, 0);
    var e := p + |Render(v)|;
    var end := if requireTerminated then Skip(s, e) else e;
    Skipped(s, e);
    NoBlank(s, e);
    var before, after := s[b..p], s[e..end];
    Assembled(text, b, before, Render(v), after);
    d := Document(b == 3, before, v, after);
  }

  lemma Assembled(text: seq<byte>, b: nat, before: seq<byte>, value: seq<byte>, after: seq<byte>)
    requires var s := text + [0];
             At(s, b, before) && At(s, b + |before|, value) && At(s, b + |before| + |value|, after)
    requires b + |before| + |value| + |after| <= |text|
    ensures text[..b + |before| + |value| + |after|] == (text + [0])[..b] + (before + value + after)
  {
    hide At;
    var s := text + [0];
    AtJoin(s, b, before, value);
    AtJoin(s, b, before + value, after);
    Front(text, b, before + value + after);
  }

  lemma NoBlank(s: seq<byte>, e: nat)
    requires e <= |s|
    ensures Blank(s[e..e]) && At(s, e, s[e..e])
  {
  }

  lemma BomMeans(s: seq<byte>)
    requires s != []
    ensures SkipBom(s) == 0 || (SkipBom(s) == 3 && |s| > 4 && s[..3] == BOM)
  {
  }

  lemma Front(text: seq<byte>, b: nat, body: seq<byte>)
    requires At(text + [0], b, body) && b + |body| <= |text|
    ensures text[..b + |body|] == (text + [0])[..b] + body
  {
    assert text[..b + |body|] == (text + [0])[..b] + (text + [0])[b..b + |body|];
  }

  /** A text spells a value. */
  ghost predicate Spells(d: Document, text: seq<byte>, v: Json) {
    ProperDocument(d) && DocumentText(d) == text && Meaning(d.value) == v
  }

  /** The texts accepted to their end are the documents nested at most 1000 deep, and what is read is what
      they mean. */
  lemma AcceptsIff(text: seq<byte>, v: Json)
    ensures Parse(text, true) == Done(v, |text|) <==>
            Nest(v) <= 1000 && exists d: Document :: Spells(d, text, v)
    ensures Parse(text, true).Done? ==> Parse(text, true).end == |text|
  {
    hide Proper, Render, Blank, Parse, Meaning, Nest, DocumentText;
    if Parse(text, true).Done? {
      var d := DocumentSpelled(text, true);
      assert text[..|text|] == text;
      assert Spells(d, text, Parse(text, true).value);
    }
    if exists d: Document :: Spells(d, text, v) {
      var d: Document :| Spells(d, text, v);
      DocumentParses(d, true);
    }
  }

  // ---------- JSON texts ----------

  /** The blanks of section 2 of RFC 8259. */
  ghost predicate StrictBlank(w: seq<byte>) {
    forall i | 0 <= i < |w| :: w[i] == 32 || w[i] == 9 || w[i] == 10 || w[i] == 13
  }

  /** Section 7: no control characters, four digits behind every \u, surrogates in pairs. */
  ghost predicate StrictPiece(c: Piece) {
    ProperPiece(c) &&
    match c
    case Plain(b) => b >= 32 && b != QUOTE
    case Short(_) => true
    case Unit(h) => AllHex(h)
    case Surrogates(high, low) => AllHex(high) && AllHex(low)
  }

  ghost predicate StrictToken(t: Token) {
    !t.lone && forall i | 0 <= i < |t.pieces| :: StrictPiece(t.pieces[i])
  }

  /** Section 6, as far as integers go: no leading zeros. */
  ghost predicate StrictNumeral(negative: bool, digits: seq<byte>) {
    ProperNumeral(negative, digits) && (digits[0] == 48 ==> |digits| == 1)
  }

  /** A JSON text that is no decimal fraction anywhere and has no number beyond fifteen digits. */
  ghost predicate Strict(p: Spelling) {
    match p
    case Word(v) => v == Null || v == False || v == True
    case Numeral(negative, digits) => StrictNumeral(negative, digits)
    case Chars(t) => StrictToken(t)
    case List(inner, items) => StrictBlank(inner) && forall i | 0 <= i < |items| :: StrictItem(items[i])
    case Table(inner, entries) => StrictBlank(inner) && forall i | 0 <= i < |entries| :: StrictEntry(entries[i])
  }

  ghost predicate StrictItem(i: Item) { StrictBlank(i.before) && Strict(i.value) && StrictBlank(i.after) }

  ghost predicate StrictEntry(e: Entry) {
    StrictBlank(e.before) && StrictToken(e.key) && StrictBlank(e.after) && StrictItem(e.item)
  }

  lemma StrictBlanks(w: seq<byte>)
    requires StrictBlank(w)
    ensures Blank(w)
  {
  }

  lemma ClosedPiece(c: Piece, r: seq<byte>)
    requires StrictPiece(c) && Closed(r)
    ensures Closed(PieceText(c) + r)
  {
    match c
    case Plain(b) => assert ([b] + r)[1..] == r;
    case Short(letter) => assert ([BACKSLASH, letter] + r)[2..] == r;
    case Unit(h) =>
      ClosedUnit(h, r);
    case Surrogates(high, low) =>
      ClosedUnit(low, r);
      ClosedUnit(high, [BACKSLASH, 117] + low + r);
      assert PieceText(c) + r == [BACKSLASH, 117] + high + ([BACKSLASH, 117] + low + r);
  }

  lemma ClosedUnit(h: seq<byte>, r: seq<byte>)
    requires |h| == 4 && AllHex(h) && Closed(r)
    ensures Closed([BACKSLASH, 117] + h + r)
  {
    ClosedDigits(h, r);
    assert ([BACKSLASH, 117] + h + r)[2..] == h + r;
  }

  lemma {:induction false} ClosedDigits(h: seq<byte>, r: seq<byte>)
    requires AllHex(h) && Closed(r)
    ensures Closed(h + r)
    decreases |h|
  {
    if h == [] {
      assert h + r == r;
    } else {
      assert AllHex(h[1..]);
      ClosedDigits(h[1..], r);
      assert (h + r)[1..] == h[1..] + r;
      assert HexValue(h[0]).Some?;
    }
  }

  lemma {:induction false} ClosedPieces(cs: seq<Piece>)
    requires forall i | 0 <= i < |cs| :: StrictPiece(cs[i])
    ensures ProperPieces(cs) && Closed(PiecesText(cs))
  {
    hide StrictPiece, PieceText, Closed;
    if cs != [] {
      ClosedPieces(cs[1..]);
      ClosedPiece(cs[0], PiecesText(cs[1..]));
    } else {
      assert Closed([]) by {
        NothingOpen();
      }
    }
    forall i | 0 <= i < |cs|
      ensures ProperPiece(cs[i])
    {
      StrictIsProper(cs[i]);
    }
  }

  lemma NothingOpen()
    ensures Closed([])
  {
  }

  lemma StrictIsProper(c: Piece)
    requires StrictPiece(c)
    ensures ProperPiece(c)
  {
  }

  lemma StrictTokens(t: Token)
    requires StrictToken(t)
    ensures ProperToken(t)
  {
    hide StrictPiece, Closed, PiecesText, ProperPieces;
    ClosedPieces(t.pieces);
    assert PiecesText(t.pieces) + [] == PiecesText(t.pieces);
  }

  /** Every JSON text is accepted by what precedes. */
  lemma {:induction false} StrictProper(p: Spelling)
    requires Strict(p)
    ensures Proper(p)
  {
    hide StrictToken, StrictBlank, ProperToken, Blank, StrictItem, StrictEntry, ProperItem, ProperEntry, Decimal,
      AllDigits;
    match p
    case Word(_) =>
    case Numeral(_, _) =>
    case Chars(t) => StrictTokens(t);
    case List(inner, items) =>
      StrictBlanks(inner);
      forall i | 0 <= i < |items|
        ensures ProperItem(items[i])
      {
        StrictItems(items[i]);
      }
    case Table(inner, entries) =>
      StrictBlanks(inner);
      forall i | 0 <= i < |entries|
        ensures ProperEntry(entries[i])
      {
        StrictEntries(entries[i]);
      }
  }

  lemma {:induction false} StrictItems(i: Item)
    requires StrictItem(i)
    ensures ProperItem(i)
  {
    hide StrictBlank, Blank, Strict, Proper;
    StrictBlanks(i.before);
    StrictBlanks(i.after);
    StrictProper(i.value);
  }

  lemma {:induction false} StrictEntries(e: Entry)
    requires StrictEntry(e)
    ensures ProperEntry(e)
  {
    hide StrictBlank, Blank, StrictItem, ProperItem, StrictToken, ProperToken;
    StrictBlanks(e.before);
    StrictBlanks(e.after);
    StrictTokens(e.key);
    StrictItems(e.item);
  }

  // ---------- what escapes stand for ----------

  /** Four digits that write n, each small or capital. */
  ghost predicate Writes(h: seq<byte>, n: nat) {
    && |h| == 4 && Stands(h[0], n / 4096) && Stands(h[1], n / 256 % 16)
    && Stands(h[2], n / 16 % 16) && Stands(h[3], n % 16)
  }

  lemma WrittenValue(h: seq<byte>, n: nat)
    requires n < 0x10000 && Writes(h, n)
    ensures AllHex(h) && UnitValue(h) == n
  {
    hide HexValue, Stands;
    HexValueIff(h[0], n / 4096);
    HexValueIff(h[1], n / 256 % 16);
    HexValueIff(h[2], n / 16 % 16);
    HexValueIff(h[3], n % 16);
    FourDigits(h);
    var a, b := n / 16, n / 256;
    assert a / 16 == b && b / 16 == n / 4096;
  }

  /** A string of one piece. */
  lemma OnePieceParses(c: Piece)
    requires ProperPiece(c) && Closed(PieceText(c))
    ensures Parse([QUOTE] + PieceText(c) + [QUOTE], true) == Done(Str(CString(PieceBytes(c))), |PieceText(c)| + 2)
  {
    hide PieceText, PieceBytes, Parse, CString, ProperPiece, Closed;
    var t := Token([c], false);
    OnePiece(c);
    var d := Document(false, [], Chars(t), []);
    DocumentParses(d, true);
    assert DocumentText(d) == TokenText(t);
  }

  lemma OnePiece(c: Piece)
    requires ProperPiece(c)
    ensures ProperPieces([c]) && PiecesText([c]) + [] == PieceText(c) && PiecesBytes([c]) + [] == PieceBytes(c)
  {
    hide PieceText, PieceBytes, ProperPiece;
    assert PieceText(c) + [] == PieceText(c);
    assert PieceBytes(c) + [] == PieceBytes(c);
  }

  lemma StrictPieceParses(c: Piece)
    requires StrictPiece(c)
    ensures ProperPiece(c)
    ensures Parse([QUOTE] + PieceText(c) + [QUOTE], true) == Done(Str(CString(PieceBytes(c))), |PieceText(c)| + 2)
  {
    hide StrictPiece, PieceText, PieceBytes, Parse, CString, ProperPiece, Closed;
    StrictIsProper(c);
    NothingOpen();
    ClosedPiece(c, []);
    assert PieceText(c) + [] == PieceText(c);
    OnePieceParses(c);
  }

  /** Every code point but NUL and the surrogates, as its one \u sequence or as the two of its surrogate
      pair, is read as the UTF-8 bytes that give it back. */
  lemma CodePointParses(c: nat, high: seq<byte>, low: seq<byte>)
    requires 0 < c <= 0x10FFFF && !(0xD800 <= c <= 0xDFFF)
    requires if c < 0x10000 then Writes(high, c)
             else Writes(high, 0xD800 + (c - 0x10000) / 0x400) && Writes(low, 0xDC00 + (c - 0x10000) % 0x400)
    ensures var text := [QUOTE, BACKSLASH, 117] + high + (if c < 0x10000 then [] else [BACKSLASH, 117] + low) + [QUOTE];
            Parse(text, true) == Done(Str(Utf8(c)), |text|) && CodePoint(Utf8(c)) == c
  {
    hide Parse, Utf8, UnitValue, Writes, CString, CodePoint;
    Utf8Decodes(c);
    Utf8Form(c);
    CStringWhole(Utf8(c));
    var text := [QUOTE, BACKSLASH, 117] + high + (if c < 0x10000 then [] else [BACKSLASH, 117] + low) + [QUOTE];
    var piece := PieceOf(c, high, low);
    StrictPieceParses(piece);
    assert [QUOTE] + PieceText(piece) + [QUOTE] == text;
  }

  lemma PieceOf(c: nat, high: seq<byte>, low: seq<byte>) returns (piece: Piece)
    requires c <= 0x10FFFF && !(0xD800 <= c <= 0xDFFF)
    requires if c < 0x10000 then Writes(high, c)
             else Writes(high, 0xD800 + (c - 0x10000) / 0x400) && Writes(low, 0xDC00 + (c - 0x10000) % 0x400)
    ensures piece == if c < 0x10000 then Unit(high) else Surrogates(high, low)
    ensures StrictPiece(piece) && PieceBytes(piece) == Utf8(c)
    ensures |high| == 4 && (c >= 0x10000 ==> |low| == 4)
  {
    hide Utf8, UnitValue, Stands;
    if c < 0x10000 {
      piece := Unit(high);
      WrittenValue(high, c);
    } else {
      piece := Surrogates(high, low);
      WrittenValue(high, 0xD800 + (c - 0x10000) / 0x400);
      WrittenValue(low, 0xDC00 + (c - 0x10000) % 0x400);
    }
  }

  lemma Euro()
    ensures Parse([34, 92, 117, 50, 48, 97, 67, 34], true) == Done(Str([0xE2, 0x82, 0xAC]), 8)
  {
    hide Parse, CodePoint, Writes;
    assert Writes([50, 48, 97, 67], 0x20AC) by {
      EuroDigits();
    }
    CodePointParses(0x20AC, [50, 48, 97, 67], []);
    assert [QUOTE, BACKSLASH, 117] + [50, 48, 97, 67] + [] + [QUOTE] == [34, 92, 117, 50, 48, 97, 67, 34];
  }

  lemma EuroDigits()
    ensures Writes([50, 48, 97, 67], 0x20AC)
  {
    assert Stands(50, 2) && Stands(48, 0) && Stands(97, 10) && Stands(67, 12);
  }

  lemma Face()
    ensures Parse([34, 92, 117, 68, 56, 51, 100, 92, 117, 100, 69, 48, 48, 34], true)
            == Done(Str([0xF0, 0x9F, 0x98, 0x80]), 14)
  {
    hide Parse, CodePoint, Writes;
    assert Writes([68, 56, 51, 100], 0xD83D) && Writes([100, 69, 48, 48], 0xDE00) by {
      FaceDigits();
    }
    CodePointParses(0x1F600, [68, 56, 51, 100], [100, 69, 48, 48]);
    assert [QUOTE, BACKSLASH, 117] + [68, 56, 51, 100] + ([BACKSLASH, 117] + [100, 69, 48, 48]) + [QUOTE]
        == [34, 92, 117, 68, 56, 51, 100, 92, 117, 100, 69, 48, 48, 34];
  }

  lemma FaceDigits()
    ensures Writes([68, 56, 51, 100], 0xD83D) && Writes([100, 69, 48, 48], 0xDE00)
  {
    assert Stands(68, 13) && Stands(56, 8) && Stands(51, 3) && Stands(100, 13) && Stands(69, 14) && Stands(48, 0);
  }

  /** The euro sign and a face, as they are written with small and capital digits. */
  lemma Samples()
    ensures Parse([34, 92, 117, 50, 48, 97, 67, 34], true) == Done(Str([0xE2, 0x82, 0xAC]), 8)
    ensures Parse([34, 92, 117, 68, 56, 51, 100, 92, 117, 100, 69, 48, 48, 34], true)
            == Done(Str([0xF0, 0x9F, 0x98, 0x80]), 14)
  {
    hide Parse;
    Euro();
    Face();
  }

  /** Each of the eight letters behind a backslash, the slash among them. */
  lemma LettersParse(letter: byte)
    requires letter in ESCAPES
    ensures Parse([QUOTE, BACKSLASH, letter, QUOTE], true) == Done(Str([ESCAPES[letter]]), 4)
  {
    hide Parse;
    var c := Short(letter);
    StrictPieceParses(c);
    CStringWhole(PieceBytes(c));
    assert [QUOTE] + PieceText(c) + [QUOTE] == [QUOTE, BACKSLASH, letter, QUOTE];
  }

  lemma LenientNumeral()
    ensures Parse([48, 48, 55], true) == Done(Num(7), 3)
  {
    hide Parse;
    var d := Document(false, [], Numeral(false, [48, 48, 55]), []);
    assert Decimal([48]) == 0 && [48, 48][..1] == [48];
    assert Decimal([48, 48]) == 0 && [48, 48, 55][..2] == [48, 48];
    assert Decimal([48, 48, 55]) == 7;
    DocumentParses(d, true);
    assert DocumentText(d) == [48, 48, 55];
  }

  lemma LenientString()
    ensures Parse([QUOTE, NEWLINE, QUOTE], true) == Done(Str([NEWLINE]), 3)
  {
    hide Parse;
    assert Closed([NEWLINE][1..]);
    OnePieceParses(Plain(NEWLINE));
    CStringWhole([NEWLINE]);
    assert [QUOTE] + [NEWLINE] + [QUOTE] == [QUOTE, NEWLINE, QUOTE];
  }

  lemma LenientDigits()
    ensures Parse([QUOTE, BACKSLASH, 117, 49, 50, 103, 52, QUOTE], true) == Done(Str([]), 8)
  {
    hide Parse;
    var h := [49, 50, 103, 52];
    assert HexValue(h[2]).None?;
    ClosedWrong(h);
    OnePieceParses(Unit(h));
    assert [QUOTE] + PieceText(Unit(h)) + [QUOTE] == [QUOTE, BACKSLASH, 117, 49, 50, 103, 52, QUOTE];
  }

  lemma ClosedWrong(h: seq<byte>)
    requires h == [49, 50, 103, 52]
    ensures Closed([BACKSLASH, 117] + h)
  {
    assert ([BACKSLASH, 117] + h)[2..] == h;
    assert h[1..] == [50, 103, 52] && [50, 103, 52][1..] == [103, 52] && [103, 52][1..] == [52] && [52][1..] == [];
    assert Closed([103, 52]);
    assert Closed(h);
  }

  /** What the parser takes although it is no JSON text: leading zeros (007), control characters in strings,
      and wrong hexadecimal digits (\u12g4), which end the string there. */
  lemma Lenient()
    ensures Parse([48, 48, 55], true) == Done(Num(7), 3)
    ensures Parse([QUOTE, NEWLINE, QUOTE], true) == Done(Str([NEWLINE]), 3)
    ensures Parse([QUOTE, BACKSLASH, 117, 49, 50, 103, 52, QUOTE], true) == Done(Str([]), 8)
  {
    hide Parse;
    LenientNumeral();
    LenientString();
    LenientDigits();
  }
}
