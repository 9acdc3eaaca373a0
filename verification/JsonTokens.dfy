/** Strings and numbers: the parser reads each spelling as what it means, and what it reads has a spelling. */
module JsonTokens {
  import opened Basics
  import opened Json
  import opened JsonReader
  import opened JsonGrammar

  // ---------- where a text stands ----------

  lemma AtSplit(s: seq<byte>, p: nat, a: seq<byte>, b: seq<byte>)
    requires At(s, p, a + b)
    ensures At(s, p, a) && At(s, p + |a|, b)
  {
    assert s[p..p + |a|] == s[p..p + |a + b|][..|a|];
    assert s[p + |a|..p + |a| + |b|] == s[p..p + |a + b|][|a|..];
  }

  lemma AtJoin(s: seq<byte>, p: nat, a: seq<byte>, b: seq<byte>)
    requires At(s, p, a) && At(s, p + |a|, b)
    ensures At(s, p, a + b)
  {
    assert s[p..p + |a + b|] == s[p..p + |a|] + s[p + |a|..p + |a| + |b|];
  }

  lemma AtFirst(s: seq<byte>, p: nat, word: seq<byte>)
    requires At(s, p, word) && word != []
    ensures p < |s| && s[p] == word[0]
  {
    assert s[p] == s[p..p + |word|][0];
  }

  lemma AtIndex(s: seq<byte>, p: nat, word: seq<byte>, i: nat)
    requires At(s, p, word) && i < |word|
    ensures s[p + i] == word[i]
  {
    assert s[p..p + |word|][i] == s[p + i];
  }

  lemma AtOne(s: seq<byte>, p: nat)
    requires p < |s|
    ensures At(s, p, [s[p]])
  {
  }

  lemma NotAt(s: seq<byte>, p: nat, word: seq<byte>)
    requires p < |s| && word != [] && s[p] != word[0]
    ensures !At(s, p, word)
  {
    if At(s, p, word) {
      AtFirst(s, p, word);
    }
  }

  lemma NotLast(s: seq<byte>, p: nat)
    requires Terminated(s) && p < |s| && s[p] != 0
    ensures p + 1 < |s|
  {
  }

  // ---------- blanks ----------

  lemma {:induction false} SkipBlank(s: seq<byte>, p: nat, w: seq<byte>)
    requires At(s, p, w) && Blank(w) && p + |w| < |s| && s[p + |w|] > 32
    ensures Skip(s, p) == p + |w|
    decreases |w|
  {
    if w != [] {
      assert w == [w[0]] + w[1..];
      AtSplit(s, p, [w[0]], w[1..]);
      AtFirst(s, p, w);
      SkipBlank(s, p + 1, w[1..]);
    }
  }

  /** Only blanks are skipped, and all of them but the terminator. */
  lemma {:induction false} Skipped(s: seq<byte>, p: nat)
    requires p < |s|
    ensures var q := Skip(s, p); Blank(s[p..q]) && At(s, p, s[p..q]) && (s[q] > 32 || q + 1 == |s|)
    decreases |s| - p
  {
    var q := Skip(s, p);
    if q > p {
      Skipped(s, p + 1);
      assert s[p..q] == [s[p]] + s[p + 1..q];
    }
  }

  lemma SkipTwice(s: seq<byte>, p: nat)
    requires p < |s|
    ensures Skip(s, Skip(s, p)) == Skip(s, p)
  {
    Skipped(s, p);
  }

  // ---------- hexadecimal digits ----------

  lemma HexValueIff(b: byte, d: nat)
    ensures HexValue(b) == Some(d) <==> Stands(b, d)
  {
  }

  /** Sixteen times what stands before, and the last digit. */
  lemma HexStep(h: seq<byte>, b: byte)
    requires AllHex(h + [b])
    ensures AllHex(h) && HexValue(b).Some? && HexNumber(h + [b]) == 16 * HexNumber(h) + HexValue(b).value
  {
    assert (h + [b])[..|h|] == h;
    assert (h + [b])[|h|] == b;
    forall i | 0 <= i < |h|
      ensures HexValue(h[i]).Some?
    {
      assert (h + [b])[i] == h[i];
    }
  }

  lemma FourDigits(h: seq<byte>)
    requires |h| == 4
    ensures AllHex(h) <==> HexValue(h[0]).Some? && HexValue(h[1]).Some? && HexValue(h[2]).Some? && HexValue(h[3]).Some?
    ensures AllHex(h) ==>
              HexNumber(h) == 4096 * HexValue(h[0]).value + 256 * HexValue(h[1]).value
                              + 16 * HexValue(h[2]).value + HexValue(h[3]).value
  {
    hide HexValue;
    if AllHex(h) {
      assert h == [h[0], h[1], h[2]] + [h[3]];
      HexStep([h[0], h[1], h[2]], h[3]);
      assert [h[0], h[1], h[2]] == [h[0], h[1]] + [h[2]];
      HexStep([h[0], h[1]], h[2]);
      assert [h[0], h[1]] == [h[0]] + [h[1]];
      HexStep([h[0]], h[1]);
      assert [h[0]] == [] + [h[0]];
      HexStep([], h[0]);
    }
  }

  /** Four digits are read as the number they write, wrong ones as zero. */
  lemma Hex4Reads(s: seq<byte>, p: nat, h: seq<byte>)
    requires |h| == 4 && At(s, p, h)
    ensures Hex4(s, p) == UnitValue(h)
  {
    hide HexValue, At;
    FourDigits(h);
    AtIndex(s, p, h, 0);
    AtIndex(s, p, h, 1);
    AtIndex(s, p, h, 2);
    AtIndex(s, p, h, 3);
    assert p + 4 <= |s| by {
      AtLength(s, p, h);
    }
  }

  lemma AtLength(s: seq<byte>, p: nat, word: seq<byte>)
    requires At(s, p, word)
    ensures p + |word| <= |s| && s[p..p + |word|] == word
  {
  }

  /** Every number below 2^16, in four digits each small or capital, is read as that number. */
  lemma EveryHex4(s: seq<byte>, p: nat, n: nat)
    requires n < 0x10000 && p + 4 <= |s|
    requires Stands(s[p], n / 4096) && Stands(s[p + 1], n / 256 % 16)
    requires Stands(s[p + 2], n / 16 % 16) && Stands(s[p + 3], n % 16)
    ensures Hex4(s, p) == n
  {
    hide HexValue, Stands;
    HexValueIff(s[p], n / 4096);
    HexValueIff(s[p + 1], n / 256 % 16);
    HexValueIff(s[p + 2], n / 16 % 16);
    HexValueIff(s[p + 3], n % 16);
    var a, b := n / 16, n / 256;
    assert a / 16 == b && b / 16 == n / 4096;
  }

  // ---------- UTF-8 ----------

  /** Reading UTF-8 back: the marks are stripped and the groups of six bits put together. */
  function CodePoint(u: seq<byte>): int
    requires u != []
  {
    if u[0] < 0x80 then u[0]
    else if u[0] < 0xE0 && |u| > 1 then (u[0] as int - 0xC0) * 64 + Six(u[1])
    else if u[0] < 0xF0 && |u| > 2 then (u[0] as int - 0xE0) * 4096 + Six(u[1]) * 64 + Six(u[2])
    else if |u| > 3 then (u[0] as int - 0xF0) * 262144 + Six(u[1]) * 4096 + Six(u[2]) * 64 + Six(u[3])
    else 0
  }

  function Six(b: byte): int { b as int - 0x80 }

  /** Every code point is encoded so that it can be read back, with proper marks on every byte. */
  lemma Utf8Decodes(c: nat)
    requires c <= 0x10FFFF
    ensures CodePoint(Utf8(c)) == c
    ensures forall i | 1 <= i < |Utf8(c)| :: 0x80 <= Utf8(c)[i] < 0xC0
  {
    var d := c / 64;
    var e := d / 64;
    assert c / 4096 == e && c / 262144 == e / 64;
  }

  /** The forms of section 3 of RFC 3629: so many bytes as the code point needs, and in the first one the
      mark that says how many. */
  lemma Utf8Form(c: nat)
    requires c <= 0x10FFFF
    ensures var u := Utf8(c);
            && (c < 0x80 ==> |u| == 1 && u[0] < 0x80)
            && (0x80 <= c < 0x800 ==> |u| == 2 && 0xC0 <= u[0] < 0xE0)
            && (0x800 <= c < 0x10000 ==> |u| == 3 && 0xE0 <= u[0] < 0xF0)
            && (0x10000 <= c ==> |u| == 4 && 0xF0 <= u[0] < 0xF8)
    ensures c > 0 ==> 0 !in Utf8(c)
  {
  }

  // ---------- the pieces of a string ----------

  lemma UnescapeIff(letter: byte)
    ensures Unescape(letter) == if letter in ESCAPES then Some(ESCAPES[letter]) else None
  {
  }

  /** A piece is read as what it means. */
  lemma PieceReads(s: seq<byte>, p: nat, c: Piece, end: nat)
    requires ProperPiece(c) && At(s, p, PieceText(c)) && p + |PieceText(c)| <= end < |s|
    ensures Character(s, p, end) == Some((PieceBytes(c), |PieceText(c)|))
  {
    hide At, Hex4, UnitValue, Utf8, Unescape;
    var t := PieceText(c);
    AtIndex(s, p, t, 0);
    match c
    case Plain(_) =>
    case Short(letter) =>
      AtIndex(s, p, t, 1);
      UnescapeIff(letter);
    case Unit(h) =>
      AtIndex(s, p, t, 1);
      AtSplit(s, p, [BACKSLASH, 117], h);
      Hex4Reads(s, p + 2, h);
    case Surrogates(high, low) =>
      PairReads(s, p, high, low);
  }

  lemma PairReads(s: seq<byte>, p: nat, high: seq<byte>, low: seq<byte>)
    requires |high| == |low| == 4 && At(s, p, [BACKSLASH, 117] + high + ([BACKSLASH, 117] + low))
    ensures s[p] == s[p + 6] == BACKSLASH && s[p + 1] == s[p + 7] == 117 && p + 12 <= |s|
    ensures Hex4(s, p + 2) == UnitValue(high) && Hex4(s, p + 8) == UnitValue(low)
  {
    hide At, Hex4, UnitValue;
    AtLength(s, p, [BACKSLASH, 117] + high + ([BACKSLASH, 117] + low));
    AtSplit(s, p, [BACKSLASH, 117] + high, [BACKSLASH, 117] + low);
    AtSplit(s, p, [BACKSLASH, 117], high);
    AtSplit(s, p + 6, [BACKSLASH, 117], low);
    AtIndex(s, p, [BACKSLASH, 117], 0);
    AtIndex(s, p, [BACKSLASH, 117], 1);
    AtIndex(s, p + 6, [BACKSLASH, 117], 0);
    AtIndex(s, p + 6, [BACKSLASH, 117], 1);
    Hex4Reads(s, p + 2, high);
    Hex4Reads(s, p + 8, low);
  }

  lemma PrefixTwice<T>(a: seq<T>, b: seq<T>, o: Option<seq<T>>)
    ensures Prefix(a, Prefix(b, o)) == Prefix(a + b, o)
  {
    if o.Some? {
      assert a + (b + o.value) == a + b + o.value;
    }
  }

  lemma {:induction false} PiecesRead(s: seq<byte>, p: nat, cs: seq<Piece>, end: nat)
    requires ProperPieces(cs) && At(s, p, PiecesText(cs)) && p + |PiecesText(cs)| <= end < |s|
    ensures Decode(s, p, end) == Prefix(PiecesBytes(cs), Decode(s, p + |PiecesText(cs)|, end))
    decreases |cs|
  {
    hide At, Character, PieceText, PieceBytes, ProperPiece, Prefix;
    if cs != [] {
      var t := PieceText(cs[0]);
      AtSplit(s, p, t, PiecesText(cs[1..]));
      PieceReads(s, p, cs[0], end);
      PiecesRead(s, p + |t|, cs[1..], end);
      PrefixTwice(PieceBytes(cs[0]), PiecesBytes(cs[1..]), Decode(s, p + |PiecesText(cs)|, end));
    } else {
      NoPrefix(Decode(s, p, end));
    }
  }

  lemma NoPrefix<T>(o: Option<seq<T>>)
    ensures Prefix([], o) == o
  {
    if o.Some? {
      assert [] + o.value == o.value;
    }
  }

  // ---------- the closing quote ----------

  lemma {:induction false} ClosedEnds(s: seq<byte>, p: nat, r: seq<byte>)
    requires At(s, p, r) && Closed(r) && p + |r| < |s| && s[p + |r|] == QUOTE
    ensures EndQuote(s, p) == Some(p + |r|)
    decreases |r|
  {
    hide At;
    if r != [] {
      AtFirst(s, p, r);
      var n := if r[0] == BACKSLASH then 2 else 1;
      assert r == r[..n] + r[n..];
      AtSplit(s, p, r[..n], r[n..]);
      ClosedEnds(s, p + n, r[n..]);
    }
  }

  lemma {:induction false} EndsClosed(s: seq<byte>, p: nat, end: nat)
    requires EndQuote(s, p) == Some(end)
    ensures Closed(s[p..end])
    decreases |s| - p
  {
    if s[p] != QUOTE {
      var n := if s[p] == BACKSLASH then 2 else 1;
      EndsClosed(s, p + n, end);
      assert s[p..end][n..] == s[p + n..end];
    }
  }

  lemma {:induction false} CStringWhole(text: seq<byte>)
    requires 0 !in text
    ensures CString(text) == text
  {
    if text != [] {
      CStringWhole(text[1..]);
      assert [text[0]] + text[1..] == text;
    }
  }

  /** A string is read as what its spelling means. */
  lemma TokenReads(s: seq<byte>, p: nat, t: Token)
    requires Terminated(s) && ProperToken(t) && At(s, p, TokenText(t))
    ensures p < |s| && ParseString(s, p) == Done(TokenBytes(t), p + |TokenText(t)|)
  {
    hide At, Decode, EndQuote, Closed, PiecesText, PiecesBytes, ProperPieces, CString;
    var inside, text := Inside(t), PiecesText(t.pieces);
    AtSplit(s, p, [QUOTE] + inside, [QUOTE]);
    AtSplit(s, p, [QUOTE], inside);
    AtFirst(s, p, [QUOTE]);
    var end := p + 1 + |inside|;
    AtFirst(s, end, [QUOTE]);
    ClosedEnds(s, p + 1, inside);
    AtSplit(s, p + 1, text, if t.lone then [BACKSLASH] else []);
    PiecesRead(s, p + 1, t.pieces, end);
    if t.lone {
      AtFirst(s, end - 1, [BACKSLASH]);
    }
    DecodeEnd(s, end, t.lone);
  }

  lemma DecodeEnd(s: seq<byte>, end: nat, lone: bool)
    requires end < |s| && s[end] == QUOTE && (lone ==> 0 < end && s[end - 1] == BACKSLASH)
    ensures Decode(s, if lone then end - 1 else end, end) == Some(if lone then [QUOTE] else [])
  {
    if lone {
      assert Character(s, end - 1, end) == Some(([QUOTE], 2));
      assert Decode(s, end + 1, end) == Some([]);
      assert [QUOTE] + [] == [QUOTE];
    }
  }

  // ---------- what is read has a spelling ----------

  lemma CharacterSpelled(s: seq<byte>, p: nat, end: nat) returns (c: Piece)
    requires p < end < |s| && s[end] == QUOTE && Character(s, p, end).Some?
    ensures var (bytes, n) := Character(s, p, end).value;
            if p + n <= end then
              ProperPiece(c) && At(s, p, PieceText(c)) && n == |PieceText(c)| && bytes == PieceBytes(c)
            else p + 1 == end && s[p] == BACKSLASH && n == 2 && bytes == [QUOTE]
  {
    hide Hex4, UnitValue, Utf8;
    if s[p] != BACKSLASH {
      c := Plain(s[p]);
    } else if s[p + 1] != 117 {
      c := Short(s[p + 1]);
      UnescapeIff(s[p + 1]);
    } else {
      hide At;
      c := UnitSpelled(s, p, end);
    }
  }

  /** Six characters as they stand. */
  lemma SlashU(s: seq<byte>, p: nat) returns (t: seq<byte>)
    requires p + 6 <= |s| && s[p] == BACKSLASH && s[p + 1] == 117
    ensures t == [BACKSLASH, 117] + s[p + 2..p + 6] && At(s, p, t) && At(s, p + 2, s[p + 2..p + 6])
  {
    t := [BACKSLASH, 117] + s[p + 2..p + 6];
    assert s[p..p + 6] == t;
  }

  lemma UnitSpelled(s: seq<byte>, p: nat, end: nat) returns (c: Piece)
    requires p < end < |s| && s[p] == BACKSLASH && s[p + 1] == 117 && Literal(s, p, end).Some?
    ensures var (bytes, n) := Literal(s, p, end).value;
            p + n <= end && ProperPiece(c) && At(s, p, PieceText(c)) && n == |PieceText(c)| && bytes == PieceBytes(c)
  {
    hide Hex4, UnitValue, Utf8;
    hide At;
    var high := s[p + 2..p + 6];
    var first := SlashU(s, p);
    Hex4Reads(s, p + 2, high);
    if Literal(s, p, end).value.1 == 6 {
      c := Unit(high);
    } else {
      var low := s[p + 8..p + 12];
      var second := SlashU(s, p + 6);
      Hex4Reads(s, p + 8, low);
      c := Surrogates(high, low);
      AtJoin(s, p, first, second);
    }
  }

  lemma {:induction false} DecodeSpelled(s: seq<byte>, p: nat, end: nat) returns (t: Token)
    requires p <= end < |s| && s[end] == QUOTE && Decode(s, p, end).Some?
    ensures ProperPieces(t.pieces) && At(s, p, Inside(t)) && p + |Inside(t)| == end
    ensures Decode(s, p, end).value == PiecesBytes(t.pieces) + if t.lone then [QUOTE] else []
    decreases end - p
  {
    hide At, Character, PieceText, PieceBytes, PiecesBytes, ProperPiece, ProperPieces, Inside, Decode;
    if p == end {
      t := Token([], false);
      NoPieces(false);
      AtNothing(s, p);
      DecodeEnd(s, end, false);
    } else {
      DecodeStep(s, p, end);
      var (bytes, n) := Character(s, p, end).value;
      var c := CharacterSpelled(s, p, end);
      if p + n <= end {
        var rest := DecodeSpelled(s, p + n, end);
        t := Token([c] + rest.pieces, rest.lone);
        OneMorePiece(c, rest);
        AtJoin(s, p, PieceText(c), Inside(rest));
        Regroup(bytes, PiecesBytes(rest.pieces), if t.lone then [QUOTE] else []);
      } else {
        t := Token([], true);
        NoPieces(true);
        AtOne(s, p);
        DecodeEnd(s, end, true);
      }
    }
  }

  lemma DecodeStep(s: seq<byte>, p: nat, end: nat)
    requires p < end < |s| && Decode(s, p, end).Some?
    ensures Character(s, p, end).Some?
    ensures var (bytes, n) := Character(s, p, end).value;
            Decode(s, p + n, end).Some? && Decode(s, p, end).value == bytes + Decode(s, p + n, end).value
  {
    hide Character;
  }

  lemma NoPieces(lone: bool)
    ensures ProperPieces([]) && PiecesBytes([]) == []
    ensures Inside(Token([], lone)) == if lone then [BACKSLASH] else []
  {
    assert [] + [BACKSLASH] == [BACKSLASH];
  }

  lemma AtNothing(s: seq<byte>, p: nat)
    requires p <= |s|
    ensures At(s, p, [])
  {
  }

  lemma OneMorePiece(c: Piece, rest: Token)
    requires ProperPiece(c) && ProperPieces(rest.pieces)
    ensures var cs := [c] + rest.pieces;
            && ProperPieces(cs) && Inside(Token(cs, rest.lone)) == PieceText(c) + Inside(rest)
            && PiecesBytes(cs) == PieceBytes(c) + PiecesBytes(rest.pieces)
  {
    hide ProperPiece, PieceText, PieceBytes;
    var cs := [c] + rest.pieces;
    assert cs[1..] == rest.pieces;
    assert PiecesText(cs) == PieceText(c) + PiecesText(rest.pieces);
  }

  lemma StringSpelled(s: seq<byte>, p: nat) returns (t: Token)
    requires Terminated(s) && p < |s| && ParseString(s, p).Done?
    ensures ProperToken(t) && At(s, p, TokenText(t))
    ensures ParseString(s, p) == Done(TokenBytes(t), p + |TokenText(t)|)
  {
    hide At, Decode, Closed, PiecesText, PiecesBytes, ProperPieces, CString, Inside;
    var end := EndQuote(s, p + 1).value;
    t := DecodeSpelled(s, p + 1, end);
    EndsClosed(s, p + 1, end);
    AtLength(s, p + 1, Inside(t));
    AtOne(s, p);
    AtOne(s, end);
    AtJoin(s, p, [QUOTE], Inside(t));
    AtJoin(s, p, [QUOTE] + Inside(t), [QUOTE]);
  }

  // ---------- numbers ----------

  lemma DecimalStep(d: seq<byte>, b: byte)
    requires AllDigits(d) && IsDigit(b)
    ensures AllDigits(d + [b]) && Decimal(d + [b]) == 10 * Decimal(d) + (b - 48)
  {
    assert (d + [b])[..|d|] == d;
  }

  /** The digits from j to i have been read. */
  lemma {:induction false} RunReads(t: seq<byte>, j: nat, i: nat)
    requires j <= i <= |t| && AllDigits(t[j..i])
    ensures DigitRun(t, j, 0) == DigitRun(t, i, Decimal(t[j..i]))
    decreases i
  {
    hide DigitRun, AllDigits;
    if i > j {
      var last := i - 1;
      assert t[j..i] == t[j..last] + [t[last]];
      AllButLast(t[j..last], t[last]);
      RunReads(t, j, last);
      DecimalStep(t[j..last], t[last]);
      RunStep(t, last, Decimal(t[j..last]));
    } else {
      assert t[j..i] == [];
    }
  }

  lemma AllButLast(d: seq<byte>, b: byte)
    requires AllDigits(d + [b])
    ensures AllDigits(d) && IsDigit(b)
  {
    assert (d + [b])[|d|] == b;
    forall i | 0 <= i < |d|
      ensures IsDigit(d[i])
    {
      assert (d + [b])[i] == d[i];
    }
  }

  lemma RunStep(t: seq<byte>, i: nat, value: nat)
    requires i < |t| && IsDigit(t[i])
    ensures DigitRun(t, i, value) == DigitRun(t, i + 1, 10 * value + (t[i] - 48))
  {
  }

  /** The run ends in front of the first byte that is no digit, with the number of the digits. */
  lemma {:induction false} RunEnds(t: seq<byte>, j: nat, i: nat, value: nat)
    requires j <= i <= |t| && AllDigits(t[j..i]) && value == Decimal(t[j..i])
    ensures var (n, v) := DigitRun(t, i, value);
            && i <= n <= |t| && AllDigits(t[j..n]) && v == Decimal(t[j..n])
            && (n < |t| ==> !IsDigit(t[n]))
    decreases |t| - i
  {
    hide AllDigits, Decimal;
    if i < |t| && IsDigit(t[i]) {
      DecimalStep(t[j..i], t[i]);
      assert t[j..i + 1] == t[j..i] + [t[i]];
      RunEnds(t, j, i + 1, 10 * value + (t[i] - 48));
    }
  }

  lemma NumeralStarts(negative: bool, digits: seq<byte>)
    requires ProperNumeral(negative, digits)
    ensures var t := Render(Numeral(negative, digits));
            && 0 < |t| <= 63 && (t[0] == MINUS <==> negative) && (t[0] == MINUS || IsDigit(t[0]))
            && (forall k | 0 <= k < |t| :: InNumber(t[k]))
            && t[if negative then 1 else 0..] == digits
  {
    hide Decimal;
    var t := Render(Numeral(negative, digits));
    assert IsDigit(digits[0]);
    forall k | 0 <= k < |t|
      ensures InNumber(t[k])
    {
      assert k > 0 || !negative ==> t[k] == digits[k - if negative then 1 else 0];
    }
  }

  /** strtod on a whole numeral. */
  lemma StrtodReads(negative: bool, digits: seq<byte>)
    requires ProperNumeral(negative, digits)
    ensures var t := Render(Numeral(negative, digits));
            Strtod(t) == Done(if negative then -(Decimal(digits) as int) else Decimal(digits), |t|)
  {
    hide Decimal, DigitRun, Render, AllDigits, InNumber;
    var t := Render(Numeral(negative, digits));
    NumeralStarts(negative, digits);
    var j := if negative then 1 else 0;
    assert t[j..|t|] == digits;
    RunReads(t, j, |t|);
    RunAtEnd(t, Decimal(digits));
    NotPlus(t[0]);
  }

  lemma NotPlus(b: byte)
    ensures IsDigit(b) ==> b != 43 && b != MINUS
  {
  }

  lemma RunAtEnd(t: seq<byte>, value: nat)
    ensures DigitRun(t, |t|, value) == (|t|, value)
  {
  }

  lemma {:induction false} RunOf(s: seq<byte>, p: nat, i: nat, t: seq<byte>)
    requires At(s, p, t) && i <= |t| <= 63 && p + |t| < |s| && !InNumber(s[p + |t|])
    requires forall k | 0 <= k < |t| :: InNumber(t[k])
    ensures NumberRun(s, p, i) == |t|
    decreases |t| - i
  {
    if i < |t| {
      assert s[p + i] == s[p..p + |t|][i];
      RunOf(s, p, i + 1, t);
    }
  }

  lemma NumeralReads(s: seq<byte>, p: nat, negative: bool, digits: seq<byte>)
    requires Terminated(s) && ProperNumeral(negative, digits) && At(s, p, Render(Numeral(negative, digits)))
    requires var e := p + |Render(Numeral(negative, digits))|; e < |s| && !InNumber(s[e])
    ensures ParseNumber(s, p)
            == Done(Meaning(Numeral(negative, digits)), p + |Render(Numeral(negative, digits))|)
  {
    hide Decimal, Strtod, NumberRun, Render, AllDigits, InNumber;
    NumeralStarts(negative, digits);
    RunOf(s, p, 0, Render(Numeral(negative, digits)));
    StrtodReads(negative, digits);
  }

  /** A number read is that of a numeral. */
  lemma NumberSpelled(s: seq<byte>, p: nat) returns (n: Spelling)
    requires Terminated(s) && p < |s| && (s[p] == MINUS || IsDigit(s[p])) && ParseNumber(s, p).Done?
    ensures n.Numeral? && Proper(n) && At(s, p, Render(n))
    ensures ParseNumber(s, p) == Done(Meaning(n), p + |Render(n)|)
  {
    hide Decimal, DigitRun, NumberRun, AllDigits;
    var t := s[p..p + NumberRun(s, p, 0)];
    NumberRunEnds(s, p, 0);
    var j: nat := if t != [] && t[0] == MINUS then 1 else 0;
    assert t != [] ==> t[0] == s[p];
    assert t[j..j] == [];
    NoDigits();
    RunEnds(t, j, j, 0);
    var used := DigitRun(t, j, 0).0;
    var digits := t[j..used];
    n := Numeral(j == 1, digits);
    assert Render(n) == t[..used];
    assert s[p..p + used] == t[..used];
  }

  lemma NoDigits()
    ensures AllDigits([]) && Decimal([]) == 0
  {
  }
}
