/**
 The parser accepts exactly the texts the grammar spells, nested at most as deep as it allows, and gives
 them the meaning the grammar gives them.
 */
module JsonLanguage {
  import opened Basics
  import opened Json
  import opened JsonReader
  import opened JsonGrammar
  import opened JsonTokens

  // ---------- the first byte of a value ----------

  lemma Words()
    ensures WordText(Null) == NULL_TEXT && WordText(False) == FALSE_TEXT && WordText(True) == TRUE_TEXT
  {
    assert WordText(Null) == NULL_TEXT;
    assert WordText(False) == FALSE_TEXT;
    assert WordText(True) == TRUE_TEXT;
  }

  ghost predicate Starts(p: Spelling, b: byte) {
    match p
    case Word(v) => b == if v == Null then 110 else if v == False then 102 else 116
    case Numeral(_, _) => b == MINUS || IsDigit(b)
    case Chars(_) => b == QUOTE
    case List(_, _) => b == OPEN_ARRAY
    case Table(_, _) => b == OPEN_OBJECT
  }

  /** It tells the kind of value, is no blank and closes nothing. */
  lemma RenderStarts(p: Spelling)
    requires Proper(p)
    ensures Render(p) != [] && Starts(p, Render(p)[0])
    ensures Render(p)[0] > 32 && Render(p)[0] != CLOSE_ARRAY && Render(p)[0] != CLOSE_OBJECT
  {
    hide ItemsRender, EntriesRender, Inside, Decimal, ProperToken;
    match p
    case Word(_) => Words();
    case Numeral(negative, digits) => NumeralStarts(negative, digits);
    case _ =>
  }

  lemma NoKeyword(s: seq<byte>, p: nat)
    requires p < |s| && s[p] != 110 && s[p] != 102 && s[p] != 116
    ensures !At(s, p, NULL_TEXT) && !At(s, p, FALSE_TEXT) && !At(s, p, TRUE_TEXT)
  {
    NotAt(s, p, NULL_TEXT);
    NotAt(s, p, FALSE_TEXT);
    NotAt(s, p, TRUE_TEXT);
  }

  // ---------- every spelling is read as what it means ----------

  ghost function Expected<T>(v: T, end: nat, nesting: nat): Outcome<T> {
    if nesting <= CJSON_NESTING_LIMIT then Done(v, end) else Failed
  }

  lemma {:induction false} ValueParses(s: seq<byte>, p: nat, v: Spelling, depth: nat)
    requires Terminated(s) && Proper(v) && depth <= CJSON_NESTING_LIMIT
    requires At(s, p, Render(v)) && p + |Render(v)| < |s| && !InNumber(s[p + |Render(v)|])
    ensures ParseValue(s, p, depth) == Expected(Meaning(v), p + |Render(v)|, depth + Nest(Meaning(v)))
    decreases v, 0
  {
    hide At, ParseArray, ParseObject, ParseString, ParseNumber, Render, Meaning, Nest;
    RenderStarts(v);
    AtFirst(s, p, Render(v));
    if v.Word? {
      WordParses(s, p, v.v, depth);
    } else {
      NoKeyword(s, p);
      match v
      case Numeral(negative, digits) => NumeralParses(s, p, negative, digits);
      case Chars(t) => CharsParse(s, p, t);
      case List(inner, items) => ListParses(s, p, inner, items, depth);
      case Table(inner, entries) => TableParses(s, p, inner, entries, depth);
    }
  }

  lemma WordParses(s: seq<byte>, p: nat, v: Json, depth: nat)
    requires Terminated(s) && (v == Null || v == False || v == True) && depth <= CJSON_NESTING_LIMIT
    requires At(s, p, Render(Word(v))) && p < |s|
    ensures ParseValue(s, p, depth)
            == Expected(Meaning(Word(v)), p + |Render(Word(v))|, depth + Nest(Meaning(Word(v))))
  {
    hide At, WordText;
    Words();
    AtFirst(s, p, Render(Word(v)));
    if v != Null {
      NotAt(s, p, NULL_TEXT);
    }
    if v == True {
      NotAt(s, p, FALSE_TEXT);
    }
  }

  lemma NumeralParses(s: seq<byte>, p: nat, negative: bool, digits: seq<byte>)
    requires Terminated(s) && Proper(Numeral(negative, digits)) && At(s, p, Render(Numeral(negative, digits)))
    requires var e := p + |Render(Numeral(negative, digits))|; e < |s| && !InNumber(s[e])
    ensures ParseNumber(s, p)
            == Done(Meaning(Numeral(negative, digits)), p + |Render(Numeral(negative, digits))|)
    ensures Nest(Meaning(Numeral(negative, digits))) == 0
  {
    hide ParseNumber, Decimal, AllDigits, At, Render;
    NumeralReads(s, p, negative, digits);
  }

  lemma CharsParse(s: seq<byte>, p: nat, t: Token)
    requires Terminated(s) && Proper(Chars(t)) && At(s, p, Render(Chars(t))) && p < |s|
    ensures Meaning(Chars(t)) == Str(TokenBytes(t)) && Nest(Meaning(Chars(t))) == 0
    ensures ParseString(s, p) == Done(TokenBytes(t), p + |Render(Chars(t))|)
  {
    hide ParseString, ProperToken, TokenBytes, At, TokenText;
    TokenReads(s, p, t);
  }

  /** Where the parts of an item stand that something other than a blank follows. */
  lemma ItemPlace(s: seq<byte>, q: nat, i: Item)
    requires ProperItem(i) && At(s, q, ItemRender(i))
    requires var b := q + |ItemRender(i)|; b < |s| && s[b] > 32 && !InNumber(s[b])
    ensures var a := q + |i.before|;
            var e := a + |Render(i.value)|;
            && a < e < |s| && At(s, a, Render(i.value)) && Skip(s, q) == a && !InNumber(s[e])
            && Skip(s, e) == q + |ItemRender(i)| && s[a] != CLOSE_ARRAY && s[a] > 32
  {
    hide At, Render, Proper, Skip, Blank;
    var a, b := q + |i.before|, q + |ItemRender(i)|;
    var e := a + |Render(i.value)|;
    AtSplit(s, q, i.before + Render(i.value), i.after);
    AtSplit(s, q, i.before, Render(i.value));
    RenderStarts(i.value);
    AtFirst(s, a, Render(i.value));
    SkipBlank(s, q, i.before);
    SkipBlank(s, e, i.after);
    if i.after != [] {
      AtFirst(s, e, i.after);
      BlankFirst(i.after);
    }
  }

  lemma BlankFirst(w: seq<byte>)
    requires Blank(w) && w != []
    ensures w[0] <= 32
  {
  }

  /** One turn of the loop of parse_array. */
  lemma ItemsStep(s: seq<byte>, q: nat, a: nat, v: Json, e: nat, b: nat, depth: nat, nest: nat)
    requires Terminated(s) && q < |s| && a < |s| && Skip(s, q) == a
    requires ParseValue(s, a, depth) == Expected(v, e, depth + nest)
    requires e < |s| && b < |s| && Skip(s, e) == b && (s[b] == COMMA || s[b] == CLOSE_ARRAY)
    ensures depth + nest > CJSON_NESTING_LIMIT ==> ParseItems(s, q, depth) == Failed
    ensures depth + nest <= CJSON_NESTING_LIMIT && s[b] == CLOSE_ARRAY ==> ParseItems(s, q, depth) == Done([v], b + 1)
    ensures depth + nest <= CJSON_NESTING_LIMIT && s[b] == COMMA ==>
              b + 1 < |s| && ParseItems(s, q, depth) == Cons(v, ParseItems(s, b + 1, depth))
  {
    hide ParseValue, Skip;
  }

  lemma MeaningCons(items: seq<Item>)
    requires items != [] && ProperItems(items)
    ensures ProperItem(items[0]) && Proper(items[0].value) && ProperItems(items[1..])
    ensures var m := ItemsMeaning(items);
            && m == [Meaning(items[0].value)] + ItemsMeaning(items[1..])
            && NestItems(m) == Max(Nest(Meaning(items[0].value)), NestItems(ItemsMeaning(items[1..])))
    ensures |items| == 1 ==> ItemsMeaning(items) == [Meaning(items[0].value)] && ItemsMeaning(items[1..]) == []
  {
    hide Meaning, Proper, Nest, NestItems, ProperItem, ItemMeaning;
    assert ProperItem(items[0]);
    ItemMeans(items[0]);
    var rest := ItemsMeaning(items[1..]);
    NestCons(Meaning(items[0].value), rest);
    assert |items| == 1 ==> rest == [] && [Meaning(items[0].value)] + rest == [Meaning(items[0].value)];
  }

  lemma ItemMeans(i: Item)
    requires ProperItem(i)
    ensures Proper(i.value) && ItemMeaning(i) == Meaning(i.value)
  {
    hide Proper, Meaning, Blank;
  }

  lemma NestCons(v: Json, rest: seq<Json>)
    ensures NestItems([v] + rest) == Max(Nest(v), NestItems(rest))
  {
    hide Nest;
    assert ([v] + rest)[1..] == rest;
  }

  /** A first item, what follows it, and the rest. */
  lemma ItemsCut(s: seq<byte>, q: nat, items: seq<Item>)
    requires items != [] && At(s, q, ItemsRender(items) + [CLOSE_ARRAY])
    ensures var b := q + |ItemRender(items[0])|;
            && At(s, q, ItemRender(items[0])) && b < |s|
            && s[b] == (if |items| == 1 then CLOSE_ARRAY else COMMA)
            && (|items| == 1 ==> |ItemsRender(items)| == |ItemRender(items[0])|)
            && (|items| > 1 ==>
                  && At(s, b + 1, ItemsRender(items[1..]) + [CLOSE_ARRAY])
                  && |ItemsRender(items)| == |ItemRender(items[0])| + 1 + |ItemsRender(items[1..])|)
  {
    hide At, ItemRender;
    var first := ItemRender(items[0]);
    var b := q + |first|;
    if |items| == 1 {
      assert ItemsRender(items) == first;
      AtSplit(s, q, first, [CLOSE_ARRAY]);
      AtFirst(s, b, [CLOSE_ARRAY]);
    } else {
      var rest := ItemsRender(items[1..]) + [CLOSE_ARRAY];
      assert ItemsRender(items) + [CLOSE_ARRAY] == first + ([COMMA] + rest);
      AtSplit(s, q, first, [COMMA] + rest);
      AtSplit(s, b, [COMMA], rest);
      AtFirst(s, b, [COMMA]);
    }
  }

  lemma {:induction false} ItemsParse(s: seq<byte>, q: nat, items: seq<Item>, depth: nat)
    requires Terminated(s) && depth <= CJSON_NESTING_LIMIT && items != [] && ProperItems(items)
    requires At(s, q, ItemsRender(items) + [CLOSE_ARRAY])
    ensures q < |s| && s[Skip(s, q)] != CLOSE_ARRAY
    ensures var m := ItemsMeaning(items);
            ParseItems(s, q, depth) == Expected(m, q + |ItemsRender(items)| + 1, depth + NestItems(m))
    decreases items, 0
  {
    hide At, Proper, ProperItems, ProperItem, ItemRender, ItemsRender, Render, ParseValue, ParseItems, Skip, Nest,
      NestItems, Meaning, ItemsMeaning, Terminated;
    var i := items[0];
    ItemsCut(s, q, items);
    MeaningCons(items);
    ItemPlace(s, q, i);
    var a, b := q + |i.before|, q + |ItemRender(i)|;
    var e := a + |Render(i.value)|;
    ValueParses(s, a, i.value, depth);
    ItemsStep(s, q, a, Meaning(i.value), e, b, depth, Nest(Meaning(i.value)));
    if |items| > 1 {
      ItemsParse(s, b + 1, items[1..], depth);
    } else {
      NoNesting();
    }
  }

  lemma NoNesting()
    ensures NestItems([]) == 0 && NestMembers([]) == 0
  {
  }

  lemma {:induction false} ListParses(s: seq<byte>, p: nat, inner: seq<byte>, items: seq<Item>, depth: nat)
    requires Terminated(s) && depth <= CJSON_NESTING_LIMIT && Proper(List(inner, items))
    requires At(s, p, Render(List(inner, items))) && p < |s| && s[p] == OPEN_ARRAY
    ensures ParseArray(s, p, depth)
            == Expected(Meaning(List(inner, items)), p + |Render(List(inner, items))|,
                        depth + Nest(Meaning(List(inner, items))))
    decreases items, 1
  {
    hide At, ProperItem, ItemsRender, ParseItems, Skip, NestItems, Terminated, ItemsMeaning, Blank;
    ListMeans(inner, items);
    var body := if items == [] then inner else ItemsRender(items);
    Regroup([OPEN_ARRAY], body, [CLOSE_ARRAY]);
    AtSplit(s, p, [OPEN_ARRAY], body + [CLOSE_ARRAY]);
    NotLast(s, p);
    if items == [] {
      NoNesting();
      AtSplit(s, p + 1, inner, [CLOSE_ARRAY]);
      AtFirst(s, p + 1 + |inner|, [CLOSE_ARRAY]);
      SkipBlank(s, p + 1, inner);
    } else if depth < CJSON_NESTING_LIMIT {
      ItemsParse(s, p + 1, items, depth + 1);
      ItemsFrom(s, p + 1, depth + 1);
    }
  }

  lemma ListMeans(inner: seq<byte>, items: seq<Item>)
    requires Proper(List(inner, items))
    ensures ProperItems(items) && Meaning(List(inner, items)) == Arr(ItemsMeaning(items))
    ensures Nest(Meaning(List(inner, items))) == 1 + NestItems(ItemsMeaning(items))
    ensures items == [] ==> ItemsMeaning(items) == []
  {
    hide ProperItem;
  }

  /** Reading items starts with skipping blanks, so it may as well start behind them. */
  lemma ItemsFrom(s: seq<byte>, q: nat, depth: nat)
    requires Terminated(s) && q < |s|
    ensures ParseItems(s, q, depth) == ParseItems(s, Skip(s, q), depth)
  {
    hide ParseValue, Skip;
    SkipTwice(s, q);
  }

  // ---------- objects ----------

  /** Where the parts of an entry stand that something other than a blank follows. */
  lemma EntryPlace(s: seq<byte>, q: nat, e: Entry)
    requires Terminated(s) && ProperEntry(e) && At(s, q, EntryRender(e))
    requires var c := q + |EntryRender(e)|; c < |s| && s[c] > 32 && !InNumber(s[c])
    ensures var k := q + |e.before|;
            var b := k + |TokenText(e.key)| + |e.after|;
            && k < |s| && Skip(s, q) == k && s[k] == QUOTE
            && ParseString(s, k) == Done(TokenBytes(e.key), k + |TokenText(e.key)|)
            && b + 1 < |s| && Skip(s, k + |TokenText(e.key)|) == b && s[b] == COLON
            && At(s, b + 1, ItemRender(e.item)) && b + 1 + |ItemRender(e.item)| == q + |EntryRender(e)|
  {
    hide At, TokenText, ProperToken, ProperItem, ItemRender, Skip, ParseString, TokenBytes, Blank, Terminated;
    var key, item := TokenText(e.key), ItemRender(e.item);
    var k := q + |e.before|;
    var f := k + |key|;
    var b := f + |e.after|;
    AtSplit(s, q, e.before + key + e.after + [COLON], item);
    AtSplit(s, q, e.before + key + e.after, [COLON]);
    AtSplit(s, q, e.before + key, e.after);
    AtSplit(s, q, e.before, key);
    TokenStarts(s, k, e.key);
    AtFirst(s, b, [COLON]);
    NotLast(s, b);
    SkipBlank(s, q, e.before);
    SkipBlank(s, f, e.after);
    TokenReads(s, k, e.key);
  }

  lemma TokenStarts(s: seq<byte>, k: nat, t: Token)
    requires At(s, k, TokenText(t))
    ensures k < |s| && s[k] == QUOTE
  {
    hide At, Inside;
    AtFirst(s, k, TokenText(t));
  }

  /** One turn of the loop of parse_object, as far as the value. */
  lemma MemberStep(s: seq<byte>, q: nat, k: nat, f: nat, b: nat, a: nat, m: Member, e: nat, depth: nat, nest: nat)
    requires Terminated(s) && q < |s| && k < |s| && Skip(s, q) == k && ParseString(s, k) == Done(m.key, f)
    requires f < |s| && b + 1 < |s| && Skip(s, f) == b && s[b] == COLON && a < |s| && Skip(s, b + 1) == a
    requires ParseValue(s, a, depth) == Expected(m.value, e, depth + nest)
    ensures ParseMember(s, q, depth) == Expected(m, e, depth + nest)
  {
    hide ParseValue, ParseString, Skip;
  }

  lemma MembersStep(s: seq<byte>, q: nat, m: Member, e: nat, c: nat, depth: nat, nest: nat)
    requires Terminated(s) && q < |s| && ParseMember(s, q, depth) == Expected(m, e, depth + nest)
    requires e < |s| && c < |s| && Skip(s, e) == c && (s[c] == COMMA || s[c] == CLOSE_OBJECT)
    ensures depth + nest > CJSON_NESTING_LIMIT ==> ParseMembers(s, q, depth) == Failed
    ensures depth + nest <= CJSON_NESTING_LIMIT && s[c] == CLOSE_OBJECT ==>
              ParseMembers(s, q, depth) == Done([m], c + 1)
    ensures depth + nest <= CJSON_NESTING_LIMIT && s[c] == COMMA ==>
              c + 1 < |s| && ParseMembers(s, q, depth) == Cons(m, ParseMembers(s, c + 1, depth))
  {
    hide ParseMember, Skip;
  }

  lemma EntriesCons(entries: seq<Entry>)
    requires entries != [] && ProperEntries(entries)
    ensures ProperEntry(entries[0]) && ProperItem(entries[0].item) && Proper(entries[0].item.value)
    ensures ProperToken(entries[0].key) && ProperEntries(entries[1..])
    ensures var m := EntriesMeaning(entries);
            var first := Member(TokenBytes(entries[0].key), Meaning(entries[0].item.value));
            && m == [first] + EntriesMeaning(entries[1..])
            && NestMembers(m) == Max(Nest(Meaning(entries[0].item.value)), NestMembers(EntriesMeaning(entries[1..])))
            && (|entries| == 1 ==> m == [first] && EntriesMeaning(entries[1..]) == [])
  {
    hide Meaning, Proper, Nest, NestMembers, TokenBytes, ProperToken, ProperEntry, ProperItem, EntryMeaning;
    assert ProperEntry(entries[0]);
    EntryMeans(entries[0]);
    var first, rest := EntryMeaning(entries[0]), EntriesMeaning(entries[1..]);
    NestMembersCons(first, rest);
    assert |entries| == 1 ==> rest == [] && [first] + rest == [first];
  }

  lemma EntryMeans(e: Entry)
    requires ProperEntry(e)
    ensures ProperToken(e.key) && ProperItem(e.item) && Proper(e.item.value)
    ensures EntryMeaning(e) == Member(TokenBytes(e.key), Meaning(e.item.value))
  {
    hide Proper, Meaning, Blank, TokenBytes, ProperToken, ProperItem, ItemMeaning;
    ItemMeans(e.item);
  }

  lemma NestMembersCons(m: Member, rest: seq<Member>)
    ensures NestMembers([m] + rest) == Max(Nest(m.value), NestMembers(rest))
  {
    hide Nest;
    assert ([m] + rest)[1..] == rest;
  }

  lemma EntriesCut(s: seq<byte>, q: nat, entries: seq<Entry>)
    requires entries != [] && At(s, q, EntriesRender(entries) + [CLOSE_OBJECT])
    ensures var b := q + |EntryRender(entries[0])|;
            && At(s, q, EntryRender(entries[0])) && b < |s|
            && s[b] == (if |entries| == 1 then CLOSE_OBJECT else COMMA)
            && (|entries| == 1 ==> |EntriesRender(entries)| == |EntryRender(entries[0])|)
            && (|entries| > 1 ==>
                  && At(s, b + 1, EntriesRender(entries[1..]) + [CLOSE_OBJECT])
                  && |EntriesRender(entries)| == |EntryRender(entries[0])| + 1 + |EntriesRender(entries[1..])|)
  {
    hide At, EntryRender;
    var first := EntryRender(entries[0]);
    var b := q + |first|;
    if |entries| == 1 {
      assert EntriesRender(entries) == first;
      AtSplit(s, q, first, [CLOSE_OBJECT]);
      AtFirst(s, b, [CLOSE_OBJECT]);
    } else {
      var rest := EntriesRender(entries[1..]) + [CLOSE_OBJECT];
      assert EntriesRender(entries) + [CLOSE_OBJECT] == first + ([COMMA] + rest);
      AtSplit(s, q, first, [COMMA] + rest);
      AtSplit(s, b, [COMMA], rest);
      AtFirst(s, b, [COMMA]);
    }
  }

  lemma {:induction false} MembersParse(s: seq<byte>, q: nat, entries: seq<Entry>, depth: nat)
    requires Terminated(s) && depth <= CJSON_NESTING_LIMIT && entries != [] && ProperEntries(entries)
    requires At(s, q, EntriesRender(entries) + [CLOSE_OBJECT])
    ensures q < |s| && s[Skip(s, q)] == QUOTE
    ensures var m := EntriesMeaning(entries);
            ParseMembers(s, q, depth) == Expected(m, q + |EntriesRender(entries)| + 1, depth + NestMembers(m))
    decreases entries, 0
  {
    hide At, Proper, ProperEntries, ProperEntry, ProperToken, ProperItem, EntryRender, EntriesRender, ItemRender,
      TokenText, TokenBytes, Render, ParseValue, ParseString, ParseMember, ParseMembers, Skip, Nest, NestMembers,
      Meaning, EntriesMeaning, Terminated;
    var n := entries[0];
    EntriesCut(s, q, entries);
    EntriesCons(entries);
    EntryPlace(s, q, n);
    var k, c := q + |n.before|, q + |EntryRender(n)|;
    var f := k + |TokenText(n.key)|;
    var b := f + |n.after|;
    ItemPlace(s, b + 1, n.item);
    var a := b + 1 + |n.item.before|;
    var e := a + |Render(n.item.value)|;
    ValueParses(s, a, n.item.value, depth);
    var m := Member(TokenBytes(n.key), Meaning(n.item.value));
    MemberStep(s, q, k, f, b, a, m, e, depth, Nest(m.value));
    MembersStep(s, q, m, e, c, depth, Nest(m.value));
    if |entries| > 1 {
      MembersParse(s, c + 1, entries[1..], depth);
    } else {
      NoNesting();
    }
  }

  lemma {:induction false} TableParses(s: seq<byte>, p: nat, inner: seq<byte>, entries: seq<Entry>, depth: nat)
    requires Terminated(s) && depth <= CJSON_NESTING_LIMIT && Proper(Table(inner, entries))
    requires At(s, p, Render(Table(inner, entries))) && p < |s| && s[p] == OPEN_OBJECT
    ensures ParseObject(s, p, depth)
            == Expected(Meaning(Table(inner, entries)), p + |Render(Table(inner, entries))|,
                        depth + Nest(Meaning(Table(inner, entries))))
    decreases entries, 1
  {
    hide At, ProperEntry, EntriesRender, ParseMembers, Skip, NestMembers, Terminated, EntriesMeaning, Blank;
    TableMeans(inner, entries);
    var body := if entries == [] then inner else EntriesRender(entries);
    Regroup([OPEN_OBJECT], body, [CLOSE_OBJECT]);
    AtSplit(s, p, [OPEN_OBJECT], body + [CLOSE_OBJECT]);
    NotLast(s, p);
    if entries == [] {
      NoNesting();
      AtSplit(s, p + 1, inner, [CLOSE_OBJECT]);
      AtFirst(s, p + 1 + |inner|, [CLOSE_OBJECT]);
      SkipBlank(s, p + 1, inner);
    } else if depth < CJSON_NESTING_LIMIT {
      MembersParse(s, p + 1, entries, depth + 1);
      MembersFrom(s, p + 1, depth + 1);
    }
  }

  lemma TableMeans(inner: seq<byte>, entries: seq<Entry>)
    requires Proper(Table(inner, entries))
    ensures ProperEntries(entries) && Meaning(Table(inner, entries)) == Obj(EntriesMeaning(entries))
    ensures Nest(Meaning(Table(inner, entries))) == 1 + NestMembers(EntriesMeaning(entries))
    ensures entries == [] ==> EntriesMeaning(entries) == []
  {
    hide ProperEntry;
  }

  lemma MembersFrom(s: seq<byte>, q: nat, depth: nat)
    requires Terminated(s) && q < |s|
    ensures ParseMembers(s, q, depth) == ParseMembers(s, Skip(s, q), depth)
  {
    hide ParseValue, ParseString, Skip;
    SkipTwice(s, q);
  }

  // ---------- whatever is read has a spelling ----------

  lemma {:induction false} ValueSpelled(s: seq<byte>, p: nat, depth: nat) returns (v: Spelling)
    requires Terminated(s) && p < |s| && depth <= CJSON_NESTING_LIMIT && ParseValue(s, p, depth).Done?
    ensures Proper(v) && At(s, p, Render(v)) && depth + Nest(Meaning(v)) <= CJSON_NESTING_LIMIT
    ensures ParseValue(s, p, depth) == Done(Meaning(v), p + |Render(v)|)
    decreases |s| - p, 1
  {
    hide At, ParseArray, ParseObject, ParseString, ParseNumber, Render, Meaning, Nest, Proper;
    if At(s, p, NULL_TEXT) {
      v := WordSpelled(s, p, Null);
    } else if At(s, p, FALSE_TEXT) {
      v := WordSpelled(s, p, False);
    } else if At(s, p, TRUE_TEXT) {
      v := WordSpelled(s, p, True);
    } else if s[p] == QUOTE {
      v := CharsSpelled(s, p);
    } else if s[p] == MINUS || IsDigit(s[p]) {
      v := NumberSpelled(s, p);
      NumeralNest(v);
    } else if s[p] == OPEN_ARRAY {
      v := ListSpelled(s, p, depth);
    } else {
      v := TableSpelled(s, p, depth);
    }
  }

  lemma WordSpelled(s: seq<byte>, p: nat, w: Json) returns (v: Spelling)
    requires w == Null || w == False || w == True
    requires At(s, p, if w == Null then NULL_TEXT else if w == False then FALSE_TEXT else TRUE_TEXT)
    ensures Proper(v) && At(s, p, Render(v)) && Meaning(v) == w && Nest(w) == 0
    ensures |Render(v)| == if w == False then 5 else 4
  {
    hide At, WordText;
    Words();
    v := Word(w);
  }

  lemma CharsSpelled(s: seq<byte>, p: nat) returns (v: Spelling)
    requires Terminated(s) && p < |s| && ParseString(s, p).Done?
    ensures Proper(v) && At(s, p, Render(v)) && Nest(Meaning(v)) == 0
    ensures Meaning(v).Str? && ParseString(s, p) == Done(Meaning(v).s, p + |Render(v)|)
  {
    hide ParseString, ProperToken, TokenBytes, At, TokenText;
    var t := StringSpelled(s, p);
    v := Chars(t);
  }

  lemma NumeralNest(v: Spelling)
    requires v.Numeral? && Proper(v)
    ensures Nest(Meaning(v)) == 0
  {
    hide Decimal, AllDigits;
  }

  lemma {:induction false} ListSpelled(s: seq<byte>, p: nat, depth: nat) returns (v: Spelling)
    requires Terminated(s) && p < |s| && s[p] == OPEN_ARRAY && depth <= CJSON_NESTING_LIMIT
    requires ParseArray(s, p, depth).Done?
    ensures Proper(v) && At(s, p, Render(v)) && depth + Nest(Meaning(v)) <= CJSON_NESTING_LIMIT
    ensures ParseArray(s, p, depth) == Done(Meaning(v), p + |Render(v)|)
    decreases |s| - p, 0
  {
    hide At, Proper, ProperItem, ItemsRender, ParseItems, Skip, NestItems, Terminated, ItemsMeaning, Blank, Meaning,
      Nest;
    NotLast(s, p);
    var q := Skip(s, p + 1);
    Skipped(s, p + 1);
    AtOne(s, p);
    if s[q] == CLOSE_ARRAY {
      var inner := s[p + 1..q];
      v := List(inner, []);
      EmptyList(inner);
      AtOne(s, q);
      AtJoin(s, p, [OPEN_ARRAY], inner);
      AtJoin(s, p, [OPEN_ARRAY] + inner, [CLOSE_ARRAY]);
    } else {
      ItemsFrom(s, p + 1, depth + 1);
      var items := ItemsSpelled(s, p + 1, depth + 1);
      v := List([], items);
      ListProper(items);
      ListMeans([], items);
      AtJoin(s, p, [OPEN_ARRAY], ItemsRender(items) + [CLOSE_ARRAY]);
      Regroup([OPEN_ARRAY], ItemsRender(items), [CLOSE_ARRAY]);
    }
  }

  lemma EmptyList(inner: seq<byte>)
    requires Blank(inner)
    ensures Proper(List(inner, [])) && Meaning(List(inner, [])) == Arr([]) && Nest(Arr([])) == 1
    ensures Proper(Table(inner, [])) && Meaning(Table(inner, [])) == Obj([]) && Nest(Obj([])) == 1
  {
    ListMeans(inner, []);
    TableMeans(inner, []);
  }

  lemma ListProper(items: seq<Item>)
    requires ProperItems(items)
    ensures Proper(List([], items))
  {
    hide ProperItem;
  }

  lemma {:induction false} ItemsSpelled(s: seq<byte>, q: nat, depth: nat) returns (items: seq<Item>)
    requires Terminated(s) && q < |s| && depth <= CJSON_NESTING_LIMIT && ParseItems(s, q, depth).Done?
    ensures items != [] && ProperItems(items) && At(s, q, ItemsRender(items) + [CLOSE_ARRAY])
    ensures depth + NestItems(ItemsMeaning(items)) <= CJSON_NESTING_LIMIT
    ensures ParseItems(s, q, depth) == Done(ItemsMeaning(items), q + |ItemsRender(items)| + 1)
    decreases |s| - q, 2
  {
    hide At, Proper, ProperItems, ProperItem, ItemRender, ItemsRender, Render, ParseValue, ParseItems, Skip, Nest,
      NestItems, Meaning, ItemsMeaning, Terminated, Blank;
    var a, e, b := ItemsOpen(s, q, depth);
    var v := ValueSpelled(s, a, depth);
    var i := ItemSpelled(s, q, v);
    AtOne(s, b);
    NoNesting();
    if s[b] == COMMA {
      var rest := ItemsSpelled(s, b + 1, depth);
      items := [i] + rest;
      ItemsGrow(i, rest);
      AtJoin(s, b, [COMMA], ItemsRender(rest) + [CLOSE_ARRAY]);
      AtJoin(s, q, ItemRender(i), [COMMA] + (ItemsRender(rest) + [CLOSE_ARRAY]));
    } else {
      items := [i];
      OneItem(i);
      AtJoin(s, q, ItemRender(i), [CLOSE_ARRAY]);
    }
    MeaningCons(items);
  }

  /** What one turn of the loop has found when the loop succeeds. */
  lemma ItemsOpen(s: seq<byte>, q: nat, depth: nat) returns (a: nat, e: nat, b: nat)
    requires Terminated(s) && q < |s| && ParseItems(s, q, depth).Done?
    ensures q <= a < |s| && a == Skip(s, q) && ParseValue(s, a, depth).Done? && e == ParseValue(s, a, depth).end < |s|
    ensures a < e <= b < |s| && b == Skip(s, e) && (s[b] == COMMA || s[b] == CLOSE_ARRAY)
    ensures var v := ParseValue(s, a, depth).value;
            if s[b] == COMMA then
              b + 1 < |s| && ParseItems(s, b + 1, depth).Done?
              && ParseItems(s, q, depth)
                 == Done([v] + ParseItems(s, b + 1, depth).value, ParseItems(s, b + 1, depth).end)
            else ParseItems(s, q, depth) == Done([v], b + 1)
  {
    hide ParseValue, Skip;
    a := Skip(s, q);
    e := ParseValue(s, a, depth).end;
    b := Skip(s, e);
    NotLast(s, b);
  }

  lemma ItemSpelled(s: seq<byte>, q: nat, v: Spelling) returns (i: Item)
    requires q < |s| && Proper(v) && At(s, Skip(s, q), Render(v)) && Skip(s, q) + |Render(v)| < |s|
    ensures ProperItem(i) && At(s, q, ItemRender(i)) && i.value == v
    ensures q + |ItemRender(i)| == Skip(s, Skip(s, q) + |Render(v)|)
  {
    hide At, Proper, Render, Skip, Blank;
    var a := Skip(s, q);
    var e := a + |Render(v)|;
    var b := Skip(s, e);
    Skipped(s, q);
    Skipped(s, e);
    i := Item(s[q..a], v, s[e..b]);
    AtJoin(s, q, i.before, Render(v));
    AtJoin(s, q, i.before + Render(v), i.after);
  }

  lemma ItemsGrow(i: Item, rest: seq<Item>)
    requires ProperItem(i) && rest != [] && ProperItems(rest)
    ensures ProperItems([i] + rest) && ([i] + rest)[1..] == rest
    ensures ItemsRender([i] + rest) + [CLOSE_ARRAY] == ItemRender(i) + ([COMMA] + (ItemsRender(rest) + [CLOSE_ARRAY]))
    ensures |ItemsRender([i] + rest)| == |ItemRender(i)| + 1 + |ItemsRender(rest)|
  {
    hide ProperItem, ItemRender;
    var items := [i] + rest;
    assert items[1..] == rest;
    assert ItemsRender(items) == ItemRender(i) + ([COMMA] + ItemsRender(rest));
    Regroup([COMMA], ItemsRender(rest), [CLOSE_ARRAY]);
    Regroup(ItemRender(i), [COMMA] + ItemsRender(rest), [CLOSE_ARRAY]);
  }

  lemma OneItem(i: Item)
    requires ProperItem(i)
    ensures ProperItems([i]) && ItemsRender([i]) == ItemRender(i)
  {
    hide ProperItem, ItemRender;
    assert ItemRender(i) + [] == ItemRender(i);
  }

  lemma {:induction false} TableSpelled(s: seq<byte>, p: nat, depth: nat) returns (v: Spelling)
    requires Terminated(s) && p < |s| && s[p] == OPEN_OBJECT && depth <= CJSON_NESTING_LIMIT
    requires ParseObject(s, p, depth).Done?
    ensures Proper(v) && At(s, p, Render(v)) && depth + Nest(Meaning(v)) <= CJSON_NESTING_LIMIT
    ensures ParseObject(s, p, depth) == Done(Meaning(v), p + |Render(v)|)
    decreases |s| - p, 0
  {
    hide At, Proper, ProperEntry, EntriesRender, ParseMembers, Skip, NestMembers, Terminated, EntriesMeaning, Blank,
      Meaning, Nest;
    NotLast(s, p);
    var q := Skip(s, p + 1);
    Skipped(s, p + 1);
    AtOne(s, p);
    if s[q] == CLOSE_OBJECT {
      var inner := s[p + 1..q];
      v := Table(inner, []);
      EmptyList(inner);
      AtOne(s, q);
      AtJoin(s, p, [OPEN_OBJECT], inner);
      AtJoin(s, p, [OPEN_OBJECT] + inner, [CLOSE_OBJECT]);
    } else {
      MembersFrom(s, p + 1, depth + 1);
      var entries := MembersSpelled(s, p + 1, depth + 1);
      v := Table([], entries);
      TableProper(entries);
      TableMeans([], entries);
      AtJoin(s, p, [OPEN_OBJECT], EntriesRender(entries) + [CLOSE_OBJECT]);
      Regroup([OPEN_OBJECT], EntriesRender(entries), [CLOSE_OBJECT]);
    }
  }

  lemma TableProper(entries: seq<Entry>)
    requires ProperEntries(entries)
    ensures Proper(Table([], entries))
  {
    hide ProperEntry;
  }

  lemma {:induction false} MembersSpelled(s: seq<byte>, q: nat, depth: nat) returns (entries: seq<Entry>)
    requires Terminated(s) && q < |s| && depth <= CJSON_NESTING_LIMIT && ParseMembers(s, q, depth).Done?
    ensures entries != [] && ProperEntries(entries) && At(s, q, EntriesRender(entries) + [CLOSE_OBJECT])
    ensures depth + NestMembers(EntriesMeaning(entries)) <= CJSON_NESTING_LIMIT
    ensures ParseMembers(s, q, depth) == Done(EntriesMeaning(entries), q + |EntriesRender(entries)| + 1)
    decreases |s| - q, 2
  {
    hide At, Proper, ProperEntries, ProperEntry, EntryRender, EntriesRender, ParseMember, ParseMembers, Skip, Nest,
      NestMembers, EntriesMeaning, Terminated;
    var e, c := MembersOpen(s, q, depth);
    var n := MemberSpelled(s, q, depth);
    AtOne(s, c);
    NoNesting();
    if s[c] == COMMA {
      var rest := MembersSpelled(s, c + 1, depth);
      entries := [n] + rest;
      EntriesGrow(n, rest);
      AtJoin(s, c, [COMMA], EntriesRender(rest) + [CLOSE_OBJECT]);
      AtJoin(s, q, EntryRender(n), [COMMA] + (EntriesRender(rest) + [CLOSE_OBJECT]));
    } else {
      entries := [n];
      OneEntry(n);
      AtJoin(s, q, EntryRender(n), [CLOSE_OBJECT]);
    }
    EntryMeans(n);
    EntriesCons(entries);
  }

  lemma MembersOpen(s: seq<byte>, q: nat, depth: nat) returns (e: nat, c: nat)
    requires Terminated(s) && q < |s| && ParseMembers(s, q, depth).Done?
    ensures ParseMember(s, q, depth).Done? && e == ParseMember(s, q, depth).end
    ensures q < e <= c < |s| && c == Skip(s, e) && (s[c] == COMMA || s[c] == CLOSE_OBJECT)
    ensures var m := ParseMember(s, q, depth).value;
            if s[c] == COMMA then
              c + 1 < |s| && ParseMembers(s, c + 1, depth).Done?
              && ParseMembers(s, q, depth)
                 == Done([m] + ParseMembers(s, c + 1, depth).value, ParseMembers(s, c + 1, depth).end)
            else ParseMembers(s, q, depth) == Done([m], c + 1)
  {
    hide ParseMember, Skip;
    e := ParseMember(s, q, depth).end;
    c := Skip(s, e);
    NotLast(s, c);
  }

  /** A member with the blanks behind it. */
  lemma {:induction false} MemberSpelled(s: seq<byte>, q: nat, depth: nat) returns (n: Entry)
    requires Terminated(s) && q < |s| && depth <= CJSON_NESTING_LIMIT && ParseMember(s, q, depth).Done?
    ensures ProperEntry(n) && At(s, q, EntryRender(n)) && depth + Nest(EntryMeaning(n).value) <= CJSON_NESTING_LIMIT
    ensures var r := ParseMember(s, q, depth);
            EntryMeaning(n) == r.value && q + |EntryRender(n)| == Skip(s, r.end)
    decreases |s| - q, 1
  {
    hide At, Proper, ProperToken, ProperItem, TokenText, TokenBytes, ItemRender, Render, ParseValue, ParseString, Skip,
      Nest, Meaning, EntryMeaning, Terminated, Blank;
    var k := Skip(s, q);
    var t := StringSpelled(s, k);
    var f := k + |TokenText(t)|;
    var b := Skip(s, f);
    NotLast(s, b);
    var a := Skip(s, b + 1);
    var v := ValueSpelled(s, a, depth);
    var i := ItemSpelled(s, b + 1, v);
    n := Entry(s[q..k], t, s[f..b], i);
    Skipped(s, q);
    Skipped(s, f);
    AtOne(s, b);
    AtJoin(s, q, n.before, TokenText(t));
    AtJoin(s, q, n.before + TokenText(t), n.after);
    AtJoin(s, q, n.before + TokenText(t) + n.after, [COLON]);
    AtJoin(s, q, n.before + TokenText(t) + n.after + [COLON], ItemRender(i));
    EntryMeans(n);
  }

  lemma EntriesGrow(n: Entry, rest: seq<Entry>)
    requires ProperEntry(n) && rest != [] && ProperEntries(rest)
    ensures ProperEntries([n] + rest) && ([n] + rest)[1..] == rest
    ensures EntriesRender([n] + rest) + [CLOSE_OBJECT]
            == EntryRender(n) + ([COMMA] + (EntriesRender(rest) + [CLOSE_OBJECT]))
    ensures |EntriesRender([n] + rest)| == |EntryRender(n)| + 1 + |EntriesRender(rest)|
  {
    hide ProperEntry, EntryRender;
    var entries := [n] + rest;
    assert entries[1..] == rest;
    assert EntriesRender(entries) == EntryRender(n) + ([COMMA] + EntriesRender(rest));
    Regroup([COMMA], EntriesRender(rest), [CLOSE_OBJECT]);
    Regroup(EntryRender(n), [COMMA] + EntriesRender(rest), [CLOSE_OBJECT]);
  }

  lemma OneEntry(n: Entry)
    requires ProperEntry(n)
    ensures ProperEntries([n]) && EntriesRender([n]) == EntryRender(n)
  {
    hide ProperEntry, EntryRender;
    assert EntryRender(n) + [] == EntryRender(n);
  }
}
