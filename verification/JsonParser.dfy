/** The parser in place on a parse buffer: it reads what the reading functions say, never past the
    terminator, and writes strings inside the memory estimated for them. */
module JsonParser {
  import opened Basics
  import opened Json
  import opened JsonReader

  // ---------- the size estimated for a string ----------

  /** The escape pairs the first pass skips from p on. */
  ghost function Pairs(s: seq<byte>, p: nat, end: nat): (n: nat)
    requires end <= |s|
    ensures p <= end ==> n <= end - p
    decreases end - p
  {
    if p >= end then 0
    else if s[p] == BACKSLASH then (if p + 1 < end then 1 + Pairs(s, p + 2, end) else 1)
    else Pairs(s, p + 1, end)
  }

  /** The second pass may get out of step with the pairs of the first: an invalid \\u sequence can
      end in the middle of a pair.  `mid` says that it stands on the second half of one. */
  ghost predicate InStep(s: seq<byte>, p: nat, end: nat, mid: bool) {
    p >= end || EndQuote(s, if mid then p + 1 else p) == Some(end)
  }

  /** The bytes that may still be written when the second pass stands at p. */
  ghost function Room(s: seq<byte>, p: nat, end: nat, mid: bool): nat
    requires end < |s|
  {
    if p >= end then 0 else end - p - Pairs(s, if mid then p + 1 else p, end)
  }

  /** One aligned character or pair of the first pass. */
  lemma Unfold(s: seq<byte>, q: nat, end: nat)
    requires q < end < |s| && EndQuote(s, q) == Some(end)
    ensures s[q] != QUOTE
    ensures s[q] == BACKSLASH ==>
              q + 2 <= end && EndQuote(s, q + 2) == Some(end) && Pairs(s, q, end) == 1 + Pairs(s, q + 2, end)
    ensures s[q] != BACKSLASH ==> EndQuote(s, q + 1) == Some(end) && Pairs(s, q, end) == Pairs(s, q + 1, end)
  {
  }

  /** A plain character takes one byte of the estimate. */
  lemma OneStep(s: seq<byte>, p: nat, end: nat, mid: bool)
    requires p < end < |s| && InStep(s, p, end, mid) && s[p] != BACKSLASH
    ensures InStep(s, p + 1, end, false) && Room(s, p + 1, end, false) + 1 <= Room(s, p, end, mid)
  {
    hide EndQuote, Pairs;
    NoPairs(s, end);
    if !mid {
      Unfold(s, p, end);
    }
  }

  lemma NoPairs(s: seq<byte>, end: nat)
    requires end < |s|
    ensures Pairs(s, end, end) == 0
  {
  }

  /** Two characters take at least one. */
  lemma TwoSteps(s: seq<byte>, p: nat, end: nat, mid: bool) returns (next: bool)
    requires p < end < |s| && InStep(s, p, end, mid)
    ensures InStep(s, p + 2, end, next) && Room(s, p + 2, end, next) + 1 <= Room(s, p, end, mid)
  {
    hide EndQuote, Pairs;
    NoPairs(s, end);
    var q := if mid then p + 1 else p;
    assert q <= end;
    if q == end {
      next := false;
    } else {
      Unfold(s, q, end);
      if s[q] == BACKSLASH {
        next := mid;
      } else if mid || p + 1 == end {
        next := false;
      } else {
        Unfold(s, p + 1, end);
        next := s[p + 1] == BACKSLASH;
      }
    }
  }

  /** So whatever is decoded fits: an escape of two characters gives one byte, a \\u sequence of six
      at most three, a surrogate pair of twelve at most four. */
  lemma CharacterFits(s: seq<byte>, p: nat, end: nat, mid: bool) returns (next: bool)
    requires p < end < |s| && InStep(s, p, end, mid) && Character(s, p, end).Some?
    ensures var (bytes, n) := Character(s, p, end).value;
            InStep(s, p + n, end, next) && Room(s, p + n, end, next) + |bytes| <= Room(s, p, end, mid)
  {
    hide EndQuote, Utf8, Hex4, Pairs, Room, InStep;
    if s[p] != BACKSLASH {
      OneStep(s, p, end, mid);
      next := false;
    } else {
      next := TwoSteps(s, p, end, mid);
      var n := Character(s, p, end).value.1;
      if n >= 6 {
        next := TwoSteps(s, p + 2, end, next);
        next := TwoSteps(s, p + 4, end, next);
      }
      if n == 12 {
        next := TwoSteps(s, p + 6, end, next);
        next := TwoSteps(s, p + 8, end, next);
        next := TwoSteps(s, p + 10, end, next);
      }
    }
  }

  // ---------- UTF-8 ----------

  /** The six-bit groups behind the first byte, and what is left for the first byte. */
  function Rest(c: nat, k: nat): (r: seq<byte>)
    ensures |r| == k
  {
    if k == 0 then [] else Rest(c / 64, k - 1) + [0x80 + c % 64]
  }

  function Lead(c: nat, k: nat): nat { if k == 0 then c else Lead(c / 64, k - 1) }

  function Mark(length: nat): nat {
    if length == 4 then 0xF0 else if length == 3 then 0xE0 else if length == 2 then 0xC0 else 0
  }

  lemma Utf8Parts(c: nat)
    requires c <= 0x10FFFF
    ensures var k := |Utf8(c)| - 1;
            Mark(k + 1) + Lead(c, k) < 256 && Utf8(c) == [Mark(k + 1) + Lead(c, k)] + Rest(c, k)
  {
    var d := c / 64;
    var e := d / 64;
    assert c / 4096 == e && c / 262144 == e / 64;
    assert Rest(c, 1) == [0x80 + c % 64];
    assert Rest(d, 1) == [0x80 + d % 64];
    assert Rest(d, 2) == [0x80 + e % 64, 0x80 + d % 64];
    assert Rest(c, 2) == [0x80 + d % 64, 0x80 + c % 64];
    assert Rest(c, 3) == [0x80 + e % 64, 0x80 + d % 64, 0x80 + c % 64];
    assert Lead(d, 1) == e && Lead(e, 1) == e / 64 && Lead(d, 2) == e / 64;
    assert Lead(c, 1) == d && Lead(c, 2) == e && Lead(c, 3) == e / 64;
  }

  /** The loop of utf16_literal_to_utf8: from the last byte down, six bits at a time. */
  method PutGroups(output: array<byte>, at: nat, codePoint: nat, length: nat) returns (c: nat)
    requires length > 0 && at + length <= output.Length
    modifies output
    ensures output[..at] == old(output[..at]) && output[at + 1..at + length] == Rest(codePoint, length - 1)
    ensures c == Lead(codePoint, length - 1)
  {
    hide Rest, Lead;
    c := codePoint;
    var i: nat := length - 1;
    assert output[at + length..at + length] == [];
    while i > 0
      invariant i < length && output[..at] == old(output[..at]) && Lead(c, i) == Lead(codePoint, length - 1)
      invariant Rest(c, i) + output[at + i + 1..at + length] == Rest(codePoint, length - 1)
    {
      ghost var done, b := output[at + i + 1..at + length], 0x80 + c % 64;
      RestStep(c, i, done);
      output[at + i] := 0x80 + c % 64;
      assert output[at + i..at + length] == [b] + done;
      c, i := c / 64, i - 1;
    }
    RestEnd(c, output[at + 1..at + length]);
  }

  method PutUtf8(output: array<byte>, at: nat, codePoint: nat) returns (length: nat)
    requires codePoint <= 0x10FFFF && at + |Utf8(codePoint)| <= output.Length
    modifies output
    ensures length == |Utf8(codePoint)| && output[..at + length] == old(output[..at]) + Utf8(codePoint)
  {
    hide Utf8, Rest, Lead;
    var mark: nat := 0;
    length := 1;
    if codePoint >= 0x10000 {
      length, mark := 4, 0xF0;
    } else if codePoint >= 0x800 {
      length, mark := 3, 0xE0;
    } else if codePoint >= 0x80 {
      length, mark := 2, 0xC0;
    }
    Utf8Length(codePoint);
    Utf8Parts(codePoint);
    var c := PutGroups(output, at, codePoint, length);
    ghost var before, rest := output[..at], output[at + 1..at + length];
    output[at] := mark + c;
    assert output[..at + length] == before + ([mark + c] + rest);
  }

  lemma RestStep(c: nat, i: nat, done: seq<byte>)
    requires i > 0
    ensures Lead(c, i) == Lead(c / 64, i - 1) && Rest(c, i) + done == Rest(c / 64, i - 1) + ([0x80 + c % 64] + done)
  {
  }

  lemma RestEnd(c: nat, done: seq<byte>)
    ensures Lead(c, 0) == c && Rest(c, 0) + done == done
  {
  }

  lemma Utf8Length(c: nat)
    requires c <= 0x10FFFF
    ensures |Utf8(c)| == if c >= 0x10000 then 4 else if c >= 0x800 then 3 else if c >= 0x80 then 2 else 1
  {
  }

  // ---------- the buffer ----------

  class ParseBuffer {
    const content: seq<byte>
    var offset: nat
    var depth: nat

    /** The text of a C string, with its terminator. */
    constructor (text: seq<byte>)
      ensures content == text + [0] && offset == 0 && depth == 0
    {
      content, offset, depth := text + [0], 0, 0;
    }

    method SkipWhitespace()
      requires offset < |content|
      modifies `offset
      ensures offset == Skip(content, old(offset))
    {
      while offset < |content| && content[offset] <= 32
        invariant offset <= |content|
        invariant Skip(content, old(offset)) == if offset < |content| then Skip(content, offset) else |content| - 1
      {
        offset := offset + 1;
      }
      if offset == |content| {
        offset := offset - 1;
      }
    }

    /** The first pass over a string: its closing quote, and how many backslashes are skipped. */
    method FindEnd() returns (found: bool, end: nat, skipped: nat)
      requires offset < |content|
      ensures found <==> EndQuote(content, offset + 1).Some?
      ensures found ==> EndQuote(content, offset + 1) == Some(end) && skipped == Pairs(content, offset + 1, end)
    {
      end, skipped, found := offset + 1, 0, false;
      ghost var goal := EndQuote(content, offset + 1);
      while end < |content| && content[end] != QUOTE
        invariant goal == EndQuote(content, end)
        invariant goal.Some? ==> skipped + Pairs(content, end, goal.value) == Pairs(content, offset + 1, goal.value)
        decreases |content| - end
      {
        if goal.Some? {
          Unfold(content, end, goal.value);
        }
        if content[end] == BACKSLASH {
          if end + 1 >= |content| {
            return;
          }
          skipped, end := skipped + 1, end + 1;
        }
        end := end + 1;
      }
      found := end < |content|;
      if found {
        NoPairs(content, end);
      }
    }

    /** One character or escape of the second pass, written to the output at n. */
    method PutCharacter(p: nat, end: nat, output: array<byte>, n: nat) returns (taken: nat, written: nat)
      requires p < end < |content|
      requires Character(content, p, end).Some? ==> n + |Character(content, p, end).value.0| <= output.Length
      modifies output
      ensures taken == 0 <==> Character(content, p, end).None?
      ensures taken > 0 ==>
                var bytes := Character(content, p, end).value.0;
                Character(content, p, end).value.1 == taken && written == |bytes|
                && output[..n + written] == old(output[..n]) + bytes
    {
      hide Utf8, Hex4;
      if content[p] != BACKSLASH {
        output[n] := content[p];
        return 1, 1;
      }
      if content[p + 1] != 117 {
        var plain := Unescape(content[p + 1]);
        if plain.None? {
          return 0, 0;
        }
        output[n] := plain.value;
        return 2, 1;
      }
      if end - p < 6 {
        return 0, 0;
      }
      var first := Hex4(content, p + 2);
      if 0xDC00 <= first <= 0xDFFF {
        return 0, 0;
      }
      if 0xD800 <= first <= 0xDBFF {
        if end - (p + 6) < 6 || content[p + 6] != BACKSLASH || content[p + 7] != 117 {
          return 0, 0;
        }
        var second := Hex4(content, p + 8);
        if second < 0xDC00 || second > 0xDFFF {
          return 0, 0;
        }
        taken := 12;
        written := PutUtf8(output, n, 0x10000 + (first - 0xD800) * 1024 + (second - 0xDC00));
      } else {
        taken := 6;
        written := PutUtf8(output, n, first);
      }
    }

    /** parse_string: the output array has the estimated size and is never overrun. */
    method ParseString() returns (r: Outcome<seq<byte>>)
      requires Terminated(content) && offset < |content|
      modifies `offset
      ensures r == JsonReader.ParseString(content, old(offset))
      ensures r.Done? ==> offset == r.end
    {
      hide Decode, EndQuote, Character, Pairs;
      if content[offset] != QUOTE {
        return Failed;
      }
      var found, end, skipped := FindEnd();
      if !found {
        return Failed;
      }
      var output := new byte[end - offset - skipped + 1](_ => 0);
      ghost var goal, mid := Decode(content, offset + 1, end), false;
      var p: nat, n: nat := offset + 1, 0;
      assert output[..0] == [];
      PrefixNothing(goal);
      while p < end
        invariant n + Room(content, p, end, mid) + 2 <= output.Length && InStep(content, p, end, mid)
        invariant goal == Prefix(output[..n], Decode(content, p, end))
        decreases end - p
      {
        DecodeStep(content, p, end);
        if Character(content, p, end).Some? {
          mid := CharacterFits(content, p, end, mid);
        }
        ghost var before := output[..n];
        var taken, written := PutCharacter(p, end, output, n);
        if taken == 0 {
          offset := p;
          return Failed;
        }
        PrefixTwice(before, Character(content, p, end).value.0, Decode(content, p + taken, end));
        p, n := p + taken, n + written;
      }
      DecodeEnd(content, p, end);
      assert output[..n] + [] == output[..n];
      output[n] := 0;
      offset := end + 1;
      r := Done(CString(output[..n]), offset);
    }

    static lemma PrefixNothing(o: Option<seq<byte>>)
      ensures Prefix([], o) == o
    {
      if o.Some? {
        assert [] + o.value == o.value;
      }
    }

    static lemma PrefixTwice(a: seq<byte>, b: seq<byte>, o: Option<seq<byte>>)
      ensures Prefix(a, Prefix(b, o)) == Prefix(a + b, o)
    {
      if o.Some? {
        assert a + (b + o.value) == a + b + o.value;
      }
    }

    static lemma DecodeStep(s: seq<byte>, p: nat, end: nat)
      requires p < end < |s|
      ensures Decode(s, p, end) == match Character(s, p, end)
                                   case None => None
                                   case Some((bytes, n)) => Prefix(bytes, Decode(s, p + n, end))
    {
      hide Character;
    }

    static lemma DecodeEnd(s: seq<byte>, p: nat, end: nat)
      requires end <= p && end < |s|
      ensures Decode(s, p, end) == Some([])
    {
    }
  
    /** The first loop of parse_number: the run of number characters, and a terminator. */
    method CopyNumber() returns (number: array<byte>, i: nat)
      requires Terminated(content) && offset < |content|
      ensures fresh(number) && number.Length == 64 && i <= 63 && offset + i <= |content|
      ensures number[..i] == content[offset..offset + i] && number[i] == 0 && i == NumberRun(content, offset, 0)
    {
      hide NumberRun, InNumber;
      number := new byte[64](_ => 0);
      i := 0;
      while i < 63 && offset + i < |content| && InNumber(content[offset + i])
        invariant i <= 63 && offset + i <= |content| && number[..i] == content[offset..offset + i]
        invariant NumberRun(content, offset, 0) == NumberRun(content, offset, i)
      {
        RunStep(content, offset, i);
        ghost var done := number[..i];
        number[i] := content[offset + i];
        assert number[..i + 1] == done + [content[offset + i]];
        assert content[offset..offset + i + 1] == content[offset..offset + i] + [content[offset + i]];
        i := i + 1;
      }
      RunStep(content, offset, i);
      ghost var done := number[..i];
      number[i] := 0;
      assert number[..i] == done;
    }

    /** parse_number: at most 63 characters are copied for strtod. */
    method ParseNumber() returns (r: Outcome<Json>)
      requires Terminated(content) && offset < |content|
      modifies `offset
      ensures r == JsonReader.ParseNumber(content, old(offset))
      ensures r.Done? ==> offset == r.end
    {
      hide Strtod, NumberRun, InNumber;
      var number, i := CopyNumber();
      var v := Strtod(number[..i]);
      NumberRunEnds(content, offset, 0);
      match v
      case Failed => r := Failed;
      case Beyond => r := Beyond;
      case Done(n, used) =>
        offset := offset + used;
        r := Done(Num(n), offset);
    }

    static lemma RunStep(s: seq<byte>, p: nat, i: nat)
      requires p + i <= |s| && i <= 63
      ensures NumberRun(s, p, i) == if i < 63 && p + i < |s| && InNumber(s[p + i]) then NumberRun(s, p, i + 1) else i
    {
    }

    /** strncmp at the offset, for a word that can still be read. */
    method Match(word: seq<byte>) returns (same: bool)
      requires offset < |content|
      ensures same == At(content, offset, word)
    {
      same := offset + |word| <= |content|;
      if same {
        var i := 0;
        while i < |word| && content[offset + i] == word[i]
          invariant i <= |word| && content[offset..offset + i] == word[..i]
        {
          i := i + 1;
          assert content[offset..offset + i] == content[offset..offset + (i - 1)] + [content[offset + (i - 1)]];
        }
        same := i == |word|;
        if !same {
          assert content[offset..offset + |word|][i] == content[offset + i];
        }
      }
    }

    /** parse_value. */
    method ParseValue() returns (r: Outcome<Json>)
      requires Terminated(content) && offset < |content|
      modifies `offset, `depth
      ensures r == JsonReader.ParseValue(content, old(offset), old(depth))
      ensures r.Done? ==> offset == r.end && depth == old(depth)
      decreases |content| - offset, 1
    {
      hide At, JsonReader.ParseString, JsonReader.ParseNumber, JsonReader.ParseArray, JsonReader.ParseObject,
        Terminated;
      var isNull := Match(NULL_TEXT);
      var isFalse := Match(FALSE_TEXT);
      var isTrue := Match(TRUE_TEXT);
      if isNull {
        offset := offset + 4;
        return Done(Null, offset);
      } else if isFalse {
        offset := offset + 5;
        return Done(False, offset);
      } else if isTrue {
        offset := offset + 4;
        return Done(True, offset);
      } else if content[offset] == QUOTE {
        var text := ParseString();
        match text
        case Done(bytes, end) => return Done(Str(bytes), end);
        case _ => return Failed;
      } else if content[offset] == MINUS || IsDigit(content[offset]) {
        r := ParseNumber();
      } else if content[offset] == OPEN_ARRAY {
        r := ParseArray();
      } else if content[offset] == OPEN_OBJECT {
        r := ParseObject();
      } else {
        r := Failed;
      }
    }

    static ghost function After<T>(acc: seq<T>, o: Outcome<seq<T>>): Outcome<seq<T>> {
      match o
      case Done(vs, e) => Done(acc + vs, e)
      case Failed => Failed
      case Beyond => Beyond
    }

    static lemma AfterNothing<T>(o: Outcome<seq<T>>)
      ensures After([], o) == o
    {
      if o.Done? {
        assert [] + o.value == o.value;
      }
    }

    static lemma AfterCons<T>(acc: seq<T>, v: T, o: Outcome<seq<T>>)
      ensures After(acc, Cons(v, o)) == After(acc + [v], o)
    {
      if o.Done? {
        assert acc + ([v] + o.value) == acc + [v] + o.value;
      }
    }

    /** One turn of the loop over the elements of an array, spelled out. */
    static lemma ItemsTurn(s: seq<byte>, q: nat, depth: nat)
      requires Terminated(s) && q < |s|
      ensures var v := JsonReader.ParseValue(s, Skip(s, q), depth);
              && (v == Failed ==> ParseItems(s, q, depth) == Failed)
              && (v == Beyond ==> ParseItems(s, q, depth) == Beyond)
              && (v.Done? ==>
                    var b := Skip(s, v.end);
                    && (s[b] == COMMA ==>
                          b + 1 < |s| && ParseItems(s, q, depth) == Cons(v.value, ParseItems(s, b + 1, depth)))
                    && (s[b] == CLOSE_ARRAY ==> b + 1 < |s| && ParseItems(s, q, depth) == Done([v.value], b + 1))
                    && (s[b] != COMMA && s[b] != CLOSE_ARRAY ==> ParseItems(s, q, depth) == Failed))
    {
      hide JsonReader.ParseValue, Skip;
    }

    /** What a turn means for the whole, with the elements so far. */
    static lemma ItemsSoFar(s: seq<byte>, q: nat, depth: nat, items: seq<Json>, goal: Outcome<seq<Json>>)
      requires Terminated(s) && q < |s| && goal == After(items, ParseItems(s, q, depth))
      ensures var v := JsonReader.ParseValue(s, Skip(s, q), depth);
              && (v == Failed ==> goal == Failed)
              && (v == Beyond ==> goal == Beyond)
              && (v.Done? ==>
                    var b := Skip(s, v.end);
                    && (s[b] == COMMA ==>
                          b + 1 < |s| && goal == After(items + [v.value], ParseItems(s, b + 1, depth)))
                    && (s[b] == CLOSE_ARRAY ==> b + 1 < |s| && goal == Done(items + [v.value], b + 1))
                    && (s[b] != COMMA && s[b] != CLOSE_ARRAY ==> goal == Failed))
    {
      hide JsonReader.ParseValue, Skip, ParseItems;
      ItemsTurn(s, q, depth);
      var v := JsonReader.ParseValue(s, Skip(s, q), depth);
      if v.Done? && s[Skip(s, v.end)] == COMMA {
        AfterCons(items, v.value, ParseItems(s, Skip(s, v.end) + 1, depth));
      }
    }

    /** The part of the loop of parse_array that reads one element. */
    method ParseItem() returns (r: Outcome<Json>)
      requires Terminated(content) && offset < |content|
      modifies `offset, `depth
      ensures r == JsonReader.ParseValue(content, Skip(content, old(offset)), old(depth))
      ensures r.Done? ==> offset == r.end && depth == old(depth)
      decreases |content| - offset, 2
    {
      hide JsonReader.ParseValue, Skip;
      SkipWhitespace();
      r := ParseValue();
    }

    /** parse_array: the elements are collected in order until the closing bracket. */
    method ParseArray() returns (r: Outcome<Json>)
      requires Terminated(content) && offset < |content| && content[offset] == OPEN_ARRAY
      modifies `offset, `depth
      ensures r == JsonReader.ParseArray(content, old(offset), old(depth))
      ensures r.Done? ==> offset == r.end && depth == old(depth)
      decreases |content| - offset, 0
    {
      hide JsonReader.ParseValue, ParseItems, Skip, After;
      if depth >= CJSON_NESTING_LIMIT {
        return Failed;
      }
      depth := depth + 1;
      offset := offset + 1;
      SkipWhitespace();
      ghost var goal := ParseItems(content, offset, depth);
      var items: seq<Json> := [];
      if content[offset] != CLOSE_ARRAY {
        offset := offset - 1;
        AfterNothing(goal);
        var more := true;
        while more
          invariant old(offset) <= offset && depth == old(depth) + 1
          invariant more ==> offset + 1 < |content| && goal == After(items, ParseItems(content, offset + 1, depth))
          invariant !more ==> offset < |content| && content[offset] != COMMA
          invariant !more && content[offset] == CLOSE_ARRAY ==>
                      goal == Done(items, offset + 1) && offset + 1 < |content|
          invariant !more && content[offset] != CLOSE_ARRAY ==> goal == Failed
          decreases |content| - offset, more
        {
          offset := offset + 1;
          ItemsSoFar(content, offset, depth, items, goal);
          var v := ParseItem();
          if v.Failed? {
            return Failed;
          }
          if v.Beyond? {
            return Beyond;
          }
          SkipWhitespace();
          more := content[offset] == COMMA;
          items := items + [v.value];
        }
        if content[offset] != CLOSE_ARRAY {
          return Failed;
        }
      }
      depth := depth - 1;
      offset := offset + 1;
      r := Done(Arr(items), offset);
    }

    static lemma MembersTurn(s: seq<byte>, q: nat, depth: nat)
      requires Terminated(s) && q < |s|
      ensures var m := JsonReader.ParseMember(s, q, depth);
              && (m == Failed ==> ParseMembers(s, q, depth) == Failed)
              && (m == Beyond ==> ParseMembers(s, q, depth) == Beyond)
              && (m.Done? ==>
                    var b := Skip(s, m.end);
                    && (s[b] == COMMA ==>
                          b + 1 < |s| && ParseMembers(s, q, depth) == Cons(m.value, ParseMembers(s, b + 1, depth)))
                    && (s[b] == CLOSE_OBJECT ==> b + 1 < |s| && ParseMembers(s, q, depth) == Done([m.value], b + 1))
                    && (s[b] != COMMA && s[b] != CLOSE_OBJECT ==> ParseMembers(s, q, depth) == Failed))
    {
      hide JsonReader.ParseMember, Skip;
    }

    static lemma MembersSoFar(s: seq<byte>, q: nat, depth: nat, members: seq<Member>, goal: Outcome<seq<Member>>)
      requires Terminated(s) && q < |s| && goal == After(members, ParseMembers(s, q, depth))
      ensures var m := JsonReader.ParseMember(s, q, depth);
              && (m == Failed ==> goal == Failed)
              && (m == Beyond ==> goal == Beyond)
              && (m.Done? ==>
                    var b := Skip(s, m.end);
                    && (s[b] == COMMA ==>
                          b + 1 < |s| && goal == After(members + [m.value], ParseMembers(s, b + 1, depth)))
                    && (s[b] == CLOSE_OBJECT ==> b + 1 < |s| && goal == Done(members + [m.value], b + 1))
                    && (s[b] != COMMA && s[b] != CLOSE_OBJECT ==> goal == Failed))
    {
      hide JsonReader.ParseMember, Skip, ParseMembers;
      MembersTurn(s, q, depth);
      var m := JsonReader.ParseMember(s, q, depth);
      if m.Done? && s[Skip(s, m.end)] == COMMA {
        AfterCons(members, m.value, ParseMembers(s, Skip(s, m.end) + 1, depth));
      }
    }

    /** The part of the loop of parse_object that reads one member. */
    method ParseMember() returns (r: Outcome<Member>)
      requires Terminated(content) && offset < |content|
      modifies `offset, `depth
      ensures r == JsonReader.ParseMember(content, old(offset), old(depth))
      ensures r.Done? ==> offset == r.end && depth == old(depth)
      decreases |content| - offset, 2
    {
      hide JsonReader.ParseValue, JsonReader.ParseString, Skip;
      SkipWhitespace();
      var key := ParseString();
      if !key.Done? {
        return Failed;
      }
      SkipWhitespace();
      if content[offset] != COLON {
        return Failed;
      }
      offset := offset + 1;
      SkipWhitespace();
      var v := ParseValue();
      match v
      case Failed => r := Failed;
      case Beyond => r := Beyond;
      case Done(value, end) => r := Done(Member(key.value, value), end);
    }

    /** parse_object. */
    method ParseObject() returns (r: Outcome<Json>)
      requires Terminated(content) && offset < |content| && content[offset] == OPEN_OBJECT
      modifies `offset, `depth
      ensures r == JsonReader.ParseObject(content, old(offset), old(depth))
      ensures r.Done? ==> offset == r.end && depth == old(depth)
      decreases |content| - offset, 0
    {
      hide JsonReader.ParseMember, ParseMembers, Skip, After;
      if depth >= CJSON_NESTING_LIMIT {
        return Failed;
      }
      depth := depth + 1;
      offset := offset + 1;
      SkipWhitespace();
      ghost var goal := ParseMembers(content, offset, depth);
      var members: seq<Member> := [];
      if content[offset] != CLOSE_OBJECT {
        offset := offset - 1;
        AfterNothing(goal);
        var more := true;
        while more
          invariant old(offset) <= offset && depth == old(depth) + 1
          invariant more ==> offset + 1 < |content| && goal == After(members, ParseMembers(content, offset + 1, depth))
          invariant !more ==> offset < |content| && content[offset] != COMMA
          invariant !more && content[offset] == CLOSE_OBJECT ==>
                      goal == Done(members, offset + 1) && offset + 1 < |content|
          invariant !more && content[offset] != CLOSE_OBJECT ==> goal == Failed
          decreases |content| - offset, more
        {
          offset := offset + 1;
          MembersSoFar(content, offset, depth, members, goal);
          var m := ParseMember();
          if m.Failed? {
            return Failed;
          }
          if m.Beyond? {
            return Beyond;
          }
          SkipWhitespace();
          more := content[offset] == COMMA;
          members := members + [m.value];
        }
        if content[offset] != CLOSE_OBJECT {
          return Failed;
        }
      }
      depth := depth - 1;
      offset := offset + 1;
      r := Done(Obj(members), offset);
    }
  }

  /** cJSON_ParseWithOpts. */
  method Parse(text: seq<byte>, requireTerminated: bool) returns (r: Outcome<Json>)
    ensures r == JsonReader.Parse(text, requireTerminated)
  {
    hide JsonReader.ParseValue, Skip;
    var b := new ParseBuffer(text);
    b.offset := SkipBom(b.content);
    b.SkipWhitespace();
    r := b.ParseValue();
    if r.Done? && requireTerminated {
      b.SkipWhitespace();
      r := if b.content[b.offset] != 0 then Failed else Done(r.value, b.offset);
    }
  }
}
