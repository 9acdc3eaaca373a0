/** print_value and its helpers, in place on a print buffer that grows or is given by the caller. */
module JsonPrinter {
  import opened Basics
  import opened Json

  class PrintBuffer {
    var buffer: array<byte>
    var offset: nat
    var depth: nat
    const noalloc: bool
    const format: bool

    /** cJSON_Print allocates its buffer; cJSON_PrintPreallocated works in the caller's. */
    constructor (buffer: array<byte>, noalloc: bool, format: bool)
      requires buffer.Length <= INT_MAX
      ensures Valid() && this.buffer == buffer && offset == 0 && depth == 0
      ensures this.noalloc == noalloc && this.format == format
    {
      this.buffer, this.offset, this.depth, this.noalloc, this.format := buffer, 0, 0, noalloc, format;
    }

    ghost predicate Valid()
      reads this
    {
      buffer.Length <= INT_MAX && (offset < buffer.Length || (offset == 0 && buffer.Length == 0))
    }

    /** The largest size `ensure` can provide. */
    ghost function Limit(): nat
      reads this
    {
      if noalloc then buffer.Length else INT_MAX
    }

    ghost function Written(): seq<byte>
      reads this, buffer
      requires Valid()
    {
      buffer[..offset]
    }

    /** The text stands in the buffer behind what was written before, and a terminator behind it; the
        offset is at its start or already further, as update_offset expects. */
    ghost predicate Printed(before: seq<byte>, text: seq<byte>)
      reads this, buffer
    {
      var end := |before| + |text|;
      |before| <= offset <= end < buffer.Length && buffer[..end] == before + text && buffer[end] == 0
    }

    /** ensure: room for `needed` bytes behind the offset and one more, in a larger buffer if need be. */
    method Ensure(needed: nat) returns (ok: bool)
      requires Valid()
      modifies `buffer
      ensures Valid() && Limit() == old(Limit()) && Written() == old(Written())
      ensures ok <==> offset + needed + 1 <= Limit()
      ensures ok ==> offset + needed + 1 <= buffer.Length
      ensures buffer == old(buffer) || (!noalloc && fresh(buffer))
    {
      if buffer.Length > 0 && offset >= buffer.Length {
        assert false;
        return false;
      }
      if needed > INT_MAX {
        return false;
      }
      var total := needed + offset + 1;
      if total <= buffer.Length {
        return true;
      }
      if noalloc {
        return false;
      }
      var newSize;
      if total > INT_MAX / 2 {
        if total <= INT_MAX {
          newSize := INT_MAX;
        } else {
          return false;
        }
      } else {
        newSize := total * 2;
      }
      var grown := new byte[newSize](_ => 0);
      forall i | 0 <= i < buffer.Length {
        grown[i] := buffer[i];
      }
      buffer := grown;
      ok := true;
    }

    /** Stores bytes at the offset, which stays. */
    method Copy(text: seq<byte>)
      requires Valid() && offset + |text| <= buffer.Length
      modifies buffer
      ensures buffer[..offset + |text|] == old(Written()) + text
    {
      var i := 0;
      while i < |text|
        invariant i <= |text| && buffer[..offset + i] == old(Written()) + text[..i]
      {
        buffer[offset + i] := text[i];
        i := i + 1;
      }
    }

    /** update_offset: over the bytes up to the terminator. */
    method UpdateOffset(ghost before: seq<byte>, ghost text: seq<byte>)
      requires Printed(before, text) && 0 !in text && buffer.Length <= INT_MAX
      modifies `offset
      ensures Valid() && Written() == before + text
    {
      ghost var end := |before| + |text|;
      assert forall k | |before| <= k < end :: buffer[k] == text[k - |before|] by {
        assert forall k | |before| <= k < end :: buffer[..end][k] == text[k - |before|];
      }
      while buffer[offset] != 0
        invariant |before| <= offset <= end
        decreases end - offset
      {
        offset := offset + 1;
      }
    }

    /** null, false and true. */
    method PrintLiteral(text: seq<byte>) returns (ok: bool)
      requires Valid()
      modifies this, buffer
      ensures Valid() && Limit() == old(Limit()) && depth == old(depth)
      ensures buffer == old(buffer) || (!noalloc && fresh(buffer))
      ensures ok <==> old(offset) + |text| + 2 <= Limit()
      ensures ok ==> offset == old(offset) && Printed(old(Written()), text)
    {
      ok := Ensure(|text| + 1);
      if ok {
        Copy(text + [0]);
        assert buffer[..offset + |text|] == (old(Written()) + (text + [0]))[..offset + |text|];
        assert buffer[offset + |text|] == buffer[..offset + |text| + 1][offset + |text|];
      }
    }

    /** print_number: the number's text comes from sprintf. */
    method PrintNumber(n: int) returns (ok: bool)
      requires Valid()
      modifies this, buffer
      ensures Valid() && Limit() == old(Limit()) && depth == old(depth)
      ensures buffer == old(buffer) || (!noalloc && fresh(buffer))
      ensures ok <==> old(offset) + |Number(n)| + 2 <= Limit()
      ensures ok ==> Printed(old(Written()), Number(n))
    {
      ok := PrintLiteral(Number(n));
      if ok {
        offset := offset + |Number(n)|;
      }
    }

    /** One character of a string, at `at`; a \\u sequence is written with sprintf's terminator. */
    method PutCharacter(b: byte, at: nat)
      requires at + |Escape(b)| < buffer.Length
      modifies buffer
      ensures buffer[..at + |Escape(b)|] == old(buffer[..at]) + Escape(b)
    {
      if b > 31 && b != QUOTE && b != BACKSLASH {
        buffer[at] := b;
      } else {
        buffer[at] := BACKSLASH;
        if ShortEscape(b) {
          buffer[at + 1] := EscapeLetter(b);
        } else {
          buffer[at + 1], buffer[at + 2], buffer[at + 3] := 117, 48, 48;
          buffer[at + 4], buffer[at + 5], buffer[at + 6] := HexDigit(b / 16), HexDigit(b % 16), 0;
        }
      }
    }

    /** How many characters escaping adds. */
    static method CountEscapes(s: seq<byte>) returns (extra: nat)
      ensures |s| + extra == |Escaped(s)|
      ensures extra == 0 ==> Escaped(s) == s
    {
      hide Escape;
      extra := 0;
      var i := 0;
      assert s[0..] == s;
      while i < |s|
        invariant i <= |s| && |s| + extra + |Escaped(s[i..])| == |Escaped(s)| + (|s| - i)
        invariant extra == 0 ==> Escaped(s) == s[..i] + Escaped(s[i..])
      {
        ghost var b, rest := s[i], s[i + 1..];
        assert s[i..][1..] == rest;
        PlainCharacter(b);
        Regroup(s[..i], [b], Escaped(rest));
        assert s[..i + 1] == s[..i] + [b];
        if ShortEscape(s[i]) {
          extra := extra + 1;
        } else if s[i] < 32 {
          extra := extra + 5;
        }
        i := i + 1;
      }
    }

    static lemma PlainCharacter(b: byte)
      ensures !ShortEscape(b) && b >= 32 ==> Escape(b) == [b]
    {
    }

    /** print_string_ptr: first the exact length, then the characters. */
    method PrintString(s: seq<byte>) returns (ok: bool)
      requires Valid()
      modifies this, buffer
      ensures Valid() && Limit() == old(Limit()) && depth == old(depth)
      ensures buffer == old(buffer) || (!noalloc && fresh(buffer))
      ensures ok <==> old(offset) + |Quoted(s)| + 2 <= Limit()
      ensures ok ==> Printed(old(Written()), Quoted(s))
    {
      hide Escaped;
      var extra := CountEscapes(s);
      var length := |s| + extra;
      ok := Ensure(length + 3);
      if ok {
        PutString(s, extra);
      }
    }

    method PutString(s: seq<byte>, extra: nat)
      requires Valid() && offset + |Quoted(s)| + 2 <= buffer.Length
      requires |s| + extra == |Escaped(s)| && (extra == 0 ==> Escaped(s) == s)
      modifies buffer
      ensures Printed(old(Written()), Quoted(s))
    {
      hide Escaped;
      ghost var before := Written();
      buffer[offset] := QUOTE;
      var at := offset + 1;
      ghost var quote := buffer[..at];
      assert quote == before + [QUOTE];
      if extra == 0 {
        PutPlain(s, at);
        at := at + |s|;
      } else {
        at := PutEscaped(s, at);
      }
      ghost var inside := buffer[..at];
      buffer[at] := QUOTE;
      buffer[at + 1] := 0;
      assert buffer[..at + 1] == inside + [QUOTE];
      Regroup(before, [QUOTE], Escaped(s));
      Regroup(before, [QUOTE] + Escaped(s), [QUOTE]);
    }

    /** The memcpy of a string without escapes. */
    method PutPlain(s: seq<byte>, at: nat)
      requires at + |s| <= buffer.Length
      modifies buffer
      ensures buffer[..at + |s|] == old(buffer[..at]) + s
    {
      var i := 0;
      while i < |s|
        invariant i <= |s| && buffer[..at + i] == old(buffer[..at]) + s[..i]
      {
        buffer[at + i] := s[i];
        i := i + 1;
      }
    }

    method PutEscaped(s: seq<byte>, at0: nat) returns (at: nat)
      requires at0 + |Escaped(s)| < buffer.Length
      modifies buffer
      ensures at == at0 + |Escaped(s)| && buffer[..at] == old(buffer[..at0]) + Escaped(s)
    {
      hide Escape;
      at := at0;
      var i := 0;
      assert s[0..] == s;
      while i < |s|
        invariant i <= |s| && at + |Escaped(s[i..])| == at0 + |Escaped(s)|
        invariant buffer[..at] + Escaped(s[i..]) == old(buffer[..at0]) + Escaped(s)
      {
        ghost var done := buffer[..at];
        assert s[i..][1..] == s[i + 1..];
        PutCharacter(s[i], at);
        Regroup(done, Escape(s[i]), Escaped(s[i + 1..]));
        at := at + |Escape(s[i])|;
        i := i + 1;
      }
    }
  
    /** A piece of text the offset moves past. */
    method Emit(piece: seq<byte>, needed: nat, terminate: bool) returns (ok: bool)
      requires Valid() && |piece| + (if terminate then 1 else 0) <= needed
      modifies this, buffer
      ensures Valid() && Limit() == old(Limit()) && depth == old(depth)
      ensures buffer == old(buffer) || (!noalloc && fresh(buffer))
      ensures ok <==> old(offset) + needed + 1 <= Limit()
      ensures ok ==> Written() == old(Written()) + piece
    {
      ok := Ensure(needed);
      if ok {
        Copy(piece);
        if terminate {
          buffer[offset + |piece|] := 0;
        }
        offset := offset + |piece|;
      }
    }

    /** print_value: with room for two bytes more than the text it succeeds, otherwise it fails. */
    method PrintValue(v: Json) returns (ok: bool)
      requires Valid() && Printable(v)
      modifies this, buffer
      ensures Valid() && Limit() == old(Limit()) && (buffer == old(buffer) || (!noalloc && fresh(buffer)))
      ensures ok <==> old(offset) + |Text(v, old(depth), format)| + 2 <= Limit()
      ensures ok ==> depth == old(depth) && Printed(old(Written()), Text(v, depth, format))
      decreases v, 0
    {
      hide Escaped, Digits, ItemsText, MembersText;
      match v
      case Null => ok := PrintLiteral(NULL_TEXT);
      case False => ok := PrintLiteral(FALSE_TEXT);
      case True => ok := PrintLiteral(TRUE_TEXT);
      case Num(n) => ok := PrintNumber(n);
      case Str(s) => ok := PrintString(s);
      case Arr(items) => ok := PrintArray(items);
      case Obj(members) => ok := PrintObject(members);
    }

    /** print_value and then update_offset. */
    method PrintElement(v: Json) returns (ok: bool)
      requires Valid() && Printable(v)
      modifies this, buffer
      ensures Valid() && Limit() == old(Limit()) && (buffer == old(buffer) || (!noalloc && fresh(buffer)))
      ensures ok ==> depth == old(depth) && Written() == old(Written()) + Text(v, depth, format)
      ensures !ok ==> old(offset) + |Text(v, old(depth), format)| + 2 > Limit()
      decreases v, 1
    {
      hide Text, Printable;
      ghost var before, text := Written(), Text(v, depth, format);
      ok := PrintValue(v);
      if ok {
        TextHasNoNul(v, depth, format);
        UpdateOffset(before, text);
      }
    }

    method PrintArray(items: seq<Json>) returns (ok: bool)
      requires Valid() && forall i | 0 <= i < |items| :: Printable(items[i])
      modifies this, buffer
      ensures Valid() && Limit() == old(Limit()) && (buffer == old(buffer) || (!noalloc && fresh(buffer)))
      ensures ok <==> old(offset) + |ItemsText(items, old(depth) + 1, format)| + 4 <= Limit()
      ensures ok ==> depth == old(depth)
      ensures ok ==> Printed(old(Written()), [OPEN_ARRAY] + ItemsText(items, depth + 1, format) + [CLOSE_ARRAY])
      decreases items, 1
    {
      hide Printable, ItemsText;
      ghost var before, all := Written(), ItemsText(items, depth + 1, format);
      ok := Emit([OPEN_ARRAY], 1, false);
      if !ok {
        return;
      }
      depth := depth + 1;
      ok := PrintItems(items);
      if !ok {
        return;
      }
      Regroup(before, [OPEN_ARRAY], all);
      ok := Close([CLOSE_ARRAY], before, [OPEN_ARRAY] + all);
    }

    /** The loop of print_array. */
    method PrintItems(items: seq<Json>) returns (ok: bool)
      requires Valid() && forall i | 0 <= i < |items| :: Printable(items[i])
      modifies this, buffer
      ensures Valid() && Limit() == old(Limit()) && (buffer == old(buffer) || (!noalloc && fresh(buffer)))
      ensures ok ==> depth == old(depth) && Written() == old(Written()) + ItemsText(items, depth, format)
      ensures !ok ==> old(offset) + |ItemsText(items, old(depth), format)| + 2 > Limit()
      decreases items, 0
    {
      hide Printable, ItemsText;
      ghost var goal := Written() + ItemsText(items, depth, format);
      var i := 0;
      assert items[0..] == items;
      while i < |items|
        invariant i <= |items| && depth == old(depth)
        invariant Valid() && Limit() == old(Limit()) && (buffer == old(buffer) || (!noalloc && fresh(buffer)))
        invariant Written() + ItemsText(items[i..], depth, format) == goal
      {
        ghost var rest := ItemsText(items[i..], depth, format);
        assert |goal| == offset + |rest|;
        ok := PrintItem(items, i);
        if !ok {
          return;
        }
        i := i + 1;
      }
      ok := true;
      assert items[i..] == [];
      NoItems(depth, format);
    }

    static lemma NoItems(depth: nat, format: bool)
      ensures ItemsText([], depth, format) == [] && MembersText([], depth, format) == []
    {
    }

    static lemma FirstItem(items: seq<Json>, i: nat, depth: nat, format: bool)
      requires i < |items|
      ensures ItemsText(items[i..], depth, format)
              == Text(items[i], depth, format) + Comma(i + 1 < |items|, format)
                 + ItemsText(items[i + 1..], depth, format)
    {
      assert items[i..][1..] == items[i + 1..];
    }

    /** One element, and a comma if another one follows. */
    method PrintItem(items: seq<Json>, i: nat) returns (ok: bool)
      requires Valid() && i < |items| && Printable(items[i])
      modifies this, buffer
      ensures Valid() && Limit() == old(Limit()) && (buffer == old(buffer) || (!noalloc && fresh(buffer)))
      ensures ok ==> depth == old(depth)
      ensures ok ==> Written() + ItemsText(items[i + 1..], depth, format)
                     == old(Written()) + ItemsText(items[i..], depth, format)
      ensures !ok ==> old(offset) + |ItemsText(items[i..], old(depth), format)| + 2 > Limit()
      decreases items[i], 2
    {
      hide Text, Printable, ItemsText;
      FirstItem(items, i, depth, format);
      ghost var before, text := Written(), Text(items[i], depth, format);
      ghost var rest := ItemsText(items[i + 1..], depth, format);
      ok := PrintElement(items[i]);
      if !ok {
        return;
      }
      ghost var comma := Comma(i + 1 < |items|, format);
      if i + 1 < |items| {
        var length := if format then 2 else 1;
        ok := Emit(if format then [COMMA, SPACE] else [COMMA], length + 1, true);
        if !ok {
          return;
        }
      }
      assert Written() == before + text + comma;
      RegroupFour(before, text, comma, rest);
    }

    method PrintObject(members: seq<Member>) returns (ok: bool)
      requires Valid() && forall i | 0 <= i < |members| :: 0 !in members[i].key && Printable(members[i].value)
      modifies this, buffer
      ensures Valid() && Limit() == old(Limit()) && (buffer == old(buffer) || (!noalloc && fresh(buffer)))
      ensures ok <==> old(offset) + |Text(Obj(members), old(depth), format)| + 2 <= Limit()
      ensures ok ==> depth == old(depth) && Printed(old(Written()), Text(Obj(members), depth, format))
      decreases members, 1
    {
      hide Printable, MembersText, Text, Tabs;
      ghost var before, all := Written(), MembersText(members, depth + 1, format);
      ObjectText(members, depth, format);
      var first := if format then [OPEN_OBJECT, NEWLINE] else [OPEN_OBJECT];
      ok := Emit(first, |first| + 1, false);
      if !ok {
        return;
      }
      depth := depth + 1;
      ok := PrintMembers(members);
      if !ok {
        return;
      }
      var last := (if format then Tabs(depth - 1) else []) + [CLOSE_OBJECT];
      Regroup(before, first, all);
      ok := Close(last, before, first + all);
    }

    /** The closing text completes what was printed since `before`. */
    method Close(last: seq<byte>, ghost before: seq<byte>, ghost middle: seq<byte>) returns (ok: bool)
      requires Valid() && depth > 0 && Written() == before + middle
      modifies this, buffer
      ensures Valid() && Limit() == old(Limit()) && (buffer == old(buffer) || (!noalloc && fresh(buffer)))
      ensures ok <==> |before| + |middle + last| + 2 <= Limit()
      ensures ok ==> depth == old(depth) - 1 && Printed(before, middle + last)
    {
      ok := PrintLiteral(last);
      depth := depth - 1;
      Regroup(before, middle, last);
    }

    /** The loop of print_object. */
    method PrintMembers(members: seq<Member>) returns (ok: bool)
      requires Valid() && forall i | 0 <= i < |members| :: 0 !in members[i].key && Printable(members[i].value)
      modifies this, buffer
      ensures Valid() && Limit() == old(Limit()) && (buffer == old(buffer) || (!noalloc && fresh(buffer)))
      ensures ok ==> depth == old(depth) && Written() == old(Written()) + MembersText(members, depth, format)
      ensures !ok ==> old(offset) + |MembersText(members, old(depth), format)| + 2 > Limit()
      decreases members, 0
    {
      hide Printable, MembersText;
      ghost var goal := Written() + MembersText(members, depth, format);
      var i := 0;
      assert members[0..] == members;
      while i < |members|
        invariant i <= |members| && depth == old(depth)
        invariant Valid() && Limit() == old(Limit()) && (buffer == old(buffer) || (!noalloc && fresh(buffer)))
        invariant Written() + MembersText(members[i..], depth, format) == goal
      {
        ghost var rest := MembersText(members[i..], depth, format);
        assert |goal| == offset + |rest|;
        ok := PrintMember(members, i);
        if !ok {
          return;
        }
        i := i + 1;
      }
      ok := true;
      assert members[i..] == [];
      NoItems(depth, format);
    }

    static lemma ObjectText(members: seq<Member>, depth: nat, format: bool)
      ensures Text(Obj(members), depth, format)
              == (if format then [OPEN_OBJECT, NEWLINE] else [OPEN_OBJECT]) + MembersText(members, depth + 1, format)
                 + ((if format then Tabs(depth) else []) + [CLOSE_OBJECT])
    {
    }

    static lemma FirstMember(members: seq<Member>, i: nat, depth: nat, format: bool)
      requires i < |members|
      ensures MembersText(members[i..], depth, format)
              == KeyText(members[i].key, depth, format) + Text(members[i].value, depth, format)
                 + LineEnd(i + 1 < |members|, format) + MembersText(members[i + 1..], depth, format)
    {
      assert members[i..][1..] == members[i + 1..];
    }

    /** The indentation, the key and the colon. */
    method PrintKey(key: seq<byte>) returns (ok: bool)
      requires Valid() && 0 !in key
      modifies this, buffer
      ensures Valid() && Limit() == old(Limit()) && depth == old(depth)
      ensures buffer == old(buffer) || (!noalloc && fresh(buffer))
      ensures ok ==> Written() == old(Written()) + KeyText(key, depth, format)
      ensures !ok ==> old(offset) + |KeyText(key, depth, format)| + 2 > Limit()
    {
      hide Quoted;
      ghost var before, indent := Written(), if format then Tabs(depth) else [];
      if format {
        ok := Emit(Tabs(depth), depth, false);
        if !ok {
          return;
        }
      }
      assert Written() == before + indent;
      ok := PrintString(key);
      if !ok {
        return;
      }
      QuotedHasNoNul(key);
      UpdateOffset(before + indent, Quoted(key));
      var colon := if format then [COLON, TAB] else [COLON];
      ok := Emit(colon, |colon|, false);
      Regroup(before, indent, Quoted(key));
      Regroup(before, indent + Quoted(key), colon);
    }

    static lemma QuotedHasNoNul(s: seq<byte>)
      requires 0 !in s
      ensures 0 !in Quoted(s)
    {
      EscapedHasNoNul(s);
    }

    /** One member on its line. */
    method PrintMember(members: seq<Member>, i: nat) returns (ok: bool)
      requires Valid() && i < |members| && 0 !in members[i].key && Printable(members[i].value)
      modifies this, buffer
      ensures Valid() && Limit() == old(Limit()) && (buffer == old(buffer) || (!noalloc && fresh(buffer)))
      ensures ok ==> depth == old(depth)
      ensures ok ==> Written() + MembersText(members[i + 1..], depth, format)
                     == old(Written()) + MembersText(members[i..], depth, format)
      ensures !ok ==> old(offset) + |MembersText(members[i..], old(depth), format)| + 2 > Limit()
      decreases members[i].value, 2
    {
      hide Text, Printable, MembersText, KeyText;
      FirstMember(members, i, depth, format);
      ghost var before, rest := Written(), MembersText(members[i + 1..], depth, format);
      ghost var key, text := KeyText(members[i].key, depth, format), Text(members[i].value, depth, format);
      ok := PrintKey(members[i].key);
      if !ok {
        return;
      }
      ok := PrintElement(members[i].value);
      if !ok {
        return;
      }
      var end := LineEnd(i + 1 < |members|, format);
      ok := Emit(end, |end| + 1, true);
      RegroupFour(before, key, text, end);
      Regroup(before, key + text + end, rest);
    }
  }

  /** cJSON_Print and cJSON_PrintUnformatted: the text and its terminator. */
  method Print(v: Json, format: bool) returns (ok: bool, printed: array<byte>)
    requires Printable(v)
    ensures ok <==> |Text(v, 0, format)| + 2 <= INT_MAX
    ensures ok ==> printed[..] == Text(v, 0, format) + [0]
  {
    hide Text, Printable;
    printed := new byte[256](_ => 0);
    var p := new PrintBuffer(printed, false, format);
    assert p.Written() == [];
    ok := p.PrintValue(v);
    if ok {
      ghost var text := Text(v, 0, format);
      TextHasNoNul(v, 0, format);
      Terminated(p.buffer[..], text);
      p.UpdateOffset([], text);
      printed := new byte[p.offset + 1](i requires 0 <= i < p.buffer.Length reads p, p.buffer => p.buffer[i]);
      assert printed[..] == p.buffer[..p.offset + 1];
    }
  }

  lemma Terminated(buffer: seq<byte>, text: seq<byte>)
    requires |text| < |buffer| && buffer[..|text|] == text && buffer[|text|] == 0
    ensures buffer[..|text| + 1] == text + [0]
  {
  }

  /** cJSON_PrintPreallocated succeeds exactly when two bytes more than the text are there: one for
      the terminator and one that `ensure` always asks for. */
  method PrintPreallocated(v: Json, buffer: array<byte>, format: bool) returns (ok: bool)
    requires Printable(v) && buffer.Length <= INT_MAX
    modifies buffer
    ensures ok <==> |Text(v, 0, format)| + 2 <= buffer.Length
    ensures ok ==> buffer[..|Text(v, 0, format)| + 1] == Text(v, 0, format) + [0]
  {
    hide Text, Printable;
    var p := new PrintBuffer(buffer, true, format);
    assert p.Written() == [];
    ok := p.PrintValue(v);
    if ok {
      Terminated(buffer[..], Text(v, 0, format));
    }
  }
}
