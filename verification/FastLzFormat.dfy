/**
 The FastLZ stream format: the tokens a stream consists of, their bytes, and the decoder
 written as a function of the whole stream.  Both levels are covered: `level` plays the part
 of FASTLZ_LEVEL, under which fastlz.c includes itself twice.
 */
module FastLzFormat {
  import opened Basics
  import opened LzCopy

  type Level = l: int | l == 1 || l == 2 witness 1

  const MAX_COPY := 32
  const MAX_LEN := 264
  const NEAR2 := 8191  // MAX_DISTANCE at level 2
  const MAX_FARDISTANCE := 65535 + NEAR2 - 1

  function MaxDistance(level: Level): int {
    if level == 1 then 8192 else MAX_FARDISTANCE
  }

  /** A literal run, or a copy of `len` bytes from `dist` bytes back. */
  datatype Token = Literals(run: seq<byte>) | Match(len: nat, dist: nat)

  // ---------- what a token list means ----------

  ghost predicate Fits(level: Level, t: Token, produced: nat) {
    match t
    case Literals(run) => 1 <= |run| <= MAX_COPY
    case Match(len, dist) =>
      && 3 <= len && 1 <= dist <= produced && dist < MaxDistance(level)
      && (level == 1 ==> len <= MAX_LEN)
  }

  ghost function Apply(out: seq<byte>, t: Token): seq<byte> {
    match t
    case Literals(run) => out + run
    case Match(len, dist) => if 1 <= dist <= |out| then CopyFrom(out, dist, len) else out
  }

  ghost function Expand(toks: seq<Token>): seq<byte> {
    if toks == [] then [] else Apply(Expand(toks[..|toks| - 1]), toks[|toks| - 1])
  }

  ghost predicate WellFormed(level: Level, toks: seq<Token>) {
    toks == [] ||
    var init := toks[..|toks| - 1];
    WellFormed(level, init) && Fits(level, toks[|toks| - 1], |Expand(init)|)
  }

  // ---------- the bytes of a token ----------

  /** Level 2 writes a long length as 255s followed by a smaller byte. */
  function LongLength(n: nat): (r: seq<byte>)
    ensures |r| == 1 + n / 255
  {
    if n >= 255 then [255] + LongLength(n - 255) else [n]
  }

  /** The bytes of a match whose biased length is `len` (1 stands for three bytes) and whose
      biased distance is `d` (0 stands for one byte back). */
  function MatchBytes(level: Level, len: nat, d: nat): (r: seq<byte>)
    requires 1 <= len && d + 1 < MaxDistance(level)
    requires level == 1 ==> len <= MAX_LEN - 2
    ensures |r| >= 2
  {
    if level == 1 then
      if len < 7 then [len * 32 + d / 256, d % 256] else [7 * 32 + d / 256, len - 7, d % 256]
    else if d < NEAR2 then
      if len < 7 then [len * 32 + d / 256, d % 256]
      else [7 * 32 + d / 256] + LongLength(len - 7) + [d % 256]
    else
      var far := d - NEAR2;
      if len < 7 then [len * 32 + 31, 255, far / 256, far % 256]
      else [7 * 32 + 31] + LongLength(len - 7) + [255, far / 256, far % 256]
  }

  ghost function TokenBytes(level: Level, t: Token, produced: nat): seq<byte>
    requires Fits(level, t, produced)
  {
    match t
    case Literals(run) => [|run| - 1] + run
    case Match(len, dist) => MatchBytes(level, len - 2, dist - 1)
  }

  ghost function Encode(level: Level, toks: seq<Token>): seq<byte>
    requires WellFormed(level, toks)
  {
    if toks == [] then [] else
    var init := toks[..|toks| - 1];
    Encode(level, init) + TokenBytes(level, toks[|toks| - 1], |Expand(init)|)
  }

  // ---------- the decoder as a function ----------

  /** `Rejected` is the source's return value 0.  `Overread` stands for a malformed stream that
      ends inside a match: there the source would read past its input, the model stops. */
  datatype Outcome = Done(out: seq<byte>) | Rejected | Overread

  /** The sum of a run of length bytes and the number of bytes it takes. */
  function ReadLong(rest: seq<byte>): (r: Option<(nat, nat)>)
    ensures r.Some? ==> 1 <= r.value.1 <= |rest|
  {
    if rest == [] then None
    else if rest[0] == 255 then
      match ReadLong(rest[1..])
      case None => None
      case Some((n, k)) => Some((255 + n, k + 1))
    else Some((rest[0], 1))
  }

  datatype Head = Head(len: nat, dist: nat, size: nat)

  /** Length, distance and byte count of the match that `ctrl` opens. */
  function ReadMatch(level: Level, ctrl: byte, rest: seq<byte>): (h: Option<Head>)
    requires ctrl >= 32
    ensures h.Some? ==> 1 <= h.value.size <= |rest| && h.value.dist >= 1 && h.value.len >= 3
  {
    var len := ctrl / 32 - 1;
    var ofs := ctrl % 32 * 256;
    var ext: Option<(nat, nat)> := if len == 6 then
                 if level == 1 then (if rest == [] then None else Some((rest[0], 1)))
                 else ReadLong(rest)
               else Some((0, 0));
    match ext
    case None => None
    case Some((more, k)) =>
      if k >= |rest| then None
      else if level == 2 && rest[k] == 255 && ofs == 31 * 256 then
        if k + 2 >= |rest| then None
        else Some(Head(len + more + 3, rest[k + 1] * 256 + rest[k + 2] + NEAR2 + 1, k + 3))
      else Some(Head(len + more + 3, ofs + rest[k] + 1, k + 1))
  }

  function Run(level: Level, ctrl: byte, rest: seq<byte>, out: seq<byte>, maxout: nat): Outcome
    decreases |rest|
  {
    if ctrl >= 32 then
      match ReadMatch(level, ctrl, rest)
      case None => Overread
      case Some(Head(len, dist, size)) =>
        if |out| + len > maxout || dist > |out| then Rejected
        else Next(level, rest[size..], CopyFrom(out, dist, len), maxout)
    else
      var n := ctrl + 1;
      if |out| + n > maxout || n > |rest| then Rejected
      else Next(level, rest[n..], out + rest[..n], maxout)
  }

  function Next(level: Level, rest: seq<byte>, out: seq<byte>, maxout: nat): Outcome
    decreases |rest|
  {
    if rest == [] then Done(out) else Run(level, rest[0], rest[1..], out, maxout)
  }

  /** The whole of fastlz_decompress: the top three bits of the first byte select the level. */
  function Decompress(s: seq<byte>, maxout: nat): Outcome
    requires s != []
  {
    var level := s[0] / 32 + 1;
    if level == 1 || level == 2 then Run(level, s[0] % 32, s[1..], [], maxout) else Rejected
  }

  // ---------- every well-formed token list decodes to what it means ----------

  lemma {:induction false} ReadLongUndoes(n: nat, tail: seq<byte>)
    ensures ReadLong(LongLength(n) + tail) == Some((n, |LongLength(n)|))
  {
    if n >= 255 {
      ReadLongUndoes(n - 255, tail);
      assert (LongLength(n) + tail)[1..] == LongLength(n - 255) + tail;
    }
  }

  lemma Split32(hi: nat, lo: nat)
    requires lo < 32
    ensures (hi * 32 + lo) / 32 == hi && (hi * 32 + lo) % 32 == lo
  {
  }

  lemma ReadMatch1(len: nat, d: nat, tail: seq<byte>)
    requires 1 <= len <= MAX_LEN - 2 && d + 1 < MaxDistance(1)
    ensures var b := MatchBytes(1, len, d);
            32 <= b[0] && ReadMatch(1, b[0], b[1..] + tail) == Some(Head(len + 2, d + 1, |b| - 1))
  {
    var b := MatchBytes(1, len, d);
    var rest := b[1..] + tail;
    Split32(if len < 7 then len else 7, d / 256);
    assert rest[0] == b[1];
    assert len >= 7 ==> rest[1] == b[2];
  }

  lemma ReadShort2(len: nat, d: nat, tail: seq<byte>)
    requires 1 <= len < 7 && d + 1 < MaxDistance(2)
    ensures var b := MatchBytes(2, len, d);
            32 <= b[0] && ReadMatch(2, b[0], b[1..] + tail) == Some(Head(len + 2, d + 1, |b| - 1))
  {
    var b := MatchBytes(2, len, d);
    var rest := b[1..] + tail;
    Split32(len, if d < NEAR2 then d / 256 else 31);
    assert rest[0] == b[1];
    assert d >= NEAR2 ==> rest[1] == b[2] && rest[2] == b[3];
  }

  lemma ReadLong2(len: nat, d: nat, tail: seq<byte>)
    requires 7 <= len && d + 1 < MaxDistance(2)
    ensures var b := MatchBytes(2, len, d);
            32 <= b[0] && ReadMatch(2, b[0], b[1..] + tail) == Some(Head(len + 2, d + 1, |b| - 1))
  {
    hide ReadLong, LongLength;
    var b := MatchBytes(2, len, d);
    var rest := b[1..] + tail;
    Split32(7, if d < NEAR2 then d / 256 else 31);
    var end := if d < NEAR2 then [d % 256] else [255, (d - NEAR2) / 256, (d - NEAR2) % 256];
    var l := LongLength(len - 7);
    ReadLongUndoes(len - 7, end + tail);
    assert b == [b[0]] + l + end;
    assert rest == l + (end + tail);
    assert forall i | 0 <= i < |end| :: rest[|l| + i] == end[i];
  }

  /** The decoder reads back exactly the length and distance the match was written with; in
      particular level 2's far escape (31, 255) is never a near distance. */
  lemma ReadMatchUndoes(level: Level, len: nat, d: nat, tail: seq<byte>)
    requires 1 <= len && d + 1 < MaxDistance(level)
    requires level == 1 ==> len <= MAX_LEN - 2
    ensures var b := MatchBytes(level, len, d);
            32 <= b[0] && ReadMatch(level, b[0], b[1..] + tail) == Some(Head(len + 2, d + 1, |b| - 1))
  {
    if level == 1 {
      ReadMatch1(len, d, tail);
    } else if len < 7 {
      ReadShort2(len, d, tail);
    } else {
      ReadLong2(len, d, tail);
    }
  }

  lemma LiteralsDecode(level: Level, run: seq<byte>, out: seq<byte>, tail: seq<byte>, maxout: nat)
    requires 1 <= |run| <= MAX_COPY && |out| + |run| <= maxout
    ensures Run(level, |run| - 1, run + tail, out, maxout) == Next(level, tail, out + run, maxout)
  {
    assert (run + tail)[..|run|] == run;
    assert (run + tail)[|run|..] == tail;
  }

  lemma MatchDecodes(level: Level, b: seq<byte>, h: Head, out: seq<byte>, tail: seq<byte>, maxout: nat)
    requires |b| == 1 + h.size && b[0] >= 32 && ReadMatch(level, b[0], b[1..] + tail) == Some(h)
    requires 1 <= h.dist <= |out| && |out| + h.len <= maxout
    ensures Next(level, b + tail, out, maxout) == Next(level, tail, CopyFrom(out, h.dist, h.len), maxout)
  {
    hide ReadMatch, CopyFrom;
    var s := b + tail;
    assert s[1..] == b[1..] + tail;
    assert s[1..][h.size..] == tail;
  }

  lemma TokenDecodes(level: Level, t: Token, out: seq<byte>, tail: seq<byte>, maxout: nat)
    requires Fits(level, t, |out|) && |Apply(out, t)| <= maxout
    ensures Next(level, TokenBytes(level, t, |out|) + tail, out, maxout)
         == Next(level, tail, Apply(out, t), maxout)
  {
    hide Run, ReadMatch, CopyFrom, MatchBytes, LongLength;
    var b := TokenBytes(level, t, |out|);
    if t.Literals? {
      var s := b + tail;
      assert s[1..] == t.run + tail;
      LiteralsDecode(level, t.run, out, tail, maxout);
    } else {
      ReadMatchUndoes(level, t.len - 2, t.dist - 1, tail);
      MatchDecodes(level, b, Head(t.len, t.dist, |b| - 1), out, tail, maxout);
    }
  }

  lemma {:induction false} ExpandGrows(toks: seq<Token>, k: nat)
    requires k <= |toks|
    ensures |Expand(toks[..k])| <= |Expand(toks)|
  {
    if k < |toks| {
      var init := toks[..|toks| - 1];
      assert init[..k] == toks[..k];
      ExpandGrows(init, k);
    } else {
      assert toks[..k] == toks;
    }
  }

  lemma {:induction false} EncodingDecodes(level: Level, toks: seq<Token>, tail: seq<byte>, maxout: nat)
    requires WellFormed(level, toks) && |Expand(toks)| <= maxout
    ensures Next(level, Encode(level, toks) + tail, [], maxout) == Next(level, tail, Expand(toks), maxout)
  {
    if toks == [] {
      assert Encode(level, toks) + tail == tail;
    } else {
      var n := |toks| - 1;
      var init, t := toks[..n], toks[n];
      ExpandGrows(toks, n);
      var b := TokenBytes(level, t, |Expand(init)|);
      EncodingDecodes(level, init, b + tail, maxout);
      assert Encode(level, toks) + tail == Encode(level, init) + (b + tail);
      TokenDecodes(level, t, Expand(init), tail, maxout);
    }
  }

  /** Decompress selects the level from the top bits and then reads the tokens. */
  lemma TaggedDecodes(tag: Level, e: seq<byte>, maxout: nat)
    requires e != [] && e[0] < 32
    ensures Decompress(e[0 := e[0] + (tag - 1) * 32], maxout) == Next(tag, e, [], maxout)
  {
    Split32(tag - 1, e[0]);
    assert e[0 := e[0] + (tag - 1) * 32][1..] == e[1..];
  }

  /** A stream that starts with a literal run carries its level in the top bits of its first
      byte and decodes, through the level dispatch, to what its tokens mean. */
  lemma StreamDecodes(level: Level, toks: seq<Token>, maxout: nat)
    requires WellFormed(level, toks) && toks != [] && toks[0].Literals?
    requires |Expand(toks)| <= maxout
    ensures var e := Encode(level, toks);
            e != [] && e[0] < 32 &&
            Decompress(e[0 := e[0] + (level - 1) * 32], maxout) == Done(Expand(toks))
  {
    FirstByte(level, toks);
    var e := Encode(level, toks);
    TaggedDecodes(level, e, maxout);
    EncodingDecodes(level, toks, [], maxout);
    assert e + [] == e;
  }

  /** One untagged literal run: what either level makes of an input of one to three bytes. */
  lemma ShortStreamDecodes(run: seq<byte>, maxout: nat)
    requires 1 <= |run| <= MAX_COPY && |run| <= maxout
    ensures Decompress([|run| - 1] + run, maxout) == Done(run)
  {
    var e: seq<byte> := [|run| - 1] + run;
    TaggedDecodes(1, e, maxout);
    assert e[0 := e[0] + 0] == e;
    assert e[1..] == run + [];
    LiteralsDecode(1, run, [], [], maxout);
    assert [] + run == run;
  }

  lemma {:induction false} FirstByte(level: Level, toks: seq<Token>)
    requires WellFormed(level, toks) && toks != [] && toks[0].Literals?
    ensures var e := Encode(level, toks); e != [] && e[0] < 32
  {
    var init := toks[..|toks| - 1];
    if init != [] {
      FirstByte(level, init);
    }
  }

  /** Adding one token at the end of a list. */
  lemma Snoc(level: Level, toks: seq<Token>, t: Token)
    requires WellFormed(level, toks) && Fits(level, t, |Expand(toks)|)
    ensures var all := toks + [t];
            WellFormed(level, all) && Expand(all) == Apply(Expand(toks), t) &&
            Encode(level, all) == Encode(level, toks) + TokenBytes(level, t, |Expand(toks)|)
  {
    assert (toks + [t])[..|toks|] == toks;
  }
}
