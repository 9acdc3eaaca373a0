/** qlz_decompress at level 3, as a function of the packet, and why it undoes every token stream. */
module QlzDecoder {
  import opened Basics
  import opened LzCopy
  import opened QlzFormat

  /** `Rejected` is the return value 0 of the memory-safe checks.  `Overrun` stands for a malformed
      packet on which a check passes although the match ends beyond the destination. */
  datatype Outcome = Done(out: seq<byte>) | Rejected | Overrun

  /** How many literals the four lowest flags announce; bitlut[16]. */
  const BITLUT: seq<nat> := [4, 0, 1, 0, 2, 0, 1, 0, 3, 0, 1, 0, 2, 0, 1, 0]

  /** The literals announced when the next token is one. */
  function Announced(cw: nat): (n: nat)
    requires cw % 2 == 0
    ensures 1 <= n <= 4 && n == BITLUT[cw % 16]
  {
    EvenLow(cw);
    BITLUT[cw % 16]
  }

  lemma EvenLow(cw: nat)
    requires cw % 2 == 0
    ensures cw % 16 % 2 == 0
  {
    assert cw == 16 * (cw / 16) + cw % 16;
  }

  /** The end of the decompressor: everything left is literals. */
  function Fill(size: nat, rest: seq<byte>, cw: nat, out: seq<byte>): Outcome
    decreases size - |out|
  {
    if |out| >= size then Done(out)
    else
      var r := if cw != 1 then rest else if |rest| >= CWORD_LEN then rest[CWORD_LEN..] else [];
      var w := if cw == 1 then TOP else cw;
      if r == [] then Rejected else Fill(size, r[1..], w / 2, out + [r[0]])
  }

  /** One turn of the decompressor's loop: a new control word if the old one is used up. */
  function Turn(size: nat, rest: seq<byte>, cw: nat, out: seq<byte>): Outcome
    decreases |rest|, 1
  {
    if cw != 1 then Step(size, rest, cw, out)
    else if |rest| < CWORD_LEN then Rejected
    else Step(size, rest[CWORD_LEN..], Word(rest, CWORD_LEN), out)
  }

  function Step(size: nat, rest: seq<byte>, cw: nat, out: seq<byte>): Outcome
    decreases |rest|, 0
  {
    if |rest| < 4 then Rejected
    else if cw % 2 == 1 then
      var m := ReadMatch(Word(rest, 4));
      if m.off > |out| || m.off <= MINOFFSET then Rejected
      else if m.len > (size - |out| - UNCOMPRESSED_END) % UI32 then Rejected
      else if |out| + m.len > size then Overrun
      else Turn(size, rest[m.size..], cw / 2, CopyFrom(out, m.off, m.len))
    else if |out| + MATCH_MARGIN < size then
      var n := Announced(cw);
      Turn(size, rest[n..], cw / Pow2(n), out + rest[..n])
    else Fill(size, rest, cw, out)
  }

  // ---------- flags ----------

  /** The lowest flag is the next token's; shifting it out leaves the flags of the rest. */
  lemma FlagStep(ts: seq<Token>, j: nat)
    requires j < 31 && ts != []
    ensures Flags(ts, j) % 2 == (if ts[0].Copy? then 1 else 0)
    ensures Flags(ts, j) / 2 == Flags(ts[1..], j + 1)
    ensures Flags(ts, j) != 1
  {
    var f := Flags(ts[1..], j + 1);
    DivMod(f, if ts[0].Copy? then 1 else 0, 2);
  }

  /** The lookup of the four lowest flags counts literals that are really there. */
  lemma LiteralRun(ts: seq<Token>, j: nat, pos: nat, size: nat) returns (n: nat)
    requires j < 31 && Valid(ts, pos, size) && pos + MATCH_MARGIN < size && ts[0].Lit?
    ensures 1 <= n <= 4 && n <= |ts| && j + n <= 31
    ensures BITLUT[Flags(ts, j) % 16] == n && Flags(ts, j) / Pow2(n) == Flags(ts[n..], j + n)
    ensures (forall i | 0 <= i < n :: ts[i].Lit?) && Valid(ts[n..], pos + n, size)
  {
    hide Flags;
    var f := Flags(ts, j);
    FlagStep(ts, j);
    n := 1;
    assert ts[1..] == ts[n..] && ts[1..] != [];
    while n < 4 && j + n < 31 && ts[n].Lit?
      invariant 1 <= n <= 4 && n < |ts| && j + n <= 31
      invariant f % Pow2(n) == 0 && f / Pow2(n) == Flags(ts[n..], j + n)
      invariant (forall i | 0 <= i < n :: ts[i].Lit?) && Valid(ts[n..], pos + n, size)
    {
      FlagStep(ts[n..], j + n);
      assert ts[n..][1..] == ts[n + 1..];
      Halve(f, n);
      n := n + 1;
    }
    if n < 4 {
      OddAbove(f, ts[n..], j + n);
    }
    Lookup(f, n);
  }

  lemma Halve(f: nat, n: nat)
    requires n <= 3 && f % Pow2(n) == 0 && f / Pow2(n) % 2 == 0
    ensures f % Pow2(n + 1) == 0 && f / Pow2(n + 1) == f / Pow2(n) / 2
  {
    var q := f / Pow2(n) / 2;
    assert f == q * Pow2(n + 1) + 0;
    DivMod(q, 0, Pow2(n + 1));
  }

  lemma OddAbove(f: nat, ts: seq<Token>, j: nat)
    requires j <= 31 && (j == 31 || (ts != [] && ts[0].Copy?))
    ensures Flags(ts, j) % 2 == 1
  {
    if j < 31 {
      FlagStep(ts, j);
    }
  }

  lemma Lookup(f: nat, n: nat)
    requires 1 <= n <= 4 && f % Pow2(n) == 0 && (n < 4 ==> f / Pow2(n) % 2 == 1)
    ensures BITLUT[f % 16] == n
  {
    assert Pow2(1) == 2 && Pow2(2) == 4 && Pow2(3) == 8 && Pow2(4) == 16;
  }

  // ---------- tokens ----------

  /** A valid rest of at least four bytes takes at least four bytes of stream. */
  lemma {:induction false} EnoughLeft(ts: seq<Token>, j: nat, pos: nat, size: nat)
    requires j <= 31 && AllEncodable(ts) && Valid(ts, pos, size)
    ensures pos <= size
    ensures |Stream(ts, j)| >= if size - pos < 4 then size - pos else 4
    decreases |ts|, j
  {
    hide TokenBytes, Flags, LE;
    if ts != [] {
      if j == 31 {
        EnoughLeft(ts, 0, pos, size);
      } else {
        EnoughLeft(ts[1..], j + 1, pos + if ts[0].Lit? then 1 else ts[0].len, size);
      }
    }
  }

  /** The stream of n literals under one control word. */
  lemma {:induction false} LiteralBytes(ts: seq<Token>, j: nat, n: nat, out: seq<byte>) returns (bytes: seq<byte>)
    requires n <= |ts| && j + n <= 31 && AllEncodable(ts) && forall i | 0 <= i < n :: ts[i].Lit?
    ensures |bytes| == n && Stream(ts, j) == bytes + Stream(ts[n..], j + n)
    ensures Expand(out, ts) == Expand(out + bytes, ts[n..])
    decreases n
  {
    hide Stream, Expand, Encodable;
    if n == 0 {
      bytes := [];
      assert ts[0..] == ts && out + [] == out;
    } else {
      var b := ts[0].b;
      FirstLiteral(ts, j, out);
      bytes := LiteralBytes(ts[1..], j + 1, n - 1, out + [b]);
      assert ts[1..][n - 1..] == ts[n..];
      assert [b] + (bytes + Stream(ts[n..], j + n)) == ([b] + bytes) + Stream(ts[n..], j + n);
      assert out + [b] + bytes == out + ([b] + bytes);
      bytes := [b] + bytes;
    }
  }

  lemma FirstLiteral(ts: seq<Token>, j: nat, out: seq<byte>)
    requires j < 31 && AllEncodable(ts) && ts != [] && ts[0].Lit?
    ensures AllEncodable(ts[1..]) && Stream(ts, j) == [ts[0].b] + Stream(ts[1..], j + 1)
    ensures Expand(out, ts) == Expand(out + [ts[0].b], ts[1..])
  {
    hide LE, Flags, CopyFrom, Encodable;
  }

  /** Where a control word is due it comes first. */
  lemma ControlWord(ts: seq<Token>)
    requires AllEncodable(ts) && ts != []
    ensures Stream(ts, 31) == LE(Flags(ts, 0), CWORD_LEN) + Stream(ts, 0)
  {
    hide LE, Flags, TokenBytes, Encodable;
  }

  ghost predicate AllLit(ts: seq<Token>) {
    forall i | 0 <= i < |ts| :: ts[i].Lit?
  }

  /** Past the last match start only literals can follow. */
  lemma {:induction false} OnlyLiterals(ts: seq<Token>, pos: nat, size: nat)
    requires Valid(ts, pos, size) && pos + MATCH_MARGIN > size
    ensures AllLit(ts) && pos + |ts| == size
    decreases |ts|
  {
    if ts != [] {
      OnlyLiterals(ts[1..], pos + 1, size);
    }
  }

  lemma {:induction false} FillDecodes(ts: seq<Token>, j: nat, out: seq<byte>, pad: seq<byte>, size: nat)
    requires j <= 31 && AllEncodable(ts) && AllLit(ts) && |out| + |ts| == size
    ensures Fill(size, Stream(ts, j) + pad, Flags(ts, j), out) == Done(Expand(out, ts))
    decreases |ts|, j
  {
    hide LE, Flags, MatchWord, CopyFrom, Stream, AllEncodable;
    var s := Stream(ts, j) + pad;
    if ts != [] {
      if j == 31 {
        FillDecodes(ts, 0, out, pad, size);
        ControlWord(ts);
        FlagsOfLiterals(ts, 0);
        assert s[CWORD_LEN..] == Stream(ts, 0) + pad;
        FlagStep(ts, 0);
        FlagsNone(ts);
        FillReload(size, s, out, Flags(ts, 0));
      } else {
        FlagStep(ts, j);
        FirstLiteral(ts, j, out);
        assert s[1..] == Stream(ts[1..], j + 1) + pad;
        FillDecodes(ts[1..], j + 1, out + [ts[0].b], pad, size);
      }
    }
  }

  lemma FillReload(size: nat, s: seq<byte>, out: seq<byte>, w: nat)
    requires |s| >= CWORD_LEN && w == TOP
    ensures Fill(size, s, 1, out) == Fill(size, s[CWORD_LEN..], w, out)
  {
  }

  lemma {:induction false} FlagsOfLiterals(ts: seq<Token>, j: nat)
    requires j <= 31 && AllLit(ts)
    ensures Flags(ts, j) == Pow2(31 - j) && (j == 0 ==> Flags(ts, j) == TOP)
    decreases 31 - j
  {
    Pow2Of31();
    if j < 31 {
      FlagsOfLiterals(if ts == [] then [] else ts[1..], j + 1);
    }
  }

  /** The four bytes at a match are read back as its offset, its length and its byte count. */
  lemma MatchRead(t: Token, rest: seq<byte>)
    requires t.Copy? && Encodable(t.len, t.off) && |TokenBytes(t) + rest| >= 4
    ensures ReadMatch(Word(TokenBytes(t) + rest, 4)) == Match(t.off, t.len, |TokenBytes(t)|)
  {
    hide MatchWord, LE, ReadMatch, Word, Pow256;
    var s := TokenBytes(t) + rest;
    var (f, n) := MatchWord(t.len, t.off);
    ReadMatchUndoes(t.len, t.off, 0);
    WordOfLE(f, n, rest);
    var q := WordSplit(s, n, 4);
    WordBound(s, 4);
    NoExcess(n, f, q, Word(s, 4));
    ReadMatchUndoes(t.len, t.off, q);
  }

  /** A match at the head of the stream passes every check and is copied. */
  lemma MatchStep(t: Token, rest: seq<byte>, out: seq<byte>, size: nat, cw: nat)
    requires t.Copy? && Encodable(t.len, t.off) && t.off <= |out| && |out| + t.len + UNCOMPRESSED_END <= size < UI32
    requires cw % 2 == 1 && |TokenBytes(t) + rest| >= 4
    ensures Step(size, TokenBytes(t) + rest, cw, out) == Turn(size, rest, cw / 2, CopyFrom(out, t.off, t.len))
  {
    hide Turn, CopyFrom, TokenBytes, ReadMatch, Word;
    var b := TokenBytes(t);
    var s := b + rest;
    MatchRead(t, rest);
    assert s[|b|..] == rest;
    assert (size - |out| - UNCOMPRESSED_END) % UI32 == size - |out| - UNCOMPRESSED_END;
  }

  lemma NoExcess(n: nat, f: nat, q: nat, w: nat)
    requires 1 <= n <= 4 && w == f + Pow256(n) * q && w < Pow256(4)
    ensures n < 4 || q == 0
  {
    AtLeastOnce(Pow256(n), q);
  }

  lemma AtLeastOnce(p: nat, q: nat)
    ensures q >= 1 ==> p * q >= p
  {
  }

  /**
   The decompressor turns the stream of any valid token list into what the tokens mean: matches are
   copied, up to four literals are taken at a time, the uncompressed end is filled in, and none of
   the memory-safe checks rejects.
   */
  lemma {:induction false} StreamDecodes(ts: seq<Token>, j: nat, out: seq<byte>, pad: seq<byte>, size: nat)
    requires j <= 31 && AllEncodable(ts) && Valid(ts, |out|, size) && ts != [] && size < UI32
    requires size - |out| + |pad| >= 4
    ensures Turn(size, Stream(ts, j) + pad, Flags(ts, j), out) == Done(Expand(out, ts))
    decreases |ts|, if j == 31 then 3 else 2
  {
    hide Step, Turn, Flags, LE, TokenBytes, Expand, Word, Pow256, Stream, AllEncodable, Valid;
    EnoughLeft(ts, j, |out|, size);
    if j == 31 {
      ControlWord(ts);
      StreamDecodes(ts, 0, out, pad, size);
      var f := Flags(ts, 0);
      FlagsBound(ts, 0);
      Pow2Of31();
      Pow256Of4();
      var next := Stream(ts, 0) + pad;
      WordOfLE(f, CWORD_LEN, next);
      assert Stream(ts, j) + pad == LE(f, CWORD_LEN) + next;
      FlagStep(ts, 0);
      FlagsNone(ts);
      Reload(size, LE(f, CWORD_LEN), next, f, out);
    } else {
      FlagStep(ts, j);
      StepDecodes(ts, j, out, pad, size);
      NoReload(size, Stream(ts, j) + pad, Flags(ts, j), out);
    }
  }

  lemma Pow256Of4()
    ensures Pow256(4) == UI32
  {
  }

  lemma Reload(size: nat, head: seq<byte>, next: seq<byte>, f: nat, out: seq<byte>)
    requires |head| == CWORD_LEN && Word(head + next, CWORD_LEN) == f && f != 1
    ensures Turn(size, head + next, 1, out) == Turn(size, next, f, out)
  {
    hide Step, Word;
    assert (head + next)[CWORD_LEN..] == next;
  }

  lemma NoReload(size: nat, s: seq<byte>, cw: nat, out: seq<byte>)
    requires cw != 1
    ensures Turn(size, s, cw, out) == Step(size, s, cw, out)
  {
    hide Step;
  }

  lemma {:induction false} StepDecodes(ts: seq<Token>, j: nat, out: seq<byte>, pad: seq<byte>, size: nat)
    requires j < 31 && AllEncodable(ts) && Valid(ts, |out|, size) && ts != [] && size < UI32
    requires size - |out| + |pad| >= 4
    ensures Step(size, Stream(ts, j) + pad, Flags(ts, j), out) == Done(Expand(out, ts))
    decreases |ts|, 1
  {
    hide Turn, Fill, LE, TokenBytes, Flags, Step, Stream, Expand, Encodable;
    if ts[0].Copy? {
      MatchDecodes(ts, j, out, pad, size);
    } else if |out| + MATCH_MARGIN < size {
      LiteralsDecode(ts, j, out, pad, size);
    } else {
      EndDecodes(ts, j, out, pad, size);
    }
  }

  /** A match comes next. */
  lemma {:induction false} MatchDecodes(ts: seq<Token>, j: nat, out: seq<byte>, pad: seq<byte>, size: nat)
    requires j < 31 && AllEncodable(ts) && Valid(ts, |out|, size) && ts != [] && size < UI32 && ts[0].Copy?
    requires size - |out| + |pad| >= 4
    ensures Step(size, Stream(ts, j) + pad, Flags(ts, j), out) == Done(Expand(out, ts))
    decreases |ts|, 0
  {
    hide Turn, LE, TokenBytes, Flags, Step, CopyFrom;
    EnoughLeft(ts, j, |out|, size);
    FlagStep(ts, j);
    var next := Stream(ts[1..], j + 1) + pad;
    assert Stream(ts, j) + pad == TokenBytes(ts[0]) + next;
    MatchStep(ts[0], next, out, size, Flags(ts, j));
    StreamDecodes(ts[1..], j + 1, CopyFrom(out, ts[0].off, ts[0].len), pad, size);
  }

  /** Literals come next, and a match may follow. */
  lemma {:induction false} LiteralsDecode(ts: seq<Token>, j: nat, out: seq<byte>, pad: seq<byte>, size: nat)
    requires j < 31 && AllEncodable(ts) && Valid(ts, |out|, size) && ts != [] && size < UI32 && ts[0].Lit?
    requires size - |out| + |pad| >= 4 && |out| + MATCH_MARGIN < size
    ensures Step(size, Stream(ts, j) + pad, Flags(ts, j), out) == Done(Expand(out, ts))
    decreases |ts|, 0
  {
    hide Turn, LE, TokenBytes, Flags, Step, Stream, Expand, Encodable;
    EnoughLeft(ts, j, |out|, size);
    FlagStep(ts, j);
    var n := LiteralRun(ts, j, |out|, size);
    var bytes := LiteralBytes(ts, j, n, out);
    var next := Stream(ts[n..], j + n) + pad;
    assert Stream(ts, j) + pad == bytes + next;
    LiteralStep(size, bytes, next, Flags(ts, j), out);
    StreamDecodes(ts[n..], j + n, out + bytes, pad, size);
  }

  /** The uncompressed end. */
  lemma EndDecodes(ts: seq<Token>, j: nat, out: seq<byte>, pad: seq<byte>, size: nat)
    requires j < 31 && AllEncodable(ts) && Valid(ts, |out|, size) && ts != [] && size < UI32 && ts[0].Lit?
    requires size - |out| + |pad| >= 4 && |out| + MATCH_MARGIN >= size
    ensures Step(size, Stream(ts, j) + pad, Flags(ts, j), out) == Done(Expand(out, ts))
  {
    hide Fill, LE, TokenBytes, Flags, Step, Stream, Expand, Encodable;
    EnoughLeft(ts, j, |out|, size);
    FlagStep(ts, j);
    EndLiterals(ts, |out|, size);
    FillDecodes(ts, j, out, pad, size);
    FillStep(size, Stream(ts, j) + pad, Flags(ts, j), out);
  }

  lemma EndLiterals(ts: seq<Token>, n: nat, size: nat)
    requires ts != [] && ts[0].Lit? && Valid(ts, n, size) && n + MATCH_MARGIN >= size
    ensures AllLit(ts) && n + |ts| == size
  {
    OnlyLiterals(ts[1..], n + 1, size);
  }

  lemma LiteralStep(size: nat, bytes: seq<byte>, next: seq<byte>, cw: nat, out: seq<byte>)
    requires |bytes + next| >= 4 && cw % 2 == 0 && |out| + MATCH_MARGIN < size && |bytes| == BITLUT[cw % 16]
    ensures Step(size, bytes + next, cw, out) == Turn(size, next, cw / Pow2(|bytes|), out + bytes)
  {
    hide Turn, Pow2;
    assert (bytes + next)[..|bytes|] == bytes;
    assert (bytes + next)[|bytes|..] == next;
  }

  lemma FillStep(size: nat, s: seq<byte>, cw: nat, out: seq<byte>)
    requires |s| >= 4 && cw % 2 == 0 && |out| + MATCH_MARGIN >= size
    ensures Step(size, s, cw, out) == Fill(size, s, cw, out)
  {
    hide Fill;
  }
}
