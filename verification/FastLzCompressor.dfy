/** fastlz1_compress and fastlz2_compress, in place on an output buffer. */
module FastLzCompressor {
  import opened Basics
  import opened LzCopy
  import opened FastLzFormat
  import opened FastLzSearch

  /** All table entries are earlier positions: the only fact about the table that matters. */
  ghost predicate Earlier(htab: array<nat>, ip: nat)
    reads htab
  {
    htab.Length == HASH_SIZE && forall h | 0 <= h < HASH_SIZE :: htab[h] < ip
  }

  /** The table holds, for every hash value, the last position entered with it. */
  ghost predicate Indexed(htab: array<nat>, input: seq<byte>, seen: seq<nat>)
    reads htab
  {
    Table(input, htab[..], seen)
  }

  ghost predicate Table(input: seq<byte>, table: seq<nat>, seen: seq<nat>) {
    |table| == HASH_SIZE && forall h | 0 <= h < HASH_SIZE :: table[h] == Latest(input, seen, h)
  }

  lemma Entered(input: seq<byte>, table: seq<nat>, seen: seq<nat>, p: nat)
    requires Table(input, table, seen)
    ensures Table(input, table[Hash(input, p) := p], seen + [p])
  {
    hide Hash;
    assert (seen + [p])[..|seen|] == seen;
  }

  lemma EnteredNone(input: seq<byte>, table: seq<nat>, seen: seq<nat>)
    requires Table(input, table, seen)
    ensures Table(input, table, seen + [])
  {
    assert seen + [] == seen;
  }

  /** How far the match at `anchor` extends; `ip` comes back one byte past what is known to match. */
  method Extend(level: Level, input: seq<byte>, anchor: nat, dist: nat, len: nat) returns (ip: nat)
    requires anchor + 12 < |input| && len == Least(level, dist)
    requires Repeats(input, anchor, anchor + len, dist)
    ensures anchor + len + 1 <= ip <= |input| && Reaches(level, input, anchor, dist, ip - 1 - anchor)
  {
    if dist == 1 {
      ip := ExtendRun(input, anchor, len);
    } else {
      ip := ExtendCopy(input, anchor, dist, len);
    }
  }

  method ExtendRun(input: seq<byte>, anchor: nat, len: nat) returns (ip: nat)
    requires 3 <= len && anchor + len + 10 <= |input| && Repeats(input, anchor, anchor + len, 1)
    ensures anchor + len < ip <= |input| - 2 && Repeats(input, anchor, ip - 1, 1)
    ensures ip == |input| - 2 || input[ip - 1] != input[ip - 2]
  {
    var bound := |input| - 2;
    ip := anchor + len;
    var x := input[ip - 1];
    var ref := ip - 1;
    while ip < bound && input[ref] == x
      invariant anchor + len <= ip <= bound && ref == ip - 1 && x == input[anchor + len - 1]
      invariant forall j | anchor + len - 1 <= j < ip - 1 :: input[j] == x
      invariant ip == anchor + len ==> input[ref] == x
    {
      ref, ip := ref + 1, ip + 1;
    }
  }

  method ExtendCopy(input: seq<byte>, anchor: nat, dist: nat, len: nat) returns (ip: nat)
    requires 3 <= len && anchor + len + 8 <= |input| && Repeats(input, anchor, anchor + len, dist)
    ensures var last := if anchor + len + 8 <= |input| - 2 then |input| - 2 else anchor + len + 8;
            && anchor + len < ip <= last && Repeats(input, anchor, ip - 1, dist)
            && (ip == last || input[ip - 1] != input[ip - 1 - dist])
  {
    var bound := |input| - 2;
    ip := anchor + len;
    var ref := ip - dist;
    var k := 0;
    while k < 8
      invariant k <= 8 && ip == anchor + len + k && ref == ip - dist
      invariant Repeats(input, anchor, ip, dist)
    {
      ref, ip, k := ref + 1, ip + 1, k + 1;
      if input[ref - 1] != input[ip - 1] {
        return;
      }
    }
    while ip < bound
      invariant anchor + len + 8 <= ip && (ip <= bound || ip == anchor + len + 8)
      invariant ip <= |input| && ref == ip - dist
      invariant Repeats(input, anchor, ip, dist)
      decreases bound - ip
    {
      ref, ip := ref + 1, ip + 1;
      if input[ref - 1] != input[ip - 1] {
        return;
      }
    }
  }

  // ---------- writing one match ----------

  /** `*op++ = b`: everything written so far, and then b. */
  method Put(output: array<byte>, op0: nat, b: byte) returns (op: nat)
    requires op0 < output.Length
    modifies output
    ensures op == op0 + 1 && output[..op] == old(output[..op0]) + [b]
  {
    output[op0] := b;
    op := op0 + 1;
  }

  /** The 255s and the last byte of a level 2 length. */
  method EmitLong(output: array<byte>, op0: nat, len0: nat) returns (op: nat)
    requires op0 + 1 + len0 / 255 <= output.Length
    modifies output
    ensures op == op0 + 1 + len0 / 255
    ensures output[..op] == old(output[..op0]) + LongLength(len0)
  {
    op := op0;
    var len := len0;
    while len >= 255
      invariant op <= output.Length && op + 1 + len / 255 == op0 + 1 + len0 / 255
      invariant output[..op] + LongLength(len) == old(output[..op0]) + LongLength(len0)
    {
      ghost var before := output[..op];
      output[op] := 255;
      op, len := op + 1, len - 255;
      assert output[..op] + LongLength(len) == before + LongLength(len + 255);
    }
    output[op] := len;
    op := op + 1;
  }

  lemma NearBytes(level: Level, len: nat, d: nat)
    requires 1 <= len && d < NEAR2 && (level == 1 ==> len <= MAX_LEN - 2)
    ensures MatchBytes(level, len, d) ==
            [(if len < 7 then len else 7) * 32 + d / 256]
            + (if len < 7 then [] else if level == 1 then [len - 7] else LongLength(len - 7))
            + [d % 256]
  {
    hide LongLength;
  }

  lemma FarBytes(len: nat, d: nat)
    requires 1 <= len && NEAR2 <= d && d + 1 < MAX_FARDISTANCE
    ensures var far := d - NEAR2;
            MatchBytes(2, len, d) ==
            [(if len < 7 then len else 7) * 32 + 31] + (if len < 7 then [] else LongLength(len - 7))
            + [255, far / 256, far % 256]
  {
    hide LongLength;
  }

  method EmitNear(level: Level, output: array<byte>, op0: nat, len: nat, d: nat) returns (op: nat)
    requires 1 <= len && d < NEAR2
    requires level == 1 ==> len <= MAX_LEN - 2
    requires op0 + len + 1 <= output.Length
    modifies output
    ensures op0 < op <= op0 + len + 1
    ensures output[..op] == old(output[..op0]) + MatchBytes(level, len, d)
  {
    NearBytes(level, len, d);
    hide LongLength, MatchBytes;
    var hi, lo: byte := d / 256, d % 256;
    assert hi < 32;
    var head: byte := (if len < 7 then len else 7) * 32 + hi;
    ghost var ext := if len < 7 then [] else if level == 1 then [len - 7] else LongLength(len - 7);
    op := Put(output, op0, head);
    if len >= 7 {
      if level == 1 {
        op := Put(output, op, len - 7);
      } else {
        op := EmitLong(output, op, len - 7);
      }
    }
    assert output[..op] == old(output[..op0]) + [head] + ext;
    op := Put(output, op, lo);
    RegroupFour(old(output[..op0]), [head], ext, [lo]);
  }

  /** The escape byte and the 16-bit distance of a far match. */
  method EmitEscape(output: array<byte>, op: nat, far: nat)
    requires far < 65536 && op + 3 <= output.Length
    modifies output
    ensures output[..op + 3] == old(output[..op]) + [255, far / 256, far % 256]
  {
    output[op], output[op + 1], output[op + 2] := 255, far / 256, far % 256;
  }

  method EmitFar(output: array<byte>, op0: nat, len: nat, d: nat) returns (op: nat)
    requires 3 <= len && NEAR2 <= d && d + 1 < MAX_FARDISTANCE
    requires op0 + len + 1 <= output.Length
    modifies output
    ensures op0 < op <= op0 + len + 1
    ensures output[..op] == old(output[..op0]) + MatchBytes(2, len, d)
  {
    FarBytes(len, d);
    hide LongLength, MatchBytes;
    var head: byte := (if len < 7 then len else 7) * 32 + 31;
    ghost var ext := if len < 7 then [] else LongLength(len - 7);
    op := Put(output, op0, head);
    if len >= 7 {
      op := EmitLong(output, op, len - 7);
    }
    assert output[..op] == old(output[..op0]) + [head] + ext;
    var far := d - NEAR2;
    EmitEscape(output, op, far);
    op := op + 3;
    RegroupFour(old(output[..op0]), [head], ext, [255, far / 256, far % 256]);
  }

  /** A piece of exactly MAX_LEN - 2 bytes, split off a longer level 1 match. */
  method EmitPiece(output: array<byte>, op: nat, d: nat)
    requires d + 1 < MaxDistance(1)
    requires op + 3 <= output.Length
    modifies output
    ensures output[..op + 3] == old(output[..op]) + MatchBytes(1, MAX_LEN - 4, d)
  {
    var hi, lo := d / 256, d % 256;
    output[op], output[op + 1], output[op + 2] := 7 * 32 + hi, MAX_LEN - 2 - 7 - 2, lo;
  }

  method EmitOne(level: Level, output: array<byte>, op0: nat, len: nat, d: nat) returns (op: nat)
    requires 1 <= len && d + 1 < MaxDistance(level)
    requires level == 1 ==> len <= MAX_LEN - 2
    requires level == 2 && d >= NEAR2 ==> len >= 3
    requires op0 + len + 1 <= output.Length
    modifies output
    ensures op0 < op <= op0 + len + 1
    ensures output[..op] == old(output[..op0]) + MatchBytes(level, len, d)
  {
    if d < NEAR2 {
      op := EmitNear(level, output, op0, len, d);
    } else {
      op := EmitFar(output, op0, len, d);
    }
  }

  /** The buffer up to `op` holds complete tokens that stand for the first `p` input bytes. */
  ghost predicate Holds(level: Level, input: seq<byte>, stream: seq<byte>, toks: seq<Token>, p: nat) {
    && p <= |input|
    && WellFormed(level, toks) && stream == Encode(level, toks) && Expand(toks) == input[..p]
  }

  lemma HoldsMatch(level: Level, input: seq<byte>, stream: seq<byte>, toks: seq<Token>, p: nat, len: nat, d: nat)
    requires Holds(level, input, stream, toks, p)
    requires 1 <= len && d + 1 < MaxDistance(level) && (level == 1 ==> len <= MAX_LEN - 2)
    requires Repeats(input, p, p + len + 2, d + 1)
    ensures Holds(level, input, stream + MatchBytes(level, len, d), toks + [Match(len + 2, d + 1)], p + len + 2)
  {
    hide WellFormed, Encode, Expand, CopyFrom, MatchBytes;
    var t := Match(len + 2, d + 1);
    CopyReproduces(input, p, t.dist, t.len);
    assert TokenBytes(level, t, p) == MatchBytes(level, len, d);
    Snoc(level, toks, t);
  }

  lemma HoldsLiterals(level: Level, input: seq<byte>, stream: seq<byte>, toks: seq<Token>, p: nat, e: nat)
    requires Holds(level, input, stream, toks, p) && p < e <= |input| && e - p <= MAX_COPY
    ensures Holds(level, input, stream + [e - p - 1] + input[p..e], toks + [Literals(input[p..e])], e)
  {
    Snoc(level, toks, Literals(input[p..e]));
    assert stream + [e - p - 1] + input[p..e] == stream + ([e - p - 1] + input[p..e]);
    assert input[..p] + input[p..e] == input[..e];
  }

  lemma PiecesCut(toks: seq<Token>, len: nat, dist: nat)
    requires len > MAX_LEN
    ensures toks + Pieces(1, len, dist) == toks + [Match(MAX_LEN - 2, dist)] + Pieces(1, len - (MAX_LEN - 2), dist)
  {
  }

  /** A match of biased length `len0`: level 1 first splits off pieces of MAX_LEN - 2 bytes. */
  method EmitMatch(level: Level, input: seq<byte>, output: array<byte>, op0: nat, len0: nat, d: nat,
                   ghost toks0: seq<Token>, ghost p: nat)
    returns (op: nat, ghost toks: seq<Token>)
    requires 1 <= len0 && d + 1 < MaxDistance(level)
    requires level == 2 && d >= NEAR2 ==> len0 >= 3
    requires op0 + len0 + 1 <= output.Length
    requires Holds(level, input, output[..op0], toks0, p)
    requires Repeats(input, p, p + len0 + 2, d + 1)
    modifies output
    ensures op0 < op <= op0 + len0 + 1
    ensures toks == toks0 + Pieces(level, len0 + 2, d + 1)
    ensures Holds(level, input, output[..op], toks, p + len0 + 2)
  {
    hide Holds, MatchBytes;
    op, toks := op0, toks0;
    var len := len0;
    if level == 1 {
      while len > MAX_LEN - 2
        invariant 1 <= len <= len0 && op0 <= op <= op0 + (len0 - len)
        invariant toks + Pieces(level, len + 2, d + 1) == toks0 + Pieces(level, len0 + 2, d + 1)
        invariant Holds(level, input, output[..op], toks, p + (len0 - len))
      {
        ghost var before := output[..op];
        ghost var here := p + (len0 - len);
        EmitPiece(output, op, d);
        op := op + 3;
        HoldsMatch(level, input, before, toks, here, MAX_LEN - 4, d);
        PiecesCut(toks, len + 2, d + 1);
        toks := toks + [Match(MAX_LEN - 2, d + 1)];
        len := len - (MAX_LEN - 2);
      }
    }
    HoldsMatch(level, input, output[..op], toks, p + (len0 - len), len, d);
    op := EmitOne(level, output, op, len, d);
    toks := toks + [Match(len + 2, d + 1)];
  }

  // ---------- the literal run being collected ----------

  /** The buffer ends in an open run: its count byte, preset to MAX_COPY - 1 and patched later,
      then `copy` literals.  The last lines are the size bound and the leading literal run. */
  ghost predicate Collecting(level: Level, input: seq<byte>, buf: seq<byte>, toks: seq<Token>, ip: nat, copy: nat) {
    var op := |buf|;
    && copy < MAX_COPY && copy <= ip <= |input| && copy < op
    && Holds(level, input, buf[..op - copy - 1], toks, ip - copy)
    && buf[op - copy - 1] == MAX_COPY - 1 && buf[op - copy..] == input[ip - copy..ip]
    && 32 * op + copy <= 33 * ip + 32
    && (if toks == [] then copy >= 2 else toks[0].Literals?)
  }

  lemma RunOpens(level: Level, input: seq<byte>, stream: seq<byte>, toks: seq<Token>, ip: nat)
    requires Holds(level, input, stream, toks, ip) && 32 * |stream| <= 33 * ip
    requires toks != [] && toks[0].Literals?
    ensures Collecting(level, input, stream + [MAX_COPY - 1], toks, ip, 0)
  {
    assert (stream + [MAX_COPY - 1])[..|stream|] == stream;
  }

  lemma RunGrows(level: Level, input: seq<byte>, buf: seq<byte>, toks: seq<Token>, ip: nat, copy: nat)
    requires Collecting(level, input, buf, toks, ip, copy) && ip < |input| && copy + 1 < MAX_COPY
    ensures Collecting(level, input, buf + [input[ip]], toks, ip + 1, copy + 1)
  {
    hide WellFormed, Encode, Expand;
    var start := |buf| - copy - 1;
    var grown := buf + [input[ip]];
    assert grown[..start] == buf[..start];
    assert grown[start + 1..] == buf[start + 1..] + [input[ip]];
    assert input[ip - copy..ip] + [input[ip]] == input[ip - copy..ip + 1];
  }

  lemma RunFills(level: Level, input: seq<byte>, buf: seq<byte>, toks: seq<Token>, ip: nat, copy: nat)
    requires Collecting(level, input, buf, toks, ip, copy) && ip < |input| && copy + 1 == MAX_COPY
    ensures Collecting(level, input, buf + [input[ip], MAX_COPY - 1],
                       toks + [Literals(input[ip - copy..ip + 1])], ip + 1, 0)
  {
    hide WellFormed, Encode, Expand;
    var start := |buf| - copy - 1;
    var run := input[ip - copy..ip + 1];
    assert input[ip - copy..ip] + [input[ip]] == run;
    var closed := buf[..start] + [MAX_COPY - 1] + run;
    assert closed == buf + [input[ip]];
    HoldsLiterals(level, input, buf[..start], toks, ip - copy, ip + 1);
    assert (buf + [input[ip], MAX_COPY - 1])[..|buf| + 1] == closed;
  }

  method PutLiteral(level: Level, input: seq<byte>, output: array<byte>, ip: nat, op0: nat, copy0: nat,
                    ghost toks0: seq<Token>)
    returns (op: nat, copy: nat, ghost toks: seq<Token>)
    requires ip < |input| && op0 <= output.Length && |input| + |input| / 32 + 1 <= output.Length
    requires Collecting(level, input, output[..op0], toks0, ip, copy0)
    modifies output
    ensures op <= output.Length && Collecting(level, input, output[..op], toks, ip + 1, copy)
    ensures copy == (if copy0 + 1 == MAX_COPY then 0 else copy0 + 1) && copy0 <= ip
    ensures toks == toks0 + if copy0 + 1 == MAX_COPY then RunOf(input, ip + 1, copy0 + 1) else []
  {
    hide Holds;
    ghost var before := output[..op0];
    output[op0] := input[ip];
    op, copy, toks := op0 + 1, copy0 + 1, toks0;
    if copy == MAX_COPY {
      output[op] := MAX_COPY - 1;
      op, copy := op + 1, 0;
      RunFills(level, input, before, toks0, ip, copy0);
      toks := toks0 + [Literals(input[ip - copy0..ip + 1])];
      assert output[..op] == before + [input[ip], MAX_COPY - 1];
    } else {
      RunGrows(level, input, before, toks0, ip, copy0);
      assert output[..op] == before + [input[ip]];
    }
  }

  /** Patches the count of the open run, or drops the run byte when the run is empty. */
  method CloseRun(level: Level, input: seq<byte>, output: array<byte>, ip: nat, op0: nat, copy: nat,
                  ghost toks0: seq<Token>)
    returns (op: nat, ghost toks: seq<Token>)
    requires op0 <= output.Length && Collecting(level, input, output[..op0], toks0, ip, copy)
    modifies output
    ensures op <= op0 && Holds(level, input, output[..op], toks, ip) && 32 * op <= 33 * ip + 32
    ensures toks != [] && toks[0].Literals? && toks == toks0 + RunOf(input, ip, copy)
  {
    hide WellFormed, Encode, Expand;
    op, toks := op0, toks0;
    if copy > 0 {
      var start := op - copy - 1;
      ghost var head := output[..start];
      output[start] := copy - 1;
      assert output[..op] == head + [copy - 1] + input[ip - copy..ip];
      HoldsLiterals(level, input, head, toks, ip - copy, ip);
      toks := toks + [Literals(input[ip - copy..ip])];
    } else {
      op := op - 1;
      assert output[..op0][..op] == output[..op];
    }
  }

  // ---------- the compressor ----------

  /** Looks for an earlier occurrence of the next bytes: level 2 first tries a run of the previous
      byte, then both levels consult and update the hash table. */
  method FindMatch(level: Level, input: seq<byte>, htab: array<nat>, anchor: nat, ghost moves: seq<Move>)
    returns (found: bool, dist: nat, len: nat)
    requires 2 <= anchor && anchor + 12 < |input| && Earlier(htab, anchor)
    requires anchor == Position(moves) && Indexed(htab, input, Seen(level, input, moves))
    modifies htab
    ensures Earlier(htab, anchor + 1)
    ensures found <==> Found(level, input, moves)
    ensures found ==> dist == Back(level, input, moves) && len == Least(level, dist)
    ensures found ==> dist < MaxDistance(level) && Repeats(input, anchor, anchor + len, dist)
    ensures Indexed(htab, input, Seen(level, input, moves) + if RunAt(level, input, anchor) then [] else [anchor])
  {
    hide Hash, Latest, Seen, Position;
    ghost var seen := Seen(level, input, moves);
    EnteredNone(input, htab[..], seen);
    len := 3;
    if level == 2 && input[anchor] == input[anchor - 1]
       && input[anchor - 1] == input[anchor + 1] && input[anchor] == input[anchor + 2] {
      return true, 1, 3;
    }
    var slot := Hash(input, anchor);
    var ref := htab[slot];
    dist := anchor - ref;
    Entered(input, htab[..], seen, anchor);
    htab[slot] := anchor;
    if dist == 0 || dist >= MaxDistance(level)
       || input[ref] != input[anchor] || input[ref + 1] != input[anchor + 1] || input[ref + 2] != input[anchor + 2] {
      return false, dist, len;
    }
    if level == 2 && dist >= NEAR2 {
      if input[ref + 3] != input[anchor + 3] || input[ref + 4] != input[anchor + 4] {
        return false, dist, len;
      }
      len := 5;
    }
    found := true;
  }

  /** One pass of the main loop after a match was found: writes it and opens the next run. */
  method PutMatch(level: Level, input: seq<byte>, output: array<byte>, htab: array<nat>, anchor: nat,
                  op0: nat, copy: nat, dist: nat, len: nat, ghost toks0: seq<Token>, ghost seen: seq<nat>)
    returns (ip: nat, op: nat, ghost toks: seq<Token>)
    requires 2 <= anchor && anchor + 12 < |input| && Earlier(htab, anchor + 1)
    requires dist < MaxDistance(level) && Repeats(input, anchor, anchor + len, dist)
    requires len == Least(level, dist) && Indexed(htab, input, seen)
    requires op0 <= output.Length && |input| + |input| / 32 + 1 <= output.Length
    requires Collecting(level, input, output[..op0], toks0, anchor, copy)
    modifies output, htab
    ensures anchor < ip <= |input| && Earlier(htab, ip)
    ensures op <= output.Length && Collecting(level, input, output[..op], toks, ip, 0)
    ensures Reaches(level, input, anchor, dist, ip - anchor)
    ensures toks == toks0 + (RunOf(input, anchor, copy) + Pieces(level, ip - anchor, dist))
    ensures Indexed(htab, input, seen + [ip - 2, ip - 1])
  {
    hide Collecting, Holds, Hash, Latest, RunOf, Pieces, Reaches;
    ip := Extend(level, input, anchor, dist, len);
    op, toks := CloseRun(level, input, output, anchor, op0, copy, toks0);
    ip := ip - 3;
    ghost var end := ip + 2;
    ghost var closed := op;
    op, toks := EmitMatch(level, input, output, op, ip - anchor, dist - 1, toks, anchor);
    assert op <= closed + (end - anchor) - 1;
    assert toks == toks0 + (RunOf(input, anchor, copy) + Pieces(level, end - anchor, dist));
    Entered(input, htab[..], seen, ip);
    var slot := Hash(input, ip);
    htab[slot] := ip;
    ip := ip + 1;
    Entered(input, htab[..], seen + [ip - 1], ip);
    slot := Hash(input, ip);
    htab[slot] := ip;
    ip := ip + 1;
    assert seen + [ip - 2] + [ip - 1] == seen + [ip - 2, ip - 1];
    ghost var stream := output[..op];
    output[op] := MAX_COPY - 1;
    op := op + 1;
    assert output[..op] == stream + [MAX_COPY - 1];
    RunOpens(level, input, stream, toks, end);
  }

  /** An input of fewer than four bytes becomes one literal run, at either level. */
  method CompressShort(input: seq<byte>, output: array<byte>) returns (size: nat)
    requires 0 < |input| < 4 && |input| + 1 <= output.Length
    modifies output
    ensures size == |input| + 1
    ensures forall maxout: nat | |input| <= maxout :: Decompress(output[..size], maxout) == Done(input)
  {
    output[0] := |input| - 1;
    var i := 0;
    while i < |input|
      invariant i <= |input| && output[0] == |input| - 1 && output[1..i + 1] == input[..i]
    {
      output[i + 1] := input[i];
      i := i + 1;
    }
    size := |input| + 1;
    assert output[..size] == [|input| - 1] + input;
    forall maxout: nat | |input| <= maxout
      ensures Decompress(output[..size], maxout) == Done(input)
    {
      ShortStreamDecodes(input, maxout);
    }
  }

  /** The bytes of the tokens, with the level in the first of them. */
  ghost predicate IsStream(level: Level, toks: seq<Token>, stream: seq<byte>) {
    WellFormed(level, toks) &&
    var e := Encode(level, toks);
    e != [] && e[0] < 32 && stream == e[0 := e[0] + (level - 1) * 32]
  }

  /** Closes the last run and, at level 2, marks the first byte. */
  method Finish(level: Level, input: seq<byte>, output: array<byte>, op: nat, copy: nat, ghost toks0: seq<Token>)
    returns (size: nat, ghost toks: seq<Token>)
    requires op <= output.Length && Collecting(level, input, output[..op], toks0, |input|, copy)
    modifies output
    ensures 0 < size <= |input| + |input| / 32 + 1 && size <= op
    ensures forall maxout: nat | |input| <= maxout :: Decompress(output[..size], maxout) == Done(input)
    ensures toks == toks0 + RunOf(input, |input|, copy) && IsStream(level, toks, output[..size])
  {
    hide Collecting, WellFormed, Encode, Expand, Decompress;
    size, toks := CloseRun(level, input, output, |input|, op, copy, toks0);
    ghost var stream := output[..size];
    FirstByte(level, toks);
    if level == 2 {
      output[0] := output[0] + 32;
    }
    assert output[..size] == stream[0 := stream[0] + (level - 1) * 32];
    assert input[..|input|] == input;
    forall maxout: nat | |input| <= maxout
      ensures Decompress(output[..size], maxout) == Done(input)
    {
      StreamDecodes(level, toks, maxout);
    }
  }

  /** The stream opens with the first two bytes in a literal run. */
  method Start(level: Level, input: seq<byte>, output: array<byte>)
    requires 4 <= |input| && 3 <= output.Length
    modifies output
    ensures Collecting(level, input, output[..3], [], 2, 2)
  {
    output[0], output[1], output[2] := MAX_COPY - 1, input[0], input[1];
    assert output[..3] == [MAX_COPY - 1] + input[..2];
    assert input[..0] == [];
  }

  /** What is left over is copied as literals. */
  method CopyRest(level: Level, input: seq<byte>, output: array<byte>, ip0: nat, op0: nat, copy0: nat,
                  ghost toks0: seq<Token>, ghost moves0: seq<Move>)
    returns (op: nat, copy: nat, ghost toks: seq<Token>, ghost moves: seq<Move>)
    requires ip0 <= |input| <= ip0 + 12 && op0 <= output.Length && |input| + |input| / 32 + 1 <= output.Length
    requires Collecting(level, input, output[..op0], toks0, ip0, copy0)
    requires Following(level, input, moves0, ip0, copy0, toks0)
    modifies output
    ensures op <= output.Length && Collecting(level, input, output[..op], toks, |input|, copy)
    ensures Following(level, input, moves, |input|, copy, toks)
  {
    hide Collecting, Following, RunOf;
    var ip: nat := ip0;
    op, copy, toks, moves := op0, copy0, toks0, moves0;
    while ip < |input|
      invariant ip0 <= ip <= |input| && op <= output.Length
      invariant Collecting(level, input, output[..op], toks, ip, copy)
      invariant Following(level, input, moves, ip, copy, toks)
    {
      OneLiteral(level, input, moves, ip, copy, toks);
      op, copy, toks := PutLiteral(level, input, output, ip, op, copy, toks);
      ip, moves := ip + 1, moves + [Plain];
    }
  }

  /** The moves made so far, where they have led, and the tokens they have completed. */
  ghost predicate Following(level: Level, input: seq<byte>, moves: seq<Move>, ip: nat, copy: nat, toks: seq<Token>) {
    && Played(level, input, moves) && ip == Position(moves) && copy == Pending(moves)
    && toks == Tokens(level, input, moves)
  }

  lemma PlayedOn(level: Level, input: seq<byte>, moves: seq<Move>, m: Move)
    requires Played(level, input, moves) && Follows(level, input, moves, m)
    ensures Played(level, input, moves + [m])
  {
    hide Follows;
    var all := moves + [m];
    forall k | 0 <= k < |all|
      ensures Follows(level, input, all[..k], all[k])
    {
      if k < |moves| {
        assert all[..k] == moves[..k] && all[k] == moves[k];
      } else {
        assert all[..k] == moves;
      }
    }
  }

  lemma Snocs(moves: seq<Move>, m: Move)
    ensures (moves + [m])[..|moves|] == moves && (moves + [m])[|moves|] == m
  {
  }

  lemma OneLiteral(level: Level, input: seq<byte>, moves: seq<Move>, ip: nat, copy: nat, toks: seq<Token>)
    requires Following(level, input, moves, ip, copy, toks) && ip < |input|
    requires ip + 12 >= |input| || !Found(level, input, moves)
    ensures var full := copy + 1 == MAX_COPY;
            Following(level, input, moves + [Plain], ip + 1, if full then 0 else copy + 1,
                      toks + if full then RunOf(input, ip + 1, copy + 1) else [])
  {
    hide Found, RunOf;
    PlayedOn(level, input, moves, Plain);
    Snocs(moves, Plain);
  }

  lemma OneMatch(level: Level, input: seq<byte>, moves: seq<Move>, ip: nat, copy: nat, toks: seq<Token>, m: Move)
    requires Following(level, input, moves, ip, copy, toks) && ip + 12 < |input| && Found(level, input, moves)
    requires m.Take? && m.dist == Back(level, input, moves) && Reaches(level, input, ip, m.dist, m.len)
    ensures Following(level, input, moves + [m], ip + m.len, 0,
                      toks + (RunOf(input, ip, copy) + Pieces(level, m.len, m.dist)))
  {
    hide Found, RunOf, Pieces, Reaches, Back;
    PlayedOn(level, input, moves, m);
    Snocs(moves, m);
  }

  lemma SeenOn(level: Level, input: seq<byte>, moves: seq<Move>, m: Move)
    ensures var p := Position(moves);
            Seen(level, input, moves + [m])
            == Seen(level, input, moves) + (if RunAt(level, input, p) then [] else [p])
               + if m.Take? && m.len >= 2 then [p + m.len - 2, p + m.len - 1] else []
  {
    hide RunAt, Position, Seen;
    Snocs(moves, m);
    SeenLast(level, input, moves + [m]);
  }

  lemma SeenLast(level: Level, input: seq<byte>, all: seq<Move>)
    requires all != []
    ensures var before, m := all[..|all| - 1], all[|all| - 1];
            var p := Position(before);
            Seen(level, input, all)
            == Seen(level, input, before) + (if RunAt(level, input, p) then [] else [p])
               + if m.Take? && m.len >= 2 then [p + m.len - 2, p + m.len - 1] else []
  {
    hide RunAt, Position;
  }

  /**
   fastlz1_compress (level 1) and fastlz2_compress (level 2).  For every input: the stream is at
   most n + n/32 + 1 bytes, and fastlz_decompress turns it back into exactly the input whenever
   the caller's limit allows that many bytes.  For four bytes and more the moves, and with them the
   stream, are the ones the search determines.
   */
  method Compress(level: Level, input: seq<byte>, output: array<byte>) returns (size: nat, ghost moves: seq<Move>)
    requires |input| + |input| / 32 + 1 <= output.Length
    modifies output
    ensures size <= |input| + |input| / 32 + 1
    ensures size == 0 <==> input == []
    ensures input != [] ==>
              forall maxout: nat | |input| <= maxout :: Decompress(output[..size], maxout) == Done(input)
    ensures |input| >= 4 ==>
              && Played(level, input, moves) && Position(moves) == |input|
              && IsStream(level, AllTokens(level, input, moves), output[..size])
  {
    hide Collecting, Decompress, Following, Found, Back, RunOf, Pieces, Reaches, Seen, Latest, Hash, Tokens, IsStream,
      Played, Position, Repeats, RunAt;
    moves := [];
    if |input| < 4 {
      if |input| == 0 {
        return 0, [];
      }
      size := CompressShort(input, output);
      return;
    }
    var htab := new nat[HASH_SIZE](_ => 0);
    Start(level, input, output);
    var ip: nat, op: nat, copy: nat := 2, 3, 2;
    ghost var toks: seq<Token> := [];
    NoMoves(level, input, htab[..]);
    while ip + 12 < |input|
      invariant 2 <= ip <= |input| && op <= output.Length && fresh(htab)
      invariant Collecting(level, input, output[..op], toks, ip, copy) && Earlier(htab, ip)
      invariant Following(level, input, moves, ip, copy, toks) && Indexed(htab, input, Seen(level, input, moves))
      decreases |input| - ip
    {
      FollowingMeans(level, input, moves, ip, copy, toks);
      ghost var seen := Seen(level, input, moves) + if RunAt(level, input, ip) then [] else [ip];
      var found, dist, len := FindMatch(level, input, htab, ip, moves);
      if found {
        ghost var ip0, copy0, toks0 := ip, copy, toks;
        ip, op, toks := PutMatch(level, input, output, htab, ip, op, copy, dist, len, toks, seen);
        ghost var m := Take(dist, ip - ip0);
        OneMatch(level, input, moves, ip0, copy0, toks0, m);
        SeenOn(level, input, moves, m);
        TakesTwo(level, input, ip0, dist, ip - ip0);
        copy, moves := 0, moves + [m];
      } else {
        OneLiteral(level, input, moves, ip, copy, toks);
        SeenOn(level, input, moves, Plain);
        EnteredNone(input, htab[..], seen);
        op, copy, toks := PutLiteral(level, input, output, ip, op, copy, toks);
        ip, moves := ip + 1, moves + [Plain];
      }
    }
    op, copy, toks, moves := CopyRest(level, input, output, ip, op, copy, toks, moves);
    FollowingMeans(level, input, moves, |input|, copy, toks);
    size, toks := Finish(level, input, output, op, copy, toks);
  }

  lemma NoMoves(level: Level, input: seq<byte>, table: seq<nat>)
    requires |table| == HASH_SIZE && forall h | 0 <= h < HASH_SIZE :: table[h] == 0
    ensures Following(level, input, [], 2, 2, []) && Table(input, table, Seen(level, input, []))
  {
  }

  lemma FollowingMeans(level: Level, input: seq<byte>, moves: seq<Move>, ip: nat, copy: nat, toks: seq<Token>)
    requires Following(level, input, moves, ip, copy, toks)
    ensures Played(level, input, moves) && ip == Position(moves) && copy == Pending(moves)
    ensures toks == Tokens(level, input, moves)
    ensures toks + RunOf(input, ip, copy) == AllTokens(level, input, moves)
  {
    hide Tokens, Played, Position, RunOf;
  }

  lemma TakesTwo(level: Level, input: seq<byte>, p: nat, dist: nat, len: nat)
    requires Reaches(level, input, p, dist, len)
    ensures len >= 2
  {
  }
}
