/** qlz_compress at level 3, in place on a destination buffer. */
module QlzCompressor {
  import opened Basics
  import opened LzCopy
  import opened QlzFormat
  import opened QlzDecoder
  import opened QlzSearch

  // ---------- building a stream from the front ----------

  /** The tokens take position pos to position end of a text of the given size. */
  ghost predicate Reaches(ts: seq<Token>, pos: nat, end: nat, size: nat)
    decreases |ts|
  {
    if ts == [] then pos == end
    else Allowed(ts[0], pos, size) && Reaches(ts[1..], pos + Span(ts[0]), end, size)
  }

  function Span(t: Token): nat { if t.Lit? then 1 else t.len }

  ghost predicate Allowed(t: Token, pos: nat, size: nat) {
    match t
    case Lit(b) => pos < size
    case Copy(len, off) =>
      && Encodable(len, off) && off <= pos
      && pos + MATCH_MARGIN <= size && pos + len + UNCOMPRESSED_END <= size
  }

  lemma {:induction false} ReachesSnoc(ts: seq<Token>, pos: nat, end: nat, size: nat, t: Token)
    requires Reaches(ts, pos, end, size) && Allowed(t, end, size)
    ensures Reaches(ts + [t], pos, end + Span(t), size)
    decreases |ts|
  {
    if ts == [] {
      assert (ts + [t])[1..] == [];
    } else {
      ReachesSnoc(ts[1..], pos + Span(ts[0]), end, size, t);
      assert (ts + [t])[1..] == ts[1..] + [t];
    }
  }

  lemma {:induction false} ReachesValid(ts: seq<Token>, pos: nat, size: nat)
    requires Reaches(ts, pos, size, size)
    ensures Valid(ts, pos, size)
    decreases |ts|
  {
    if ts != [] {
      ReachesValid(ts[1..], pos + Span(ts[0]), size);
    }
  }

  ghost function Apply(out: seq<byte>, t: Token): seq<byte> {
    match t
    case Lit(b) => out + [b]
    case Copy(len, off) => if 1 <= off <= |out| then CopyFrom(out, off, len) else out
  }

  lemma {:induction false} ExpandSnoc(out: seq<byte>, ts: seq<Token>, pos: nat, end: nat, size: nat, t: Token)
    requires Reaches(ts, pos, end, size) && pos == |out| && Allowed(t, end, size)
    ensures |Expand(out, ts)| == end && Expand(out, ts + [t]) == Apply(Expand(out, ts), t)
    decreases |ts|
  {
    if ts == [] {
      assert (ts + [t])[1..] == [];
    } else {
      ExpandSnoc(Apply(out, ts[0]), ts[1..], pos + Span(ts[0]), end, size, t);
      assert (ts + [t])[1..] == ts[1..] + [t];
    }
  }

  /** A control word looks at no more than the tokens it has flags for. */
  lemma {:induction false} FlagsPrefix(a: seq<Token>, b: seq<Token>, j: nat)
    requires j <= 31 && j + |a| >= 31
    ensures Flags(a + b, j) == Flags(a, j)
    decreases 31 - j
  {
    if j < 31 {
      assert (a + b)[1..] == a[1..] + b;
      FlagsPrefix(a[1..], b, j + 1);
    }
  }

  /** A full group ends on a control word boundary, so what follows is a stream of its own. */
  lemma {:induction false} StreamConcat(a: seq<Token>, b: seq<Token>, j: nat)
    requires j <= 31 && AllEncodable(a) && AllEncodable(b)
    requires (j + |a|) % 31 == 0 && (a == [] ==> j == 31)
    ensures AllEncodable(a + b) && Stream(a + b, j) == Stream(a, j) + Stream(b, 31)
    decreases |a|, j
  {
    hide LE, TokenBytes, Flags;
    if a == [] {
      assert a + b == b;
    } else if j == 31 {
      StreamConcat(a, b, 0);
      FlagsPrefix(a, b, 0);
    } else {
      assert (a + b)[1..] == a[1..] + b;
      StreamConcat(a[1..], b, j + 1);
    }
  }

  lemma {:induction false} StreamSnoc(ts: seq<Token>, j: nat, t: Token)
    requires j + |ts| < 31 && AllEncodable(ts) && AllEncodable([t])
    ensures AllEncodable(ts + [t]) && Stream(ts + [t], j) == Stream(ts, j) + TokenBytes(t)
    decreases |ts|
  {
    hide LE, TokenBytes, Flags;
    if ts == [] {
      assert ts + [t] == [t] && [t][1..] == [];
      assert TokenBytes(t) + [] == TokenBytes(t);
    } else {
      assert (ts + [t])[1..] == ts[1..] + [t];
      StreamSnoc(ts[1..], j + 1, t);
    }
  }

  lemma FlagsUnfold(ts: seq<Token>, j: nat)
    requires j < 31
    ensures ts == [] ==> Flags(ts, j) == 2 * Flags([], j + 1)
    ensures ts != [] ==> Flags(ts, j) == (if ts[0].Copy? then 1 else 0) + 2 * Flags(ts[1..], j + 1)
  {
  }

  /** One more flag: bit j + |ts| of the control word. */
  lemma {:induction false} FlagsSnoc(ts: seq<Token>, j: nat, t: Token)
    requires j + |ts| < 31
    ensures Flags(ts + [t], j) == Flags(ts, j) + if t.Copy? then Pow2(|ts|) else 0
    decreases |ts|
  {
    hide Flags, Pow2;
    FlagsUnfold(ts + [t], j);
    FlagsUnfold(ts, j);
    if ts == [] {
      assert (ts + [t])[1..] == [];
      PowersOfTwo();
    } else {
      assert (ts + [t])[1..] == ts[1..] + [t] && (ts + [t])[0] == ts[0];
      FlagsSnoc(ts[1..], j + 1, t);
      Pow2Next(|ts| - 1);
    }
  }

  /** The compressor's control word after the tokens `open`: the end marker, pushed down by one bit
      for each of them, with their flags above it. */
  ghost function Cword(open: seq<Token>): int
    requires |open| <= 31
  {
    Pow2(31 - |open|) * (1 + 2 * (Flags(open, 0) - TOP))
  }

  lemma {:induction false} Pow2Product(a: nat, b: nat)
    ensures Pow2(a) * Pow2(b) == Pow2(a + b)
  {
    if a > 0 {
      Pow2Product(a - 1, b);
      assert 2 * Pow2(a - 1) * Pow2(b) == 2 * (Pow2(a - 1) * Pow2(b));
    }
  }

  lemma Distribute(p: int, x: int, q: int)
    ensures p * (x + q) == p * x + p * q
  {
  }

  /** Shifting in a flag at the top. */
  lemma CwordSnoc(open: seq<Token>, t: Token)
    requires |open| < 31
    ensures Cword(open) % 2 == 0
    ensures Cword(open + [t]) == Cword(open) / 2 + if t.Copy? then TOP else 0
  {
    hide Flags, Pow2;
    var k := |open|;
    var x := 1 + 2 * (Flags(open, 0) - TOP);
    FlagsSnoc(open, 0, t);
    Pow2Product(30 - k, k + 1);
    Pow2Of31();
    Pow2Next(30 - k);
    Pow2Next(k);
    DoubleOut(Pow2(30 - k), x);
    Distribute(Pow2(30 - k), x, Pow2(k + 1));
  }

  lemma DoubleOut(p: int, x: int)
    ensures 2 * p * x % 2 == 0 && 2 * p * x / 2 == p * x
  {
    assert 2 * p * x == 2 * (p * x);
  }

  lemma CwordFull(open: seq<Token>)
    requires |open| == 31
    ensures Cword(open) % 2 == 1 && Cword(open) / 2 + TOP == Flags(open, 0)
  {
    hide Flags;
    assert Pow2(0) == 1;
  }

  lemma CwordStart()
    ensures Cword([]) == TOP
  {
    Pow2Of31();
    FlagsOfNone(0);
  }

  lemma {:induction false} FlagsOfNone(j: nat)
    requires j <= 31
    ensures Flags([], j) == Pow2(31 - j)
    decreases 31 - j
  {
    if j < 31 {
      FlagsOfNone(j + 1);
    }
  }

  // ---------- the compressor's buffer ----------

  /**
   What the destination holds after src bytes of the source: `closed`, whole groups of 31 tokens
   behind their control words; then at cptr room for the control word of the group being filled,
   and the bytes of that group's tokens, `open`.
   */
  ghost predicate Packing(source: seq<byte>, buf: seq<byte>, closed: seq<Token>, open: seq<Token>,
                          src: nat, cptr: nat, cword: nat) {
    && src <= |source| && |open| <= 31 && |closed| % 31 == 0 && cptr + CWORD_LEN <= |buf|
    && AllEncodable(closed) && AllEncodable(open)
    && buf[..cptr] == Stream(closed, 31) && buf[cptr + CWORD_LEN..] == Stream(open, 0)
    && cword == Cword(open)
    && Reaches(closed + open, 0, src, |source|) && Expand([], closed + open) == source[..src]
  }

  ghost function Flag(t: Token): nat { if t.Copy? then TOP else 0 }

  lemma PackStart(source: seq<byte>, buf: seq<byte>)
    requires |buf| == CWORD_LEN
    ensures Packing(source, buf, [], [], 0, 0, TOP)
  {
    CwordStart();
    assert buf[4..] == [];
    NoTokens();
  }

  lemma NoTokens()
    ensures forall ts: seq<Token> :: ts + [] == ts
  {
  }

  lemma PackToken(source: seq<byte>, buf: seq<byte>, closed: seq<Token>, open: seq<Token>, src: nat, cptr: nat,
                  cword: nat, t: Token)
    requires Packing(source, buf, closed, open, src, cptr, cword) && |open| < 31
    requires Allowed(t, src, |source|) && Apply(source[..src], t) == source[..src + Span(t)]
    ensures Packing(source, buf + TokenBytes(t), closed, open + [t], src + Span(t), cptr, cword / 2 + Flag(t))
  {
    hide Reaches, Expand, Stream, Cword, TokenBytes, Apply;
    ReachesSnoc(closed + open, 0, src, |source|, t);
    ExpandSnoc([], closed + open, 0, src, |source|, t);
    assert closed + open + [t] == closed + (open + [t]);
    StreamSnoc(open, 0, t);
    CwordSnoc(open, t);
    var grown := buf + TokenBytes(t);
    assert grown[..cptr] == buf[..cptr];
    assert grown[cptr + CWORD_LEN..] == buf[cptr + CWORD_LEN..] + TokenBytes(t);
  }

  lemma LiteralApplies(source: seq<byte>, src: nat)
    requires src < |source|
    ensures Apply(source[..src], Lit(source[src])) == source[..src + 1]
  {
  }

  lemma MatchApplies(source: seq<byte>, src: nat, len: nat, off: nat)
    requires Repeats(source, src, src + len, off) && src + len <= |source|
    ensures Apply(source[..src], Copy(len, off)) == source[..src + len]
  {
    CopyReproduces(source, src, off, len);
  }

  /** The lowest bit tells when the 31 flags are used up; what is then written is their word. */
  lemma PackWord(source: seq<byte>, buf: seq<byte>, closed: seq<Token>, open: seq<Token>, src: nat, cptr: nat,
                 cword: nat)
    requires Packing(source, buf, closed, open, src, cptr, cword)
    ensures cword % 2 == 1 <==> |open| == 31
    ensures |open| == 31 ==> cword / 2 + TOP == Flags(open, 0)
  {
    hide Reaches, Expand, Stream, Cword, Flags;
    if |open| == 31 {
      CwordFull(open);
    } else {
      CwordSnoc(open, Lit(0));
    }
  }

  /** With its control word written, the open group continues the stream. */
  lemma PackStream(source: seq<byte>, buf: seq<byte>, closed: seq<Token>, open: seq<Token>, src: nat, cptr: nat,
                   cword: nat)
    requires Packing(source, buf, closed, open, src, cptr, cword) && open != []
    ensures AllEncodable(closed + open)
    ensures buf[..cptr] + LE(Flags(open, 0), CWORD_LEN) + buf[cptr + CWORD_LEN..] == Stream(closed + open, 31)
  {
    hide Reaches, Expand, Cword, Flags, LE, TokenBytes;
    StreamConcat(closed, open, 31);
    Regroup(buf[..cptr], LE(Flags(open, 0), CWORD_LEN), buf[cptr + CWORD_LEN..]);
  }

  lemma PackClose(source: seq<byte>, buf: seq<byte>, closed: seq<Token>, open: seq<Token>, src: nat, cptr: nat,
                  cword: nat, hole: seq<byte>)
    requires Packing(source, buf, closed, open, src, cptr, cword) && |open| == 31 && |hole| == CWORD_LEN
    ensures var done := buf[..cptr] + LE(Flags(open, 0), CWORD_LEN) + buf[cptr + CWORD_LEN..];
            Packing(source, done + hole, closed + open, [], src, |done|, TOP)
  {
    PackStream(source, buf, closed, open, src, cptr, cword);
    CwordStart();
    EmptyStream();
    var done := buf[..cptr] + LE(Flags(open, 0), CWORD_LEN) + buf[cptr + CWORD_LEN..];
    GroupsOf31(closed, open);
    hide Reaches, Expand, Cword, Flags, LE, Stream, AllEncodable;
    NewGroup(source, done, closed + open, src, hole);
  }

  lemma GroupsOf31(closed: seq<Token>, open: seq<Token>)
    requires |closed| % 31 == 0 && |open| == 31
    ensures |closed + open| % 31 == 0
  {
  }

  lemma NewGroup(source: seq<byte>, done: seq<byte>, closed: seq<Token>, src: nat, hole: seq<byte>)
    requires src <= |source| && |closed| % 31 == 0 && AllEncodable(closed) && |hole| == CWORD_LEN
    requires done == Stream(closed, 31) && Stream([], 0) == [] && Cword([]) == TOP
    requires Reaches(closed, 0, src, |source|) && Expand([], closed) == source[..src]
    ensures Packing(source, done + hole, closed, [], src, |done|, TOP)
  {
    hide Reaches, Expand, Cword, Stream, AllEncodable;
    assert (done + hole)[..|done|] == done;
    assert (done + hole)[|done| + CWORD_LEN..] == [];
    assert closed + [] == closed;
    NoneEncodable();
  }

  lemma NoneEncodable()
    ensures AllEncodable([])
  {
  }

  lemma EmptyStream()
    ensures Stream([], 0) == []
  {
  }

  /** The whole source is packed: the decompressor gets it back, whatever bytes come after. */
  lemma PackDecodes(source: seq<byte>, buf: seq<byte>, closed: seq<Token>, open: seq<Token>, cptr: nat, cword: nat,
                    pad: seq<byte>)
    requires Packing(source, buf, closed, open, |source|, cptr, cword) && open != []
    requires |source| < UI32 && |source| + |pad| >= 4
    ensures var done := buf[..cptr] + LE(Flags(open, 0), CWORD_LEN) + buf[cptr + CWORD_LEN..];
            Turn(|source|, done + pad, 1, []) == Done(source)
  {
    PackStream(source, buf, closed, open, |source|, cptr, cword);
    FlagsNone(closed + open);
    hide Reaches, Expand, Cword, Flags, LE, Stream, Turn, Valid;
    ReachesValid(closed + open, 0, |source|);
    assert source[..|source|] == source;
    StreamDecodes(closed + open, 31, [], pad, |source|);
  }

  // ---------- how much is written ----------

  /** A group starts after at least one source byte for each token before it; control words cost
      four bytes for every 31 tokens, and a token costs at most the bytes it covers and at most four. */
  ghost predicate Cost(before: nat, gstart: nat, n: nat, src: nat, cptr: nat, dst: nat) {
    && before <= gstart && gstart + n <= src && 31 * cptr <= 31 * gstart + 4 * before
    && dst <= cptr + CWORD_LEN + (src - gstart) && dst <= cptr + CWORD_LEN + 4 * n
  }

  lemma CostCloses(size: nat, before: nat, gstart: nat, src: nat, cptr: nat, dst: nat)
    requires Cost(before, gstart, 31, src, cptr, dst)
    ensures Cost(before + 31, src, 0, src, dst, dst + CWORD_LEN)
    ensures src <= size / 2 ==> dst <= size
  {
  }

  lemma TokenCost(t: Token)
    requires t.Copy? ==> Encodable(t.len, t.off)
    ensures 1 <= |TokenBytes(t)| <= Span(t) && |TokenBytes(t)| <= 4
  {
    if t.Copy? {
      ReadMatchUndoes(t.len, t.off, 0);
    }
  }

  // ---------- the state ----------

  /** Sixteen earlier positions for each hash value, and an 8-bit count of the insertions. */
  class CompressState {
    const counter: array<byte>
    const offset: array2<nat>

    constructor ()
      ensures Valid() && fresh(counter) && fresh(offset)
    {
      counter := new byte[HASH_VALUES](_ => 0);
      offset := new nat[HASH_VALUES, POINTERS]((_, _) => 0);
    }

    ghost predicate Valid() {
      counter.Length == HASH_VALUES && offset.Length0 == HASH_VALUES && offset.Length1 == POINTERS
    }

    /** The n positions passed have been entered: each hash value's count is theirs modulo 256, and its
        slots hold the last sixteen of them. */
    ghost predicate Holds(source: seq<byte>, n: nat)
      requires Valid() && (n == 0 || n + 2 <= |source|)
      reads counter, offset
    {
      forall h | 0 <= h < HASH_VALUES :: Row(h, History(source, n, h))
    }

    ghost predicate Row(h: nat, past: seq<nat>)
      requires Valid() && h < HASH_VALUES
      reads counter, offset
    {
      counter[h] == |past| % 256 && forall i | 0 <= i < |past| <= i + POINTERS :: offset[h, i % POINTERS] == past[i]
    }

    /** reset_table_compress forgets everything, but leaves the positions of an earlier call. */
    method Reset(ghost source: seq<byte>)
      requires Valid()
      modifies counter
      ensures Holds(source, 0)
    {
      var i := 0;
      while i < HASH_VALUES
        invariant i <= HASH_VALUES && forall h | 0 <= h < i :: counter[h] == 0
      {
        counter[i] := 0;
        i := i + 1;
      }
    }

    /** Position n is entered, in the slot of the oldest of the sixteen. */
    method Insert(h: nat, n: nat, ghost source: seq<byte>)
      requires Valid() && n + 3 <= |source| && h == HashAt(source, n) && Holds(source, n)
      modifies counter, offset
      ensures Holds(source, n + 1)
    {
      hide HashAt, History;
      var c := counter[h];
      ghost var past := History(source, n, h);
      Slots(|past|);
      offset[h, c % POINTERS] := n;
      counter[h] := (c + 1) % 256;
      ghost var next := n + 1;
      forall g | 0 <= g < HASH_VALUES
        ensures Row(g, History(source, next, g))
      {
        HistoryNext(source, n, g);
      }
    }
  }

  lemma Slots(n: nat)
    ensures n % 256 % POINTERS == n % POINTERS && (n % 256 + 1) % 256 == (n + 1) % 256
    ensures forall i: nat | i < n < i + POINTERS :: i % POINTERS != n % POINTERS
  {
  }

  lemma HistoryNext(source: seq<byte>, n: nat, h: nat)
    requires n + 3 <= |source|
    ensures History(source, n + 1, h) == History(source, n, h) + if HashAt(source, n) == h then [n] else []
  {
    hide HashAt;
  }

  // ---------- looking for a match ----------

  method Lengthen(source: seq<byte>, src: nat, o: nat, m0: nat, remaining: nat) returns (m: nat)
    requires MatchAt(source, src, o, m0) && m0 <= remaining && src + remaining + UNCOMPRESSED_END <= |source|
    requires remaining == 255 || (remaining < 255 && src + remaining + UNCOMPRESSED_END == |source|)
    ensures m0 <= m <= remaining && MatchAt(source, src, o, m) && Longest(source, src, o, m)
  {
    m := m0;
    while source[o + m] == source[src + m] && m < remaining
      invariant m0 <= m <= remaining && MatchAt(source, src, o, m)
      decreases remaining - m
    {
      m := m + 1;
    }
  }

  /** The longest match among the positions remembered for the hash value of the next three bytes, the
      nearest of equally long ones; then the position is entered itself. */
  method FindMatch(source: seq<byte>, src: nat, state: CompressState) returns (o: nat, len: nat)
    requires src + MATCH_MARGIN <= |source| && state.Valid() && state.Holds(source, src)
    modifies state.counter, state.offset
    ensures state.Holds(source, src + 1)
    ensures Finds(source, src, o, len) && (len == 0 || MatchAt(source, src, o, len))
  {
    hide HashAt, History, Best, MatchAt, Longest;
    var rest := |source| - UNCOMPRESSED_END - src;
    var remaining := if rest > 255 then 255 else rest;
    var hash := HashAt(source, src);
    var c := state.counter[hash];
    ghost var past := History(source, src, hash);
    o, len := state.offset[hash, 0], 0;
    BestNone(source, src, past, o);
    ghost var first: nat := 0;
    if c > 0 {
      first := SlotEarlier(source, src, hash, state, 0);
    }
    if o + MINOFFSET < src && c > 0 && Same3(source, o, src) {
      MatchAtThree(source, src, o);
      len := 3;
      if source[o + len] == source[src + len] {
        MatchFour(source, src, o);
        len := Lengthen(source, src, o, 4, remaining);
      } else {
        StopsAtThree(source, src, o);
      }
    }
    if c > 0 {
      MatchAtThree(source, src, past[first]);
      BestAdds(source, src, past, 0, o, 0, first, len);
    }
    var k := 1;
    while k < POINTERS && c > k
      invariant 1 <= k <= POINTERS && (k <= c || k == 1) && (len == 0 || MatchAt(source, src, o, len))
      invariant Best(source, src, past, if k <= c then k else 0, o, len)
      invariant state.counter[hash] == c && state.Holds(source, src)
    {
      var p := state.offset[hash, k];
      ghost var i := SlotEarlier(source, src, hash, state, k);
      MatchAtThree(source, src, p);
      ghost var o0, len0, found: nat := o, len, 0;
      if Same3(source, p, src) && p + MINOFFSET < src {
        var m := Lengthen(source, src, p, 3, remaining);
        found := m;
        if m > len || (m == len && p > o) {
          o, len := p, m;
        }
      }
      BestAdds(source, src, past, k, o0, len0, i, found);
      k := k + 1;
    }
    if c >= POINTERS {
      BestAll(source, src, past, c, o, len);
    }
    state.Insert(hash, src, source);
  }

  /** A slot that the count allows to be read holds an earlier position. */
  lemma SlotEarlier(source: seq<byte>, src: nat, h: nat, state: CompressState, k: nat) returns (i: nat)
    requires src + 2 <= |source| && state.Valid() && state.Holds(source, src) && h < HASH_VALUES
    requires k < POINTERS && k < state.counter[h]
    ensures var past := History(source, src, h);
            i < |past| <= i + POINTERS && i % POINTERS == k && past[i] == state.offset[h, k] < src
  {
    hide HashAt, History;
    var past := History(source, src, h);
    i := InSlot(past, k);
    HistoryHas(source, src, h);
    assert state.Row(h, past);
  }

  lemma StopsAtThree(source: seq<byte>, src: nat, o: nat)
    requires src + MATCH_MARGIN <= |source| && MatchAt(source, src, o, 3) && source[o + 3] != source[src + 3]
    ensures Longest(source, src, o, 3)
  {
  }

  lemma MatchFour(source: seq<byte>, src: nat, o: nat)
    requires src + MATCH_MARGIN <= |source| && MatchAt(source, src, o, 3) && source[o + 3] == source[src + 3]
    ensures MatchAt(source, src, o, 4)
  {
  }

  /** Every position inside a match is entered. */
  method InsertInside(source: seq<byte>, src: nat, len: nat, state: CompressState)
    requires 1 <= len && src + len + UNCOMPRESSED_END <= |source| && state.Valid() && state.Holds(source, src + 1)
    modifies state.counter, state.offset
    ensures state.Holds(source, src + len)
  {
    var u := 1;
    while u < len
      invariant 1 <= u <= len && state.Holds(source, src + u)
    {
      state.Insert(HashAt(source, src + u), src + u, source);
      u := u + 1;
    }
  }

  // ---------- writing ----------

  lemma FewBytes(f: nat)
    ensures LE(f, 1) == [f % 256] && LE(f, 2) == [f % 256, f / 256 % 256]
    ensures LE(f, 3) == [f % 256, f / 256 % 256, f / 256 / 256 % 256]
    ensures LE(f, 4) == [f % 256, f / 256 % 256, f / 256 / 256 % 256, f / 256 / 256 / 256 % 256]
  {
    assert LE(f / 256 / 256 / 256, 1) == [f / 256 / 256 / 256 % 256] + [];
    assert LE(f / 256 / 256, 2) == [f / 256 / 256 % 256] + LE(f / 256 / 256 / 256, 1);
  }

  /** fast_write: little-endian, byte by byte. */
  method FastWrite(f: nat, dest: array<byte>, at: nat, n: nat)
    requires 1 <= n <= 4 && at + n <= dest.Length
    modifies dest
    ensures dest[..] == Splice(old(dest[..]), at, LE(f, n))
  {
    FewBytes(f);
    hide LE;
    dest[at] := f % 256;
    if n >= 2 { dest[at + 1] := f / 256 % 256; }
    if n >= 3 { dest[at + 2] := f / 256 / 256 % 256; }
    if n == 4 { dest[at + 3] := f / 256 / 256 / 256 % 256; }
  }

  lemma Overwritten(s: seq<byte>, at: nat, word: seq<byte>)
    requires at + |word| <= |s|
    ensures Splice(s, at, word)[..at + |word|] == s[..at] + word
  {
  }

  lemma MatchToken(len: nat, off: nat)
    requires Encodable(len, off)
    ensures var (f, n) := MatchWord(len, off);
            TokenBytes(Copy(len, off)) == LE(f, n)
  {
    hide LE;
  }

  /** One match in one of the five formats. */
  method PutMatch(dest: array<byte>, dst: nat, len: nat, offset: nat) returns (next: nat)
    requires Encodable(len, offset) && dst + 4 <= dest.Length
    modifies dest
    ensures dst < next <= dst + 4 && dest[..next] == old(dest[..dst]) + TokenBytes(Copy(len, offset))
  {
    hide LE, TokenBytes, Splice;
    MatchToken(len, offset);
    if len == 3 && offset <= 63 {
      OneByte(offset * 4);
      dest[dst] := offset * 4;
      next := dst + 1;
    } else if len == 3 && offset <= 16383 {
      Overwritten(dest[..], dst, LE(offset * 4 + 1, 2));
      FastWrite(offset * 4 + 1, dest, dst, 2);
      next := dst + 2;
    } else if len <= 18 && offset <= 1023 {
      Overwritten(dest[..], dst, LE((len - 3) * 4 + offset * 64 + 2, 2));
      FastWrite((len - 3) * 4 + offset * 64 + 2, dest, dst, 2);
      next := dst + 2;
    } else if len <= 33 {
      Overwritten(dest[..], dst, LE((len - 2) * 4 + offset * 128 + 3, 3));
      FastWrite((len - 2) * 4 + offset * 128 + 3, dest, dst, 3);
      next := dst + 3;
    } else {
      Overwritten(dest[..], dst, LE((len - 3) * 128 + offset * 32768 + 3, 4));
      FastWrite((len - 3) * 128 + offset * 32768 + 3, dest, dst, 4);
      next := dst + 4;
    }
  }

  lemma OneByte(f: nat)
    requires f < 256
    ensures LE(f, 1) == [f]
  {
  }

  // ---------- the main loop ----------

  /** The destination so far, and what it cost. */
  ghost predicate Working(source: seq<byte>, buf: seq<byte>, closed: seq<Token>, open: seq<Token>, gstart: nat,
                          src: nat, cptr: nat, cword: nat) {
    && Packing(source, buf, closed, open, src, cptr, cword)
    && Cost(|closed|, gstart, |open|, src, cptr, |buf|)
  }

  lemma WorkToken(source: seq<byte>, buf: seq<byte>, closed: seq<Token>, open: seq<Token>, gstart: nat, src: nat,
                  cptr: nat, cword: nat, t: Token)
    requires Working(source, buf, closed, open, gstart, src, cptr, cword) && |open| < 31
    requires Allowed(t, src, |source|) && Apply(source[..src], t) == source[..src + Span(t)]
    ensures Working(source, buf + TokenBytes(t), closed, open + [t], gstart, src + Span(t), cptr, cword / 2 + Flag(t))
  {
    PackToken(source, buf, closed, open, src, cptr, cword, t);
    TokenCost(t);
    hide Packing, TokenBytes, Apply;
  }

  lemma GroupWord(source: seq<byte>, buf: seq<byte>, closed: seq<Token>, open: seq<Token>, gstart: nat, src: nat,
                  cptr: nat, cword: nat)
    requires Working(source, buf, closed, open, gstart, src, cptr, cword)
    ensures cptr + CWORD_LEN <= |buf| && (cword % 2 == 1 <==> |open| == 31)
    ensures |open| == 31 ==> cword / 2 + TOP == Flags(open, 0)
  {
    hide Cost, Flags, Cword;
    PackWord(source, buf, closed, open, src, cptr, cword);
  }

  lemma Room(source: seq<byte>, buf: seq<byte>, closed: seq<Token>, open: seq<Token>, src: nat, cptr: nat, cword: nat)
    requires Packing(source, buf, closed, open, src, cptr, cword)
    ensures cptr + CWORD_LEN <= |buf|
  {
  }

  lemma GroupCloses(source: seq<byte>, buf: seq<byte>, closed: seq<Token>, open: seq<Token>, gstart: nat, src: nat,
                    cptr: nat, cword: nat, hole: seq<byte>)
    requires Working(source, buf, closed, open, gstart, src, cptr, cword) && |open| == 31 && |hole| == CWORD_LEN
    ensures Working(source, buf[..cptr] + LE(Flags(open, 0), CWORD_LEN) + buf[cptr + CWORD_LEN..] + hole,
                    closed + open, [], src, src, |buf|, TOP)
    ensures src <= |source| / 2 ==> |buf| <= |source|
  {
    hide Packing, LE, Flags;
    Room(source, buf, closed, open, src, cptr, cword);
    PackClose(source, buf, closed, open, src, cptr, cword, hole);
    CostCloses(|source|, |closed|, gstart, src, cptr, |buf|);
  }

  /** The control word of a full group goes where room was left for it, and room is left for the next. */
  method NextGroup(source: seq<byte>, dest: array<byte>, base: nat, src: nat, cptr: nat, dst: nat, cword: nat,
                   ghost closed: seq<Token>, ghost open: seq<Token>, ghost gstart: nat)
    requires base + cptr <= dst && dst + CWORD_LEN <= dest.Length
    requires Working(source, dest[base..dst], closed, open, gstart, src, cptr, cword) && |open| == 31
    modifies dest
    ensures dest[..base] == old(dest[..base])
    ensures Working(source, dest[base..dst + CWORD_LEN], closed + open, [], src, src, dst - base, TOP)
    ensures src <= |source| / 2 ==> dst - base <= |source|
  {
    hide Working, LE, Flags, Splice;
    GroupWord(source, dest[base..dst], closed, open, gstart, src, cptr, cword);
    ghost var before, word := dest[..], LE(Flags(open, 0), CWORD_LEN);
    FastWrite(cword / 2 + TOP, dest, base + cptr, CWORD_LEN);
    Patched(before, base, cptr, dst, dst + CWORD_LEN, word);
    ghost var hole := dest[..][dst..dst + CWORD_LEN];
    GroupCloses(source, before[base..dst], closed, open, gstart, src, cptr, cword, hole);
  }

  lemma Patched(before: seq<byte>, base: nat, cptr: nat, dst: nat, end: nat, word: seq<byte>)
    requires |word| == CWORD_LEN && base + cptr + CWORD_LEN <= dst <= end <= |before|
    ensures var after := Splice(before, base + cptr, word);
            var buf := before[base..dst];
            && after[..base] == before[..base]
            && after[base..end] == buf[..cptr] + word + buf[cptr + CWORD_LEN..] + after[dst..end]
  {
    var after := Splice(before, base + cptr, word);
    var buf := before[base..dst];
    var next := buf[..cptr] + word + buf[cptr + CWORD_LEN..] + after[dst..end];
    assert |next| == end - base;
    forall i | 0 <= i < |next|
      ensures next[i] == after[base..end][i]
    {
      assert i < cptr ==> next[i] == before[base + i];
      assert cptr + CWORD_LEN <= i < dst - base ==> next[i] == before[base + i] && after[base + i] == before[base + i];
    }
  }

  /** One literal. */
  method PutLiteral(source: seq<byte>, dest: array<byte>, base: nat, src: nat, cptr: nat, dst: nat, cword: nat,
                    ghost closed: seq<Token>, ghost open: seq<Token>, ghost gstart: nat)
    requires src < |source| && base <= dst < dest.Length && |open| < 31
    requires Working(source, dest[base..dst], closed, open, gstart, src, cptr, cword)
    modifies dest
    ensures dest[..base] == old(dest[..base])
    ensures Working(source, dest[base..dst + 1], closed, open + [Lit(source[src])], gstart, src + 1, cptr, cword / 2)
  {
    hide Working, Apply, TokenBytes;
    ghost var t, buf := Lit(source[src]), dest[base..dst];
    LiteralApplies(source, src);
    LiteralToken(source[src]);
    WorkToken(source, buf, closed, open, gstart, src, cptr, cword, t);
    dest[dst] := source[src];
    assert dest[base..dst + 1] == buf + [source[src]];
  }

  lemma LiteralToken(b: byte)
    ensures TokenBytes(Lit(b)) == [b]
  {
  }

  /** The literals after the last match start. */
  method PutTail(source: seq<byte>, dest: array<byte>, base: nat, src0: nat, cptr0: nat, dst0: nat, cword0: nat,
                 ghost closed0: seq<Token>, ghost open0: seq<Token>, ghost gstart0: nat)
    returns (cptr: nat, dst: nat, cword: nat, ghost closed: seq<Token>, ghost open: seq<Token>, ghost gstart: nat)
    requires |source| < src0 + MATCH_MARGIN && base <= dst0 && base + |source| + 142 <= dest.Length
    requires dst0 <= dest.Length && Working(source, dest[base..dst0], closed0, open0, gstart0, src0, cptr0, cword0)
    requires cptr0 <= |source| && (src0 == |source| ==> open0 != [])
    requires Selected(source, closed0 + open0, src0) && ShortEnough(source, closed0)
    modifies dest
    ensures dest[..base] == old(dest[..base])
    ensures base <= dst <= dest.Length && dst - base <= |source| + 142 && (source != [] ==> open != [])
    ensures Working(source, dest[base..dst], closed, open, gstart, |source|, cptr, cword)
    ensures Selected(source, closed + open, |source|) && ShortEnough(source, closed + open)
  {
    hide Working, Flags, Selected, ShortEnough, Takes, TooLong;
    var src := src0;
    cptr, dst, cword, closed, open, gstart := cptr0, dst0, cword0, closed0, open0, gstart0;
    InBounds(source, dest[base..dst], closed, open, gstart, src, cptr, cword);
    while src < |source|
      invariant src0 <= src <= |source| && base <= dst <= dest.Length && dest[..base] == old(dest[..base])
      invariant Working(source, dest[base..dst], closed, open, gstart, src, cptr, cword)
      invariant cptr <= |source| || (src0 <= gstart && cptr <= |source| + 128)
      invariant src == |source| ==> open != []
      invariant Selected(source, closed + open, src) && ShortEnough(source, closed)
    {
      GroupWord(source, dest[base..dst], closed, open, gstart, src, cptr, cword);
      InBounds(source, dest[base..dst], closed, open, gstart, src, cptr, cword);
      if cword % 2 == 1 {
        StreamLength(source, dest[base..dst], closed, open, gstart, src, cptr, cword);
        NotTooLong(source, closed + open, src);
        GroupDone(source, closed, open);
        NextGroup(source, dest, base, src, cptr, dst, cword, closed, open, gstart);
        cptr, dst, cword := dst - base, dst + CWORD_LEN, TOP;
        assert closed + open == closed + open + [];
        closed, open, gstart := closed + open, [], src;
      }
      PutLiteral(source, dest, base, src, cptr, dst, cword, closed, open, gstart);
      TakesLiteral(source, src);
      SelectedOn(source, closed, open, src, Lit(source[src]));
      src, dst, cword, open := src + 1, dst + 1, cword / 2, open + [Lit(source[src])];
    }
    InBounds(source, dest[base..dst], closed, open, gstart, src, cptr, cword);
    Groups(source, dest[base..dst], closed, open, gstart, src, cptr, cword);
    NotTooLong(source, closed + open, src);
    GroupDone(source, closed, open);
  }

  lemma Groups(source: seq<byte>, buf: seq<byte>, closed: seq<Token>, open: seq<Token>, gstart: nat, src: nat,
               cptr: nat, cword: nat)
    requires Working(source, buf, closed, open, gstart, src, cptr, cword)
    ensures |closed| % 31 == 0 && |open| <= 31
  {
    hide Reaches, Expand, Cword, Stream, AllEncodable, Cost;
  }

  /** The open group costs at most 4 + 31 * 4 bytes, and no more than what it covers. */
  lemma InBounds(source: seq<byte>, buf: seq<byte>, closed: seq<Token>, open: seq<Token>, gstart: nat, src: nat,
                 cptr: nat, cword: nat)
    requires Working(source, buf, closed, open, gstart, src, cptr, cword)
    ensures src <= |source| && |open| <= 31 && gstart + |open| <= src
    ensures |buf| <= cptr + CWORD_LEN + 4 * |open| && |buf| <= cptr + CWORD_LEN + (src - gstart)
    ensures 31 * |buf| <= 35 * src + 124
  {
    hide Stream, Cword, Reaches, Expand;
  }

  /** The tokens are the ones the search determines, and cover the source up to src. */
  ghost predicate Selected(source: seq<byte>, ts: seq<Token>, src: nat) {
    Chosen(source, ts) && Covered(ts) == src
  }

  lemma SelectedOn(source: seq<byte>, closed: seq<Token>, open: seq<Token>, src: nat, t: Token)
    requires Selected(source, closed + open, src) && Takes(source, src, t)
    ensures Selected(source, closed + (open + [t]), src + Span(t))
  {
    hide Takes, Chosen, Covered;
    ChosenSnoc(source, closed + open, t);
    CoveredSnoc(closed + open, t);
    assert closed + (open + [t]) == closed + open + [t];
  }

  lemma TakesFound(source: seq<byte>, src: nat, o: nat, len: nat)
    requires src + MATCH_MARGIN <= |source| && Finds(source, src, o, len)
    ensures Takes(source, src, TokenFor(source, src, o, len))
  {
    hide Finds, TokenFor;
  }

  lemma TakesLiteral(source: seq<byte>, src: nat)
    requires src < |source| < src + MATCH_MARGIN
    ensures Takes(source, src, Lit(source[src]))
  {
  }

  /** After more than half of the source whole groups of tokens take more than 31 bytes for every 32. */
  ghost predicate TooLong(source: seq<byte>, ts: seq<Token>) {
    && AllEncodable(ts) && ts != [] && |ts| % 31 == 0
    && var p := Covered(ts);
       p + MATCH_MARGIN <= |source| && p > |source| / 2 && |Stream(ts, 31)| > p - p / 32
  }

  ghost predicate ShortEnough(source: seq<byte>, ts: seq<Token>) {
    forall k | 0 < k <= |ts| :: !TooLong(source, ts[..k])
  }

  lemma GroupDone(source: seq<byte>, closed: seq<Token>, open: seq<Token>)
    requires ShortEnough(source, closed) && |closed| % 31 == 0 && |open| <= 31
    requires !TooLong(source, closed + open)
    ensures ShortEnough(source, closed + open)
  {
    hide TooLong;
    var ts := closed + open;
    forall k | 0 < k <= |ts|
      ensures !TooLong(source, ts[..k])
    {
      if k <= |closed| {
        assert ts[..k] == closed[..k];
      } else if k == |ts| {
        assert ts[..k] == ts;
      } else {
        OddLength(source, ts[..k]);
      }
    }
  }

  /** Giving up is determined too: no source has both outcomes. */
  lemma GivesUpOrNot(source: seq<byte>, a: seq<Token>, b: seq<Token>)
    requires Chosen(source, a) && TooLong(source, a) && Chosen(source, b) && Covered(b) == |source|
    ensures !ShortEnough(source, b)
  {
    hide Chosen, Stream, AllEncodable;
    if |b| < |a| {
      OneChoice(source, a, b, |b|);
      assert b[..|b|] == b;
      CoveredPrefix(a, |b|);
      assert false;
    }
    OneChoice(source, a, b, |a|);
    assert a[..|a|] == a;
    assert TooLong(source, b[..|a|]);
  }

  lemma {:induction false} CoveredPrefix(ts: seq<Token>, k: nat)
    requires k <= |ts|
    ensures Covered(ts[..k]) <= Covered(ts)
  {
    if k < |ts| {
      var init := ts[..|ts| - 1];
      assert init[..k] == ts[..k];
      CoveredPrefix(init, k);
    } else {
      assert ts[..k] == ts;
    }
  }

  lemma OddLength(source: seq<byte>, ts: seq<Token>)
    requires |ts| % 31 != 0
    ensures !TooLong(source, ts)
  {
  }

  /** What has been written so far is as long as the stream of its tokens. */
  lemma StreamLength(source: seq<byte>, buf: seq<byte>, closed: seq<Token>, open: seq<Token>, gstart: nat, src: nat,
                     cptr: nat, cword: nat)
    requires Working(source, buf, closed, open, gstart, src, cptr, cword) && |open| == 31
    ensures AllEncodable(closed + open) && |Stream(closed + open, 31)| == |buf|
    ensures |closed + open| % 31 == 0 && |closed| % 31 == 0
  {
    hide Reaches, Expand, Cword, Flags, LE, Stream, AllEncodable, Cost;
    PackStream(source, buf, closed, open, src, cptr, cword);
    GroupsOf31(closed, open);
  }

  lemma NotTooLong(source: seq<byte>, ts: seq<Token>, src: nat)
    requires Selected(source, ts, src) && |source| < src + MATCH_MARGIN
    ensures !TooLong(source, ts)
  {
    hide Chosen, Covered, Stream, AllEncodable;
  }

  /** One token of the main loop: the match that was found, or one literal. */
  method PutToken(source: seq<byte>, dest: array<byte>, state: CompressState, base: nat, src0: nat, cptr: nat,
                  dst0: nat, cword0: nat, ghost closed: seq<Token>, ghost open0: seq<Token>, ghost gstart: nat)
    returns (src: nat, dst: nat, cword: nat, ghost open: seq<Token>)
    requires src0 + MATCH_MARGIN <= |source| && base <= dst0 && dst0 + 4 <= dest.Length && |open0| < 31
    requires Working(source, dest[base..dst0], closed, open0, gstart, src0, cptr, cword0)
    requires state.Valid() && state.Holds(source, src0) && state.counter != dest
    requires Selected(source, closed + open0, src0)
    modifies dest, state.counter, state.offset
    ensures dest[..base] == old(dest[..base]) && src0 < src <= |source| - 2 && dst0 < dst <= dst0 + 4 && open != []
    ensures Working(source, dest[base..dst], closed, open, gstart, src, cptr, cword) && state.Holds(source, src)
    ensures Selected(source, closed + open, src)
  {
    hide Working, TokenBytes, Apply, Splice, Same3, HashAt, Repeats, Finds, Selected;
    var o, len := FindMatch(source, src0, state);
    TakesFound(source, src0, o, len);
    SelectedOn(source, closed, open0, src0, TokenFor(source, src0, o, len));
    if len > 2 && src0 - o < MAX_OFFSET {
      InsertInside(source, src0, len, state);
      ghost var t := Copy(len, src0 - o);
      ghost var buf := dest[base..dst0];
      MatchApplies(source, src0, len, src0 - o);
      WorkToken(source, buf, closed, open0, gstart, src0, cptr, cword0, t);
      dst := PutMatch(dest, dst0, len, src0 - o);
      Appended(old(dest[..]), dest[..], base, dst0, dst, TokenBytes(t));
      src, cword, open := src0 + len, cword0 / 2 + TOP, open0 + [t];
    } else {
      PutLiteral(source, dest, base, src0, cptr, dst0, cword0, closed, open0, gstart);
      src, dst, cword, open := src0 + 1, dst0 + 1, cword0 / 2, open0 + [Lit(source[src0])];
    }
  }

  lemma Appended(before: seq<byte>, after: seq<byte>, base: nat, dst0: nat, dst: nat, bytes: seq<byte>)
    requires base <= dst0 <= dst <= |after| == |before| && after[..dst] == before[..dst0] + bytes
    ensures after[base..dst] == before[base..dst0] + bytes && after[..base] == before[..base]
  {
    assert after[base..dst] == after[..dst][base..];
    assert after[..base] == after[..dst][..base];
  }

  /** Once the markers of the unused flags are shifted out, the control word is that of the flags. */
  method LastWord(cword0: nat, ghost open: seq<Token>) returns (word: nat)
    requires |open| <= 31 && cword0 == Cword(open)
    ensures word == Flags(open, 0)
  {
    hide Flags, Pow2;
    FlagsWord(open);
    var cword: nat := cword0;
    ghost var x: nat := 1 + 2 * (Flags(open, 0) - TOP);
    ghost var m: nat := 31 - |open|;
    Shifted(cword, m, x);
    while cword % 2 != 1
      invariant x > 0 && cword == Pow2(m) * x
      invariant cword % 2 == 1 <==> m == 0
      decreases m
    {
      Shifted(cword, m, x);
      cword, m := cword / 2, m - 1;
      Shifted(cword, m, x);
    }
    NoShift(x);
    word := cword / 2 + TOP;
  }

  lemma FlagsWord(open: seq<Token>)
    ensures TOP <= Flags(open, 0) < UI32
  {
    FlagsBound(open, 0);
    Pow2Of31();
  }

  lemma Shifted(cword: nat, m: nat, x: nat)
    requires x % 2 == 1 && cword == Pow2(m) * x
    ensures cword % 2 == 1 <==> m == 0
    ensures m > 0 ==> cword / 2 == Pow2(m - 1) * x
  {
    hide Pow2;
    if m == 0 {
      NoShift(x);
    } else {
      Pow2Next(m - 1);
      DoubleOut(Pow2(m - 1), x);
    }
  }

  lemma NoShift(x: int)
    ensures Pow2(0) * x == x
  {
  }

  /** Writes the last control word; a result shorter than nine bytes is counted as nine. */
  method Finish(source: seq<byte>, dest: array<byte>, base: nat, cptr: nat, dst: nat, cword: nat,
                ghost closed: seq<Token>, ghost open: seq<Token>, ghost gstart: nat)
    returns (r: nat)
    requires 0 < |source| < UI32 && base <= dst <= dest.Length && base + 9 <= dest.Length && open != []
    requires Working(source, dest[base..dst], closed, open, gstart, |source|, cptr, cword)
    modifies dest
    ensures dest[..base] == old(dest[..base]) && r == if dst - base < 9 then 9 else dst - base
    ensures Turn(|source|, dest[base..base + r], 1, []) == Done(source)
    ensures IsStream(closed + open, dest[base..base + r])
  {
    hide Packing, Cost, Flags, LE, Splice, Turn, Cword;
    GroupWord(source, dest[base..dst], closed, open, gstart, |source|, cptr, cword);
    ghost var before, w := dest[..], LE(Flags(open, 0), CWORD_LEN);
    CwordOf(source, dest[base..dst], closed, open, |source|, cptr, cword);
    var word := LastWord(cword, open);
    FastWrite(word, dest, base + cptr, CWORD_LEN);
    r := if dst - base < 9 then 9 else dst - base;
    Patched(before, base, cptr, dst, base + r, w);
    ghost var pad := dest[..][dst..base + r];
    Covers(source, before[base..dst], closed, open, gstart, |source|, cptr, cword);
    PackDecodes(source, before[base..dst], closed, open, cptr, cword, pad);
    PackStream(source, before[base..dst], closed, open, |source|, cptr, cword);
    Padded(closed + open, before[base..dst][..cptr] + w + before[base..dst][cptr + CWORD_LEN..], pad);
  }

  /** The stream of the tokens, made up to nine bytes. */
  ghost predicate IsStream(ts: seq<Token>, body: seq<byte>) {
    && AllEncodable(ts) && Stream(ts, 31) <= body
    && |body| == if |Stream(ts, 31)| < 9 then 9 else |Stream(ts, 31)|
  }

  lemma Padded(ts: seq<Token>, stream: seq<byte>, pad: seq<byte>)
    requires AllEncodable(ts) && stream == Stream(ts, 31) && |stream + pad| == if |stream| < 9 then 9 else |stream|
    ensures IsStream(ts, stream + pad)
  {
    hide Stream, AllEncodable;
  }

  lemma CwordOf(source: seq<byte>, buf: seq<byte>, closed: seq<Token>, open: seq<Token>, src: nat, cptr: nat,
                cword: nat)
    requires Packing(source, buf, closed, open, src, cptr, cword)
    ensures |open| <= 31 && cword == Cword(open)
  {
    hide Reaches, Expand, Stream, Cword;
  }

  lemma Covers(source: seq<byte>, buf: seq<byte>, closed: seq<Token>, open: seq<Token>, gstart: nat, src: nat,
               cptr: nat, cword: nat)
    requires Working(source, buf, closed, open, gstart, src, cptr, cword)
    ensures |source| >= 4 || |buf| <= 4 + |source|
  {
    hide Stream, Cword, Reaches, Expand;
  }

  /**
   qlz_compress_core.  Either it gives up at a control word because too little was gained (r == 0),
   or the decompressor turns the bytes written back into the source; they are at most 142 more than
   the source, and at most 246 if the total is to fit the one-byte header field.  The tokens are the ones
   the search determines, and giving up is too.
   */
  method CompressCore(source: seq<byte>, dest: array<byte>, base: nat, state: CompressState)
    returns (r: nat, ghost ts: seq<Token>)
    requires 0 < |source| < UI32 && base + |source| + 142 <= dest.Length
    requires state.Valid() && state.Holds(source, 0) && state.counter != dest
    modifies dest, state.counter, state.offset
    ensures dest[..base] == old(dest[..base])
    ensures if r == 0 then |source| >= 31 + MATCH_MARGIN else 9 <= r <= |source| + 142
    ensures |source| < 216 ==> r <= 246
    ensures r != 0 ==> Turn(|source|, dest[base..base + r], 1, []) == Done(source)
    ensures if r == 0 then Chosen(source, ts) && TooLong(source, ts)
            else Selected(source, ts, |source|) && ShortEnough(source, ts) && IsStream(ts, dest[base..base + r])
  {
    hide Working, Flags, Turn, Chosen, Covered, ShortEnough, IsStream, Selected, TooLong;
    var size := |source|;
    var src: nat, cptr: nat, dst: nat, cword: nat := 0, 0, base + CWORD_LEN, TOP;
    ghost var closed: seq<Token>, open: seq<Token>, gstart: nat := [], [], 0;
    WorkStart(source, dest[base..dst]);
    NothingSelected(source);
    while src + MATCH_MARGIN <= size
      invariant src <= size && cptr <= size && base <= dst <= dest.Length && dest[..base] == old(dest[..base])
      invariant src == 0 || src + 2 <= size
      invariant Working(source, dest[base..dst], closed, open, gstart, src, cptr, cword) && state.Holds(source, src)
      invariant src > 0 ==> open != []
      invariant Selected(source, closed + open, src) && ShortEnough(source, closed)
      decreases size - src
    {
      GroupWord(source, dest[base..dst], closed, open, gstart, src, cptr, cword);
      InBounds(source, dest[base..dst], closed, open, gstart, src, cptr, cword);
      if cword % 2 == 1 {
        StreamLength(source, dest[base..dst], closed, open, gstart, src, cptr, cword);
        GroupChecked(source, closed + open, src, dst - base);
        if src > size / 2 && dst - base > src - src / 32 {
          return 0, closed + open;
        }
        GroupDone(source, closed, open);
        NextGroup(source, dest, base, src, cptr, dst, cword, closed, open, gstart);
        cptr, dst, cword := dst - base, dst + CWORD_LEN, TOP;
        assert closed + open == closed + open + [];
        closed, open, gstart := closed + open, [], src;
      }
      src, dst, cword, open := PutToken(source, dest, state, base, src, cptr, dst, cword, closed, open, gstart);
      InBounds(source, dest[base..dst], closed, open, gstart, src, cptr, cword);
    }
    cptr, dst, cword, closed, open, gstart :=
      PutTail(source, dest, base, src, cptr, dst, cword, closed, open, gstart);
    InBounds(source, dest[base..dst], closed, open, gstart, size, cptr, cword);
    r := Finish(source, dest, base, cptr, dst, cword, closed, open, gstart);
    ts := closed + open;
  }

  lemma NothingSelected(source: seq<byte>)
    ensures Selected(source, [] + [], 0) && ShortEnough(source, [])
  {
  }

  lemma GroupChecked(source: seq<byte>, ts: seq<Token>, src: nat, length: nat)
    requires Selected(source, ts, src) && AllEncodable(ts) && |ts| % 31 == 0 && ts != []
    requires src + MATCH_MARGIN <= |source| && length == |Stream(ts, 31)|
    ensures Chosen(source, ts) && (TooLong(source, ts) <==> src > |source| / 2 && length > src - src / 32)
  {
    hide Chosen, Covered, Stream, AllEncodable;
  }

  lemma WorkStart(source: seq<byte>, buf: seq<byte>)
    requires |buf| == CWORD_LEN
    ensures Working(source, buf, [], [], 0, 0, 0, TOP)
  {
    hide Packing;
    PackStart(source, buf);
  }
}
