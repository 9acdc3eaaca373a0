/** qlz_compress and qlz_decompress: the packet around the token stream, and the decoder in place. */
module QuickLz {
  import opened Basics
  import opened LzCopy
  import opened QlzFormat
  import opened QlzDecoder
  import opened QlzCompressor
  import opened QlzSearch

  const QLZ_BUFFER_PADDING := 400
  const MAX_SIZE := 0xffffffff - QLZ_BUFFER_PADDING
  const MIN_PACKET := 9  // what the size readers may look at
  const LEVEL_BITS := 3 * 4 + 64

  // ---------- the header ----------

  /** The second bit of the first byte says whether the two sizes take one byte or four. */
  function Width(first: byte): nat { if first / 2 % 2 == 1 then 4 else 1 }

  function SizeHeader(packet: seq<byte>): (n: nat)
    requires |packet| >= MIN_PACKET
    ensures n == 3 || n == 9
  {
    2 * Width(packet[0]) + 1
  }

  function SizeCompressed(packet: seq<byte>): nat
    requires |packet| >= MIN_PACKET
  {
    Word(packet[1..], Width(packet[0]))
  }

  function SizeDecompressed(packet: seq<byte>): nat
    requires |packet| >= MIN_PACKET
  {
    Word(packet[1 + Width(packet[0])..], Width(packet[0]))
  }

  /** qlz_decompress: `Overrun` also stands for a packet shorter than its header says. */
  function Unpack(packet: seq<byte>): Outcome
    requires |packet| >= MIN_PACKET
  {
    var header := SizeHeader(packet);
    var size := SizeDecompressed(packet);
    if packet[0] % 2 == 1 then
      var end := SizeCompressed(packet);
      if end > |packet| then Overrun
      else Turn(size, if header <= end then packet[header..end] else [], 1, [])
    else if header + size > |packet| then Overrun
    else Done(packet[header..header + size])
  }

  function Header(compressed: bool, r: nat, size: nat): seq<byte> {
    var first := LEVEL_BITS + if compressed then 1 else 0;
    if size < 216 then [first] + LE(r, 1) + LE(size, 1)
    else [first + 2] + LE(r, 4) + LE(size, 4)
  }

  function Base(size: nat): nat { if size < 216 then 3 else 9 }

  /** The size readers return what the header was written from. */
  lemma HeaderReads(compressed: bool, r: nat, size: nat, body: seq<byte>)
    requires r < UI32 && size < UI32 && (size < 216 ==> r < 256) && Base(size) + |body| >= MIN_PACKET
    ensures |Header(compressed, r, size)| == Base(size)
    ensures var packet := Header(compressed, r, size) + body;
            && SizeHeader(packet) == Base(size) && SizeCompressed(packet) == r && SizeDecompressed(packet) == size
            && packet[0] % 2 == (if compressed then 1 else 0) && packet[Base(size)..] == body
  {
    hide LE, Word, Pow256;
    var first: byte := LEVEL_BITS + (if compressed then 1 else 0) + if size < 216 then 0 else 2;
    var n := if size < 216 then 1 else 4;
    WidthBound(n);
    ReadsBack(first, LE(r, n), LE(size, n), n, body);
    WordOfLE(r, n, LE(size, n) + body);
    WordOfLE(size, n, body);
  }

  lemma ReadsBack(first: byte, a: seq<byte>, b: seq<byte>, n: nat, body: seq<byte>)
    requires |a| == |b| == n && (n == 1 || n == 4) && 2 * n + 1 + |body| >= MIN_PACKET && Width(first) == n
    ensures var packet := [first] + a + b + body;
            && |packet| >= MIN_PACKET && packet[0] == first
            && packet[1..] == a + (b + body) && packet[1 + n..] == b + body && packet[2 * n + 1..] == body
  {
  }

  lemma WidthBound(n: nat)
    ensures n == 1 ==> Pow256(n) == 256
    ensures n == 4 ==> Pow256(n) == UI32
  {
  }

  // ---------- decompression in place ----------

  /** memcpy_up: byte by byte upwards, so that a copy may read what it has just written. */
  method CopyUp(dest: array<byte>, dst: nat, offset: nat, len: nat)
    requires 1 <= offset <= dst && dst + len <= dest.Length
    modifies dest
    ensures dest[..dst + len] == CopyFrom(old(dest[..dst]), offset, len)
  {
    var i := 0;
    while i < len
      invariant i <= len
      invariant CopyFrom(dest[..dst + i], offset, len - i) == CopyFrom(old(dest[..dst]), offset, len)
    {
      ghost var before := dest[..dst + i];
      dest[dst + i] := dest[dst + i - offset];
      i := i + 1;
      assert dest[..dst + i] == before + [before[|before| - offset]];
    }
  }

  /** What the decompressor returns, against the decoder function. */
  ghost predicate Answers(o: Outcome, r: nat, overrun: bool, dest: seq<byte>) {
    match o
    case Done(out) => !overrun && r == |out| && r <= |dest| && dest[..r] == out
    case Rejected => !overrun && r == 0
    case Overrun => overrun
  }

  /** The uncompressed end. */
  method FillEnd(s: seq<byte>, dest: array<byte>, size: nat, p0: nat, dst0: nat, cword0: nat) returns (ok: bool)
    requires p0 <= |s| && dst0 <= size <= dest.Length
    modifies dest
    ensures old(Fill(size, s[p0..], cword0, dest[..dst0])) == if ok then Done(dest[..size]) else Rejected
  {
    hide Fill;
    var p: nat, dst: nat, cword: nat := p0, dst0, cword0;
    while dst < size
      invariant p <= |s| && dst0 <= dst <= size
      invariant Fill(size, s[p..], cword, dest[..dst]) == old(Fill(size, s[p0..], cword0, dest[..dst0]))
    {
      FillTurn(size, s, p, cword, dest[..dst]);
      if cword == 1 {
        p := if p + CWORD_LEN <= |s| then p + CWORD_LEN else |s|;
        cword := TOP;
      }
      if p >= |s| {
        return false;
      }
      ghost var before := dest[..dst];
      dest[dst] := s[p];
      assert dest[..dst + 1] == before + [s[p]];
      dst, p, cword := dst + 1, p + 1, cword / 2;
    }
    FillDone(size, s[p..], cword, dest[..dst]);
    ok := true;
  }

  lemma FillTurn(size: nat, s: seq<byte>, p: nat, cword: nat, out: seq<byte>)
    requires p <= |s| && |out| < size
    ensures var q := if cword != 1 then p else if p + CWORD_LEN <= |s| then p + CWORD_LEN else |s|;
            var w := if cword == 1 then TOP else cword;
            Fill(size, s[p..], cword, out) == if q == |s| then Rejected else Fill(size, s[q + 1..], w / 2, out + [s[q]])
  {
  }

  lemma FillDone(size: nat, rest: seq<byte>, cword: nat, out: seq<byte>)
    requires |out| >= size
    ensures Fill(size, rest, cword, out) == Done(out)
  {
  }

  /** The decoder function's turn, spelled out over a position in the packet. */
  lemma TurnAt(size: nat, s: seq<byte>, p: nat, cword: nat, out: seq<byte>)
    requires p <= |s|
    ensures var q := if cword != 1 then p else p + CWORD_LEN;
            q > |s| ==> Turn(size, s[p..], cword, out) == Rejected
    ensures cword != 1 ==> Turn(size, s[p..], cword, out) == Step(size, s[p..], cword, out)
    ensures cword == 1 && p + CWORD_LEN <= |s| ==>
              Turn(size, s[p..], cword, out) == Step(size, s[p + CWORD_LEN..], Word(s[p..], CWORD_LEN), out)
  {
    hide Step, Word;
  }

  lemma StepAt(size: nat, s: seq<byte>, p: nat, cword: nat, out: seq<byte>)
    requires p <= |s|
    ensures p + 4 > |s| ==> Step(size, s[p..], cword, out) == Rejected
    ensures p + 4 <= |s| && cword % 2 == 1 ==>
              var m := ReadMatch(Word(s[p..], 4));
              Step(size, s[p..], cword, out) ==
              if m.off > |out| || m.off <= MINOFFSET || m.len > (size - |out| - UNCOMPRESSED_END) % UI32 then Rejected
              else if |out| + m.len > size then Overrun
              else Turn(size, s[p + m.size..], cword / 2, CopyFrom(out, m.off, m.len))
    ensures p + 4 <= |s| && cword % 2 == 0 ==>
              Step(size, s[p..], cword, out) ==
              if |out| + MATCH_MARGIN < size
              then var n := BITLUT[cword % 16];
                   Turn(size, s[p + n..], cword / Pow2(n), out + s[p..p + n])
              else Fill(size, s[p..], cword, out)
  {
    hide Turn, Fill, Word, ReadMatch, CopyFrom, Pow2;
    if p + 4 <= |s| {
      var n := BITLUT[cword % 16];
      assert s[p..][n..] == s[p + n..] && s[p..][..n] == s[p..p + n];
    }
  }

  /** Copies four bytes, of which the first n count. */
  method CopyFour(s: seq<byte>, p: nat, dest: array<byte>, dst: nat, n: nat)
    requires n <= 4 && p + 4 <= |s| && dst + 4 <= dest.Length
    modifies dest
    ensures dest[..dst + n] == old(dest[..dst]) + s[p..p + n]
  {
    dest[dst], dest[dst + 1], dest[dst + 2], dest[dst + 3] := s[p], s[p + 1], s[p + 2], s[p + 3];
  }

  /** One match: checked against the destination, then copied. */
  method CopyMatch(s: seq<byte>, p: nat, cword: nat, dest: array<byte>, dst: nat, size: nat)
    returns (ok: bool, overrun: bool, q: nat, end: nat)
    requires p + 4 <= |s| && cword % 2 == 1 && dst <= size <= dest.Length
    modifies dest
    ensures var step := old(Step(size, s[p..], cword, dest[..dst]));
            if ok then p < q <= |s| && end <= size && step == Turn(size, s[q..], cword / 2, dest[..end])
            else step == if overrun then Overrun else Rejected
  {
    hide Turn, Step, Fill, Word, ReadMatch, CopyFrom, Pow2;
    StepAt(size, s, p, cword, dest[..dst]);
    var m := ReadMatch(Word(s[p..], 4));
    if m.off > dst || m.off <= MINOFFSET || m.len > (size - dst - UNCOMPRESSED_END) % UI32 {
      return false, false, p, dst;
    }
    if dst + m.len > size {
      return false, true, p, dst;
    }
    CopyUp(dest, dst, m.off, m.len);
    return true, false, p + m.size, dst + m.len;
  }

  /** qlz_decompress_core on the bytes s after the header, into a destination of `size` bytes: the
      answer of the decoder function. */
  method DecompressCore(s: seq<byte>, dest: array<byte>, size: nat) returns (r: nat, overrun: bool)
    requires size <= dest.Length
    modifies dest
    ensures Answers(Turn(size, s, 1, []), r, overrun, dest[..])
  {
    hide Turn, Step, Fill, Word, ReadMatch, CopyFrom, Pow2;
    ghost var goal := Turn(size, s, 1, []);
    var p: nat, dst: nat, cword: nat := 0, 0, 1;
    assert s[0..] == s && dest[..0] == [];
    while true
      invariant p <= |s| && dst <= size && goal == Turn(size, s[p..], cword, dest[..dst])
      decreases |s| - p
    {
      hide Answers;
      ghost var out := dest[..dst];
      TurnAt(size, s, p, cword, out);
      if cword == 1 {
        if p + CWORD_LEN > |s| {
          return 0, false;
        }
        p, cword := p + CWORD_LEN, Word(s[p..], CWORD_LEN);
      }
      assert goal == Step(size, s[p..], cword, out);
      StepAt(size, s, p, cword, out);
      if p + 4 > |s| {
        return 0, false;
      }
      if cword % 2 == 1 {
        var ok;
        ok, overrun, p, dst := CopyMatch(s, p, cword, dest, dst, size);
        if !ok {
          return 0, overrun;
        }
        cword := cword / 2;
      } else if dst + MATCH_MARGIN < size {
        var n := BITLUT[cword % 16];
        CopyFour(s, p, dest, dst, n);
        assert dest[..dst + n] == out + s[p..p + n];
        p, cword, dst := p + n, cword / Pow2(n), dst + n;
      } else {
        var ok := FillEnd(s, dest, size, p, dst, cword);
        return if ok then size else 0, false;
      }
    }
  }

  /** qlz_decompress. */
  method Decompress(packet: seq<byte>, dest: array<byte>) returns (r: nat, overrun: bool)
    requires |packet| >= MIN_PACKET && SizeDecompressed(packet) <= dest.Length
    modifies dest
    ensures Answers(Unpack(packet), r, overrun, dest[..])
  {
    hide Turn;
    var header, size := SizeHeader(packet), SizeDecompressed(packet);
    if packet[0] % 2 == 1 {
      var end := SizeCompressed(packet);
      if end > |packet| {
        return 0, true;
      }
      r, overrun := DecompressCore(if header <= end then packet[header..end] else [], dest, size);
    } else if header + size > |packet| {
      r, overrun := 0, true;
    } else {
      Store(packet[header..header + size], dest, 0);
      r, overrun := size, false;
    }
  }

  /** memcpy of a whole text. */
  method Store(text: seq<byte>, dest: array<byte>, at: nat)
    requires at + |text| <= dest.Length
    modifies dest
    ensures dest[..at] == old(dest[..at]) && dest[at..at + |text|] == text
  {
    var i := 0;
    while i < |text|
      invariant i <= |text| && dest[..at] == old(dest[..at]) && dest[at..at + i] == text[..i]
    {
      dest[at + i] := text[i];
      i := i + 1;
    }
  }

  // ---------- compression ----------

  method WriteHeader(dest: array<byte>, compressed: bool, r: nat, size: nat)
    requires r < UI32 && size < UI32 && (size < 216 ==> r < 256) && Base(size) <= dest.Length
    modifies dest
    ensures dest[..] == Header(compressed, r, size) + old(dest[Base(size)..])
  {
    hide LE, Splice;
    ghost var before := dest[..];
    var first: byte := LEVEL_BITS + if compressed then 1 else 0;
    if size < 216 {
      OneByte(r);
      OneByte(size);
      dest[0], dest[1], dest[2] := first, r, size;
    } else {
      dest[0] := first + 2;
      FastWrite(r, dest, 1, 4);
      FastWrite(size, dest, 5, 4);
      TwoWords(before, first + 2, LE(r, 4), LE(size, 4));
    }
  }

  lemma TwoWords(s: seq<byte>, first: byte, a: seq<byte>, b: seq<byte>)
    requires |s| >= 9 && |a| == |b| == 4
    ensures Splice(Splice(s[0 := first], 1, a), 5, b) == [first] + a + b + s[9..]
  {
  }

  /**
   qlz_compress.  With a destination of size + 400 bytes every write is inside it; the result is 0
   exactly for an empty or an over-long source; otherwise it is the packet's length, at most 151
   more than the source, the header says so, and unpacking gives back the source.  The tokens are the ones
   the search determines; the source is stored as it is exactly when they have gained too little.
   */
  method Compress(source: seq<byte>, dest: array<byte>, state: CompressState) returns (r: nat, ghost ts: seq<Token>)
    requires |source| + QLZ_BUFFER_PADDING <= dest.Length && state.Valid() && state.counter != dest
    modifies dest, state.counter, state.offset
    ensures r == 0 <==> source == [] || |source| > MAX_SIZE
    ensures r != 0 ==> MIN_PACKET <= r <= |source| + 151 && (|source| < 216 ==> r < 256)
    ensures r != 0 ==> SizeCompressed(dest[..r]) == r && SizeDecompressed(dest[..r]) == |source|
    ensures r != 0 ==> Unpack(dest[..r]) == Done(source)
    ensures r != 0 ==> dest[..Base(|source|)] == Header(dest[0] % 2 == 1, r, |source|)
    ensures r != 0 ==>
              Chosen(source, ts) &&
              if dest[0] % 2 == 0 then TooLong(source, ts)
              else Covered(ts) == |source| && ShortEnough(source, ts) && IsStream(ts, dest[Base(|source|)..r])
  {
    hide Turn, Header, SizeHeader, SizeCompressed, SizeDecompressed, Unpack, LE, Chosen, Covered, TooLong, ShortEnough,
      IsStream;
    var size := |source|;
    if size == 0 || size > MAX_SIZE {
      return 0, [];
    }
    var base := if size < 216 then 3 else 9;
    state.Reset(source);
    r, ts := CompressCore(source, dest, base, state);
    var compressed := r != 0;
    if !compressed {
      Store(source, dest, base);
      r := size;
    }
    ghost var body := dest[base..base + r];
    r := r + base;
    ghost var after := dest[base..];
    WriteHeader(dest, compressed, r, size);
    HeaderReads(compressed, r, size, body);
    assert body == after[..r - base];
    Front(Header(compressed, r, size), after, r - base);
    ghost var packet := dest[..r];
    assert packet[base..] == body && packet[0] % 2 == if compressed then 1 else 0;
    assert dest[..base] == packet[..base];
    Unpacks(packet, compressed, source, body);
    assert dest[base..r] == packet[base..];
  }

  lemma Front(header: seq<byte>, after: seq<byte>, n: nat)
    requires n <= |after|
    ensures (header + after)[..|header| + n] == header + after[..n]
  {
  }

  lemma Unpacks(packet: seq<byte>, compressed: bool, source: seq<byte>, body: seq<byte>)
    requires |packet| >= MIN_PACKET && SizeCompressed(packet) == |packet| && SizeDecompressed(packet) == |source|
    requires packet[0] % 2 == (if compressed then 1 else 0)
    requires SizeHeader(packet) <= |packet| && packet[SizeHeader(packet)..] == body
    requires if compressed then Turn(|source|, body, 1, []) == Done(source) else body == source
    ensures Unpack(packet) == Done(source)
  {
    hide Turn, Word;
    var header := SizeHeader(packet);
    assert packet[header..|packet|] == body;
  }

  /** Compressing and decompressing any admissible text gives it back. */
  method RoundTrip(source: seq<byte>) returns (size: nat, text: array<byte>)
    requires 0 < |source| <= MAX_SIZE
    ensures size == |source| && text[..] == source
  {
    hide Unpack, SizeCompressed, SizeDecompressed;
    var state := new CompressState();
    var packed := new byte[|source| + QLZ_BUFFER_PADDING](_ => 0);
    text := new byte[|source|](_ => 0);
    var r, _ := Compress(source, packed, state);
    var overrun;
    size, overrun := Decompress(packed[..r], text);
    assert text[..size] == text[..];
  }
}
