/**
 The QuickLZ level 3 format: tokens under 31-flag control words, five ways to write a match, the
 packet header, and the decoder as a function of the packet.
 */
module QlzFormat {
  import opened Basics
  import opened LzCopy

  const MINOFFSET := 2
  const UNCONDITIONAL_MATCHLEN := 6
  const UNCOMPRESSED_END := 4
  const CWORD_LEN := 4
  const MATCH_MARGIN := UNCONDITIONAL_MATCHLEN + UNCOMPRESSED_END + 1  // first byte with no match at it, from the end
  const MAX_OFFSET := 131071
  const TOP := 0x8000_0000  // 1U << 31
  const UI32 := 0x1_0000_0000

  datatype Token = Lit(b: byte) | Copy(len: nat, off: nat)

  // ---------- little-endian words ----------

  function LE(n: nat, k: nat): (r: seq<byte>)
    ensures |r| == k
  {
    if k == 0 then [] else [n % 256] + LE(n / 256, k - 1)
  }

  function Word(s: seq<byte>, k: nat): nat
    requires k <= |s|
  {
    if k == 0 then 0 else s[0] + 256 * Word(s[1..], k - 1)
  }

  function Pow256(k: nat): (r: nat)
    ensures r >= 1
  {
    if k == 0 then 1 else 256 * Pow256(k - 1)
  }

  lemma {:induction false} WordOfLE(n: nat, k: nat, tail: seq<byte>)
    requires n < Pow256(k)
    ensures Word(LE(n, k) + tail, k) == n
  {
    if k > 0 {
      assert (LE(n, k) + tail)[1..] == LE(n / 256, k - 1) + tail;
      WordOfLE(n / 256, k - 1, tail);
    }
  }

  /** A wider word agrees with a narrower one up to a multiple of the narrower one's range. */
  lemma {:induction false} WordSplit(s: seq<byte>, k: nat, m: nat) returns (q: nat)
    requires k <= m <= |s|
    ensures Word(s, m) == Word(s, k) + Pow256(k) * q
  {
    if k == 0 {
      q := Word(s, m);
    } else {
      q := WordSplit(s[1..], k - 1, m - 1);
      Shifted(Word(s[1..], m - 1), Word(s[1..], k - 1), Pow256(k - 1), q);
    }
  }

  lemma Shifted(x: nat, y: nat, p: nat, q: nat)
    requires x == y + p * q
    ensures 256 * x == 256 * y + 256 * p * q
  {
  }

  lemma {:induction false} WordBound(s: seq<byte>, k: nat)
    requires k <= |s|
    ensures Word(s, k) < Pow256(k)
  {
    if k > 0 {
      WordBound(s[1..], k - 1);
    }
  }

  // ---------- the five match formats ----------

  ghost predicate Encodable(len: nat, off: nat) {
    3 <= len <= 255 && 3 <= off < MAX_OFFSET
  }

  /** Number and byte count of a match; the fields occupy disjoint bits, so sums stand for ors. */
  function MatchWord(len: nat, off: nat): (nat, nat)
    requires len >= 3
  {
    if len == 3 && off <= 63 then (off * 4, 1)
    else if len == 3 && off <= 16383 then (off * 4 + 1, 2)
    else if len <= 18 && off <= 1023 then ((len - 3) * 4 + off * 64 + 2, 2)
    else if len <= 33 then ((len - 2) * 4 + off * 128 + 3, 3)
    else ((len - 3) * 128 + off * 32768 + 3, 4)
  }

  datatype Match = Match(off: nat, len: nat, size: nat)

  /** The decoder's reading of the four bytes at a match. */
  function ReadMatch(fetch: nat): (r: Match)
    ensures 1 <= r.size <= 4 && r.len >= 2
  {
    if fetch % 4 == 0 then Match(fetch % 256 / 4, 3, 1)
    else if fetch / 2 % 2 == 0 then Match(fetch % 65536 / 4, 3, 2)
    else if fetch % 2 == 0 then Match(fetch % 65536 / 64, fetch / 4 % 16 + 3, 2)
    else if fetch % 128 != 3 then Match(fetch / 128 % 131072, fetch / 4 % 32 + 2, 3)
    else Match(fetch / 32768, fetch / 128 % 256 + 3, 4)
  }

  /** Quotient and remainder of a number given as one. */
  lemma Format1(off: nat, q: nat)
    requires off <= 63
    ensures ReadMatch(off * 4 + 256 * q) == Match(off, 3, 1)
  {
    var f := off * 4 + 256 * q;
    DivMod(off + 64 * q, 0, 4);
    DivMod(q, off * 4, 256);
    DivMod(off, 0, 4);
  }

  lemma Format2(off: nat, q: nat)
    requires off <= 16383
    ensures ReadMatch(off * 4 + 1 + 65536 * q) == Match(off, 3, 2)
  {
    var f := off * 4 + 1 + 65536 * q;
    DivMod(off + 16384 * q, 1, 4);
    DivMod(off * 2 + 32768 * q, 1, 2);
    DivMod(off + 16384 * q, 0, 2);
    DivMod(q, off * 4 + 1, 65536);
    DivMod(off, 1, 4);
  }

  lemma Format3(len: nat, off: nat, q: nat)
    requires 3 <= len <= 18 && off <= 1023
    ensures ReadMatch((len - 3) * 4 + off * 64 + 2 + 65536 * q) == Match(off, len, 2)
  {
    DivMod(len - 3 + off * 16 + 16384 * q, 2, 4);
    DivMod((len - 3) * 2 + off * 32 + 32768 * q + 1, 0, 2);
    DivMod(len - 3 + off * 16 + 16384 * q, 1, 2);
    DivMod(q, (len - 3) * 4 + off * 64 + 2, 65536);
    DivMod(off, (len - 3) * 4 + 2, 64);
    DivMod(off + 1024 * q, len - 3, 16);
  }

  lemma Format4(len: nat, off: nat, q: nat)
    requires 3 <= len <= 33 && off < 131072
    ensures ReadMatch((len - 2) * 4 + off * 128 + 3 + 16777216 * q) == Match(off, len, 3)
  {
    DivMod(len - 2 + off * 32 + 4194304 * q, 3, 4);
    DivMod((len - 2) * 2 + off * 64 + 8388608 * q + 1, 1, 2);
    DivMod(len - 2 + off * 32 + 4194304 * q, 1, 2);
    DivMod(off + 131072 * q, (len - 2) * 4 + 3, 128);
    DivMod(q, off, 131072);
    DivMod(off + 131072 * q, len - 2, 32);
  }

  lemma Format5(len: nat, off: nat)
    requires 33 < len <= 255
    ensures ReadMatch((len - 3) * 128 + off * 32768 + 3) == Match(off, len, 4)
  {
    DivMod((len - 3) * 32 + off * 8192, 3, 4);
    DivMod((len - 3) * 64 + off * 16384 + 1, 1, 2);
    DivMod((len - 3) * 32 + off * 8192, 1, 2);
    DivMod(len - 3 + off * 256, 3, 128);
    DivMod(off, (len - 3) * 128 + 3, 32768);
    DivMod(off, len - 3, 256);
  }

  /** All five formats decode to the offset and length encoded, whatever bytes follow. */
  lemma ReadMatchUndoes(len: nat, off: nat, q: nat)
    requires Encodable(len, off)
    ensures var (f, n) := MatchWord(len, off);
            f < Pow256(n) && 1 <= n <= 4 && n <= len &&
            (n < 4 || q == 0 ==> ReadMatch(f + Pow256(n) * q) == Match(off, len, n))
  {
    assert Pow256(1) == 256 && Pow256(2) == 65536 && Pow256(3) == 16777216 && Pow256(4) == UI32;
    if len == 3 && off <= 63 {
      Format1(off, q);
    } else if len == 3 && off <= 16383 {
      Format2(off, q);
    } else if len <= 18 && off <= 1023 {
      Format3(len, off, q);
    } else if len <= 33 {
      Format4(len, off, q);
    } else {
      Format5(len, off);
    }
  }

  // ---------- a stream of tokens ----------

  ghost function TokenBytes(t: Token): (r: seq<byte>)
    requires t.Copy? ==> Encodable(t.len, t.off)
    ensures 1 <= |r| <= 4
  {
    match t
    case Lit(b) => [b]
    case Copy(len, off) =>
      ReadMatchUndoes(len, off, 0);
      var (f, n) := MatchWord(len, off);
      LE(f, n)
  }

  /** The tokens from position pos on produce exactly `size` bytes; matches start and end early
      enough to leave an uncompressed end. */
  ghost predicate Valid(ts: seq<Token>, pos: nat, size: nat)
    decreases |ts|
  {
    if ts == [] then pos == size
    else match ts[0]
      case Lit(b) => pos < size && Valid(ts[1..], pos + 1, size)
      case Copy(len, off) =>
        && Encodable(len, off) && off <= pos
        && pos + MATCH_MARGIN <= size && pos + len + UNCOMPRESSED_END <= size
        && Valid(ts[1..], pos + len, size)
  }

  ghost function Expand(out: seq<byte>, ts: seq<Token>): seq<byte>
    decreases |ts|
  {
    if ts == [] then out
    else match ts[0]
      case Lit(b) => Expand(out + [b], ts[1..])
      case Copy(len, off) => if 1 <= off <= |out| then Expand(CopyFrom(out, off, len), ts[1..]) else out
  }

  /** The control word when j of its 31 flags are used up and the tokens ts follow: their flags,
      lowest first, below the end marker. */
  ghost function Flags(ts: seq<Token>, j: nat): (r: nat)
    requires j <= 31
    ensures r >= 1
    decreases 31 - j
  {
    if j == 31 then 1
    else if ts == [] then 2 * Flags([], j + 1)
    else (if ts[0].Copy? then 1 else 0) + 2 * Flags(ts[1..], j + 1)
  }

  function Pow2(k: nat): (r: nat)
    ensures r >= 1
  {
    if k == 0 then 1 else 2 * Pow2(k - 1)
  }

  lemma Pow2Next(k: nat)
    ensures Pow2(k + 1) == 2 * Pow2(k)
  {
  }

  lemma {:induction false} FlagsBound(ts: seq<Token>, j: nat)
    requires j <= 31
    ensures Pow2(31 - j) <= Flags(ts, j) < Pow2(32 - j)
    decreases 31 - j
  {
    hide Pow2, Flags;
    if j < 31 {
      FlagsBound(if ts == [] then [] else ts[1..], j + 1);
      FlagsNext(ts, j);
      Pow2Next(30 - j);
      Pow2Next(31 - j);
    } else {
      FlagsNone(ts);
      PowersOfTwo();
    }
  }

  lemma FlagsNext(ts: seq<Token>, j: nat)
    requires j < 31
    ensures var rest := Flags(if ts == [] then [] else ts[1..], j + 1);
            2 * rest <= Flags(ts, j) <= 2 * rest + 1
  {
  }

  lemma FlagsNone(ts: seq<Token>)
    ensures Flags(ts, 31) == 1
  {
  }

  lemma PowersOfTwo()
    ensures Pow2(0) == 1 && Pow2(1) == 2
  {
  }

  lemma Pow2Of31()
    ensures Pow2(31) == TOP && Pow2(32) == UI32
  {
    assert Pow2(8) == 256;
    assert Pow2(16) == 65536;
    assert Pow2(24) == 16777216;
  }

  ghost predicate AllEncodable(ts: seq<Token>) {
    forall t | t in ts :: t.Copy? ==> Encodable(t.len, t.off)
  }

  /** The bytes of the tokens ts when j flags of the current control word are used up: a new
      control word goes in front of every 32nd token. */
  ghost function Stream(ts: seq<Token>, j: nat): seq<byte>
    requires j <= 31 && AllEncodable(ts)
    decreases |ts|, j
  {
    if ts == [] then []
    else if j == 31 then LE(Flags(ts, 0), CWORD_LEN) + Stream(ts, 0)
    else TokenBytes(ts[0]) + Stream(ts[1..], j + 1)
  }
}
