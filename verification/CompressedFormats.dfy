/** The two compressed formats bit by bit, and a sample of each: what other decoders rely on. */
module CompressedFormats {
  import opened Basics
  import FastLz = FastLzFormat
  import Qlz = QlzFormat
  import QlzDecoder
  import QuickLz
  import LzCopy

  /** `width` bits of n, the lowest of them bit `lo`. */
  function Bits(n: nat, lo: nat, width: nat): nat { n / Qlz.Pow2(lo) % Qlz.Pow2(width) }

  lemma Powers()
    ensures Qlz.Pow2(0) == 1 && Qlz.Pow2(1) == 2 && Qlz.Pow2(2) == 4 && Qlz.Pow2(3) == 8 && Qlz.Pow2(4) == 16
    ensures Qlz.Pow2(5) == 32 && Qlz.Pow2(6) == 64 && Qlz.Pow2(7) == 128 && Qlz.Pow2(8) == 256
    ensures Qlz.Pow2(10) == 1024 && Qlz.Pow2(14) == 16384 && Qlz.Pow2(15) == 32768 && Qlz.Pow2(17) == 131072
  {
  }

  /** Masking and then shifting is shifting and then masking. */
  lemma MaskShift(n: nat, a: nat, b: nat, p: nat)
    requires a >= 1 && b >= 1 && p == a * b && p >= 1
    ensures n % p / a == n / a % b
  {
    var q, r := Euclid(n, p);
    var x, y := Euclid(r, a);
    MaskParts(n, a, b, p, q, r, x, y);
  }

  lemma Euclid(n: nat, d: nat) returns (q: nat, r: nat)
    requires d >= 1
    ensures q == n / d && r == n % d && n == q * d + r && r < d
  {
    q, r := n / d, n % d;
  }

  lemma MaskParts(n: nat, a: nat, b: nat, p: nat, q: nat, r: nat, x: nat, y: nat)
    requires p == a * b && n == q * p + r && r < p && r == x * a + y && y < a
    ensures n / a % b == x
  {
    Recompose(q, a, b, x, y);
    Below(x, y, a, b);
    DivMod(q * b + x, y, a);
    DivMod(q, x, b);
  }

  lemma Recompose(q: nat, a: nat, b: nat, x: nat, y: nat)
    ensures q * (a * b) + (x * a + y) == (q * b + x) * a + y
  {
    assert q * (a * b) == q * b * a;
  }

  lemma Below(x: nat, y: nat, a: nat, b: nat)
    requires x * a + y < a * b
    ensures x < b
  {
    Multiples(x - b, a);
    assert (x - b) * a == x * a - b * a;
  }

  // ---------- QuickLZ, level 3 ----------

  /** The four bytes at a match as one little-endian number: its lowest two bits, and after 3 the five
      above, tell the format; offset and length are these fields. */
  lemma QlzFields(f: nat)
    requires f < 0x1_0000_0000
    ensures var tag, r := Bits(f, 0, 2), Qlz.ReadMatch(f);
            && (tag == 0 ==> r == Qlz.Match(Bits(f, 2, 6), 3, 1))
            && (tag == 1 ==> r == Qlz.Match(Bits(f, 2, 14), 3, 2))
            && (tag == 2 ==> r == Qlz.Match(Bits(f, 6, 10), Bits(f, 2, 4) + 3, 2))
            && (tag == 3 && Bits(f, 2, 5) != 0 ==> r == Qlz.Match(Bits(f, 7, 17), Bits(f, 2, 5) + 2, 3))
            && (tag == 3 && Bits(f, 2, 5) == 0 ==> r == Qlz.Match(Bits(f, 15, 17), Bits(f, 7, 8) + 3, 4))
  {
    hide Qlz.Pow2;
    Powers();
    MaskShift(f, 4, 64, 256);
    MaskShift(f, 4, 16384, 65536);
    MaskShift(f, 64, 1024, 65536);
    MaskShift(f, 4, 32, 128);
    Tags(f);
  }

  lemma Tags(f: nat)
    ensures f % 4 == 1 ==> f / 2 % 2 == 0
    ensures f % 4 == 2 ==> f / 2 % 2 == 1 && f % 2 == 0
    ensures f % 4 == 3 ==> f / 2 % 2 == 1 && f % 2 == 1 && (f % 128 == 3 <==> f % 128 / 4 == 0)
  {
  }

  /** The compressor takes the shortest format that can say the match. */
  lemma QlzShortest(len: nat, off: nat, f: nat)
    requires Qlz.Encodable(len, off) && Qlz.ReadMatch(f).len == len && Qlz.ReadMatch(f).off == off
    ensures Qlz.MatchWord(len, off).1 <= Qlz.ReadMatch(f).size
  {
  }

  /** Bit i of a control word says whether the i-th token below it is a match; bit 31 ends it. */
  lemma FlagBits(ts: seq<Qlz.Token>, i: nat)
    requires i < 31
    ensures Bits(Qlz.Flags(ts, 0), i, 1) == if i < |ts| && ts[i].Copy? then 1 else 0
    ensures Bits(Qlz.Flags(ts, 0), 31, 1) == 1
  {
    FlagBit(ts, 0, i);
    FlagBit(ts, 0, 31);
  }

  lemma {:induction false} FlagBit(ts: seq<Qlz.Token>, j: nat, i: nat)
    requires i + j <= 31
    ensures Qlz.Flags(ts, j) / Qlz.Pow2(i) % 2 == if i + j == 31 || (i < |ts| && ts[i].Copy?) then 1 else 0
    ensures Qlz.Pow2(1) == 2
    decreases i
  {
    var f := Qlz.Flags(ts, j);
    if i > 0 {
      var rest := if ts == [] then [] else ts[1..];
      FlagBit(rest, j + 1, i - 1);
      HalfFirst(f, Qlz.Pow2(i - 1));
      assert f / 2 == Qlz.Flags(rest, j + 1);
    }
  }

  lemma HalfFirst(f: nat, p: nat)
    requires p >= 1
    ensures f / (2 * p) == f / 2 / p
  {
    var q, r := f / 2 / p, f / 2 % p;
    assert f / 2 == q * p + r;
    assert f == q * (2 * p) + (2 * r + f % 2);
    DivMod(q, 2 * r + f % 2, 2 * p);
  }

  /** Numbers are written lowest byte first. */
  lemma {:induction false} LowestFirst(n: nat, k: nat, i: nat)
    requires i < k
    ensures Qlz.LE(n, k)[i] == n / Qlz.Pow256(i) % 256
    decreases k
  {
    if i > 0 {
      LowestFirst(n / 256, k - 1, i - 1);
      Divided(n, Qlz.Pow256(i - 1));
    }
  }

  lemma Divided(n: nat, p: nat)
    requires p >= 1
    ensures n / (256 * p) == n / 256 / p
  {
    var q, r := n / 256 / p, n / 256 % p;
    assert n / 256 == q * p + r;
    assert n == q * (256 * p) + (256 * r + n % 256);
    DivMod(q, 256 * r + n % 256, 256 * p);
  }

  /** The packet header: bit 0 of its first byte says whether what follows is compressed, bit 1 whether the
      sizes take four bytes each, bits 2 and 3 are the level, 4 and 5 the streaming buffer (none), bit 6 is
      set; then come the size of the packet and the size of the text. */
  lemma HeaderBits(compressed: bool, r: nat, size: nat, i: nat)
    requires i < if size < 216 then 1 else 4
    ensures var h := QuickLz.Header(compressed, r, size);
            var k := if size < 216 then 1 else 4;
            && |h| == 1 + 2 * k
            && Bits(h[0], 0, 1) == (if compressed then 1 else 0) && Bits(h[0], 1, 1) == (if size < 216 then 0 else 1)
            && Bits(h[0], 2, 2) == 3 && Bits(h[0], 4, 2) == 0 && Bits(h[0], 6, 2) == 1
            && h[1 + i] == r / Qlz.Pow256(i) % 256 && h[1 + k + i] == size / Qlz.Pow256(i) % 256
  {
    hide Qlz.Pow2, Qlz.LE, Qlz.Pow256;
    Powers();
    LowestFirst(r, if size < 216 then 1 else 4, i);
    LowestFirst(size, if size < 216 then 1 else 4, i);
  }

  /** A packet written by hand: three literals, seven bytes from three back, four literals. */
  lemma QlzSample()
    ensures QuickLz.Unpack([77, 16, 14, 8, 0, 0, 128, 97, 98, 99, 210, 0, 119, 120, 121, 122])
            == QlzDecoder.Done([97, 98, 99, 97, 98, 99, 97, 98, 99, 97, 119, 120, 121, 122])
  {
    hide QlzDecoder.Turn, QuickLz.SizeHeader, QuickLz.SizeCompressed, QuickLz.SizeDecompressed;
    var packet := [77, 16, 14, 8, 0, 0, 128, 97, 98, 99, 210, 0, 119, 120, 121, 122];
    SampleSizes(packet);
    var stream := [8, 0, 0, 128, 97, 98, 99, 210, 0, 119, 120, 121, 122];
    assert packet == [77, 16, 14] + stream && |stream| == 13;
    assert packet[3..16] == stream;
    SampleTokens();
  }

  lemma SampleSizes(packet: seq<byte>)
    requires packet == [77, 16, 14, 8, 0, 0, 128, 97, 98, 99, 210, 0, 119, 120, 121, 122]
    ensures QuickLz.SizeHeader(packet) == 3 && QuickLz.SizeCompressed(packet) == 16
    ensures QuickLz.SizeDecompressed(packet) == 14
  {
    assert packet[1..][0] == 16 && packet[2..][0] == 14;
    assert Qlz.Word(packet[1..], 1) == 16 && Qlz.Word(packet[2..], 1) == 14;
  }

  lemma SampleWord(a: byte, b: byte, c: byte, d: byte, tail: seq<byte>)
    ensures Qlz.Word([a, b, c, d] + tail, 4) == a + 256 * b + 65536 * c + 16777216 * d
  {
    var s := [a, b, c, d] + tail;
    assert s[1..] == [b, c, d] + tail && s[1..][1..] == [c, d] + tail && s[1..][1..][1..] == [d] + tail;
    assert Qlz.Word(s[1..][1..][1..], 1) == d;
    assert Qlz.Word(s[1..][1..], 2) == c + 256 * d;
  }

  lemma SampleTokens()
    ensures QlzDecoder.Turn(14, [8, 0, 0, 128, 97, 98, 99, 210, 0, 119, 120, 121, 122], 1, [])
            == QlzDecoder.Done([97, 98, 99, 97, 98, 99, 97, 98, 99, 97, 119, 120, 121, 122])
  {
    var rest := [97, 98, 99, 210, 0, 119, 120, 121, 122];
    assert [8, 0, 0, 128, 97, 98, 99, 210, 0, 119, 120, 121, 122] == [8, 0, 0, 128] + rest;
    SampleWord(8, 0, 0, 128, rest);
    assert ([8, 0, 0, 128] + rest)[4..] == rest;
    SampleLiterals();
  }

  lemma SampleLiterals()
    ensures QlzDecoder.Step(14, [97, 98, 99, 210, 0, 119, 120, 121, 122], 8 + Qlz.TOP, [])
            == QlzDecoder.Done([97, 98, 99, 97, 98, 99, 97, 98, 99, 97, 119, 120, 121, 122])
  {
    hide QlzDecoder.Turn;
    Powers();
    var rest := [97, 98, 99, 210, 0, 119, 120, 121, 122];
    assert QlzDecoder.Announced(8 + Qlz.TOP) == 3;
    assert rest[3..] == [210, 0, 119, 120, 121, 122] && rest[..3] == [97, 98, 99] && [] + rest[..3] == [97, 98, 99];
    assert (8 + Qlz.TOP) / 8 == 1 + Qlz.TOP / 8;
    SampleMatch();
  }

  lemma SampleFetch(rest: seq<byte>)
    requires rest == [210, 0, 119, 120, 121, 122]
    ensures Qlz.ReadMatch(Qlz.Word(rest, 4)) == Qlz.Match(3, 7, 2) && rest[2..] == [119, 120, 121, 122]
  {
    hide Qlz.Word;
    assert rest == [210, 0, 119, 120] + [121, 122];
    SampleWord(210, 0, 119, 120, [121, 122]);
  }

  lemma SampleCopy()
    ensures LzCopy.CopyFrom([97, 98, 99], 3, 7) == [97, 98, 99, 97, 98, 99, 97, 98, 99, 97]
  {
    hide LzCopy.CopyFrom;
    var out := [97, 98, 99, 97, 98, 99, 97, 98, 99, 97];
    assert out[..3] == [97, 98, 99] && out[..10] == out;
    LzCopy.CopyReproduces(out, 3, 3, 7);
  }

  lemma SampleMatch()
    ensures QlzDecoder.Turn(14, [210, 0, 119, 120, 121, 122], 1 + Qlz.TOP / 8, [97, 98, 99])
            == QlzDecoder.Done([97, 98, 99, 97, 98, 99, 97, 98, 99, 97, 119, 120, 121, 122])
  {
    hide LzCopy.CopyFrom, Qlz.Word, Qlz.ReadMatch, QlzDecoder.Fill;
    SampleFetch([210, 0, 119, 120, 121, 122]);
    SampleCopy();
    SampleEnd([97, 98, 99, 97, 98, 99, 97, 98, 99, 97]);
  }

  lemma SampleEnd(out: seq<byte>)
    requires |out| == 10
    ensures QlzDecoder.Turn(14, [119, 120, 121, 122], Qlz.TOP / 16, out) == QlzDecoder.Done(out + [119, 120, 121, 122])
  {
    hide Qlz.ReadMatch, QlzDecoder.Announced;
    var w := Qlz.TOP / 16;
    var rest := [119, 120, 121, 122];
    assert rest[1..] == [120, 121, 122] && [120, 121, 122][1..] == [121, 122];
    assert [121, 122][1..] == [122] && [122][1..] == [];
    assert QlzDecoder.Fill(14, [122], w / 8, out + [119] + [120] + [121])
        == QlzDecoder.Done(out + [119] + [120] + [121] + [122]);
    assert QlzDecoder.Fill(14, [121, 122], w / 4, out + [119] + [120])
        == QlzDecoder.Done(out + [119] + [120] + [121] + [122]);
    assert QlzDecoder.Fill(14, rest, w, out) == QlzDecoder.Done(out + [119] + [120] + [121] + [122]);
    assert out + [119] + [120] + [121] + [122] == out + rest;
  }

  // ---------- FastLZ ----------

  /** A match of less than nine bytes: the upper three bits of its first byte are the length less two, the
      other five and the next byte the distance less one; at level 2 a distance of 8192 or more is what two
      further bytes add to it, behind 31 and 255. */
  lemma FastLzShort(level: FastLz.Level, ctrl: byte, rest: seq<byte>)
    requires 32 <= ctrl && Bits(ctrl, 5, 3) < 7 && rest != []
    ensures var len, high := Bits(ctrl, 5, 3) + 2, Bits(ctrl, 0, 5);
            var far := level == 2 && high == 31 && rest[0] == 255;
            && (!far ==> FastLz.ReadMatch(level, ctrl, rest) == Some(FastLz.Head(len, 256 * high + rest[0] + 1, 1)))
            && (far && |rest| >= 3 ==>
                  FastLz.ReadMatch(level, ctrl, rest)
                  == Some(FastLz.Head(len, 8192 + 256 * (rest[1] as int) + rest[2], 3)))
  {
    hide Qlz.Pow2;
    Powers();
  }

  /** A longer one, with 7 in those three bits: at level 1 the next byte is the length less nine. */
  lemma FastLzLong1(ctrl: byte, rest: seq<byte>)
    requires Bits(ctrl, 5, 3) == 7 && |rest| >= 2
    ensures FastLz.ReadMatch(1, ctrl, rest)
            == Some(FastLz.Head(9 + rest[0] as int, 256 * Bits(ctrl, 0, 5) + rest[1] + 1, 2))
  {
    hide Qlz.Pow2;
    Powers();
  }

  /** At level 2 it is what k bytes of 255 and a smaller one add up to. */
  lemma FastLzLong2(ctrl: byte, k: nat, b: byte, d: byte, tail: seq<byte>)
    requires Bits(ctrl, 5, 3) == 7 && b < 255
    ensures var high := Bits(ctrl, 0, 5);
            var rest := seq(k, _ => 255) + ([b, d] + tail);
            && (!(high == 31 && d == 255) ==>
                  FastLz.ReadMatch(2, ctrl, rest) == Some(FastLz.Head(255 * k + b + 9, 256 * high + d + 1, k + 2)))
            && (high == 31 && d == 255 && |tail| >= 2 ==>
                  FastLz.ReadMatch(2, ctrl, rest)
                  == Some(FastLz.Head(255 * k + b + 9, 8192 + 256 * (tail[0] as int) + tail[1], k + 4)))
  {
    hide Qlz.Pow2, FastLz.ReadLong;
    Powers();
    LongSum(k, b, [d] + tail);
    assert [b] + ([d] + tail) == [b, d] + tail;
    var rest := seq(k, _ => 255) + ([b, d] + tail);
    assert rest[k + 1] == d;
    assert |tail| >= 2 ==> rest[k + 2] == tail[0] && rest[k + 3] == tail[1];
  }

  lemma {:induction false} LongSum(k: nat, b: byte, tail: seq<byte>)
    requires b < 255
    ensures FastLz.ReadLong(seq(k, _ => 255) + ([b] + tail)) == Some((255 * k + b, k + 1))
    decreases k
  {
    var s := seq(k, _ => 255) + ([b] + tail);
    if k > 0 {
      LongSum(k - 1, b, tail);
      assert s[1..] == seq(k - 1, _ => 255) + ([b] + tail);
    }
  }

  /** Streams written by hand, one of each level: three literals, six bytes from three back. */
  lemma FastLzSamples()
    ensures FastLz.Decompress([2, 97, 98, 99, 128, 2], 9) == FastLz.Done([97, 98, 99, 97, 98, 99, 97, 98, 99])
    ensures FastLz.Decompress([34, 97, 98, 99, 128, 2], 9) == FastLz.Done([97, 98, 99, 97, 98, 99, 97, 98, 99])
    ensures FastLz.Decompress([66, 97, 98, 99, 128, 2], 9) == FastLz.Rejected
  {
    hide FastLz.Run;
    assert [2, 97, 98, 99, 128, 2][1..] == [97, 98, 99, 128, 2];
    assert [34, 97, 98, 99, 128, 2][1..] == [97, 98, 99, 128, 2];
    FastLzSample(1);
    FastLzSample(2);
  }

  lemma FastLzSample(level: FastLz.Level)
    ensures FastLz.Run(level, 2, [97, 98, 99, 128, 2], [], 9) == FastLz.Done([97, 98, 99, 97, 98, 99, 97, 98, 99])
  {
    hide LzCopy.CopyFrom;
    var rest := [97, 98, 99, 128, 2];
    var x := [97, 98, 99, 97, 98, 99, 97, 98, 99];
    assert rest[3..] == [128, 2] && rest[..3] == [97, 98, 99] && [] + rest[..3] == [97, 98, 99];
    assert [128, 2][1..] == [2] && [2][1..] == [];
    assert x[..3] == [97, 98, 99] && x[..9] == x;
    LzCopy.CopyReproduces(x, 3, 3, 6);
    assert FastLz.ReadMatch(level, 128, [2]) == Some(FastLz.Head(6, 3, 1));
  }
}
