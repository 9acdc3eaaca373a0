/** MD5 streaming (RFC 1321, sections 3.1 to 3.5): the buffering around the block function. */
module Md5 {
  import opened Basics

  const BLOCK := 64
  const W32 := 0x1_0000_0000
  const W64 := 0x1_0000_0000_0000_0000

  /** The four words of the state, A to D. */
  datatype Words = Words(a: nat, b: nat, c: nat, d: nat)

  const INIT := Words(0x67452301, 0xEFCDAB89, 0x98BADCFE, 0x10325476)

  /** MD5Transform: one block into the state. */
  type Transform = (Words, seq<byte>) -> Words

  // ---------- the digest of a whole message ----------

  /** The block function folded over a text of whole blocks. */
  ghost function Fold(f: Transform, h: Words, m: seq<byte>): Words
    decreases |m|
  {
    if |m| < BLOCK then h else Fold(f, f(h, m[..BLOCK]), m[BLOCK..])
  }

  lemma {:induction false} FoldJoins(f: Transform, h: Words, a: seq<byte>, b: seq<byte>)
    requires |a| % BLOCK == 0
    ensures Fold(f, h, a + b) == Fold(f, Fold(f, h, a), b)
    decreases |a|
  {
    if |a| == 0 {
      assert a + b == b;
    } else {
      assert (a + b)[..BLOCK] == a[..BLOCK] && (a + b)[BLOCK..] == a[BLOCK..] + b;
      FoldJoins(f, f(h, a[..BLOCK]), a[BLOCK..], b);
    }
  }

  lemma FoldOne(f: Transform, h: Words, a: seq<byte>, block: seq<byte>)
    requires |a| % BLOCK == 0 && |block| == BLOCK
    ensures Fold(f, h, a + block) == f(Fold(f, h, a), block)
  {
    FoldJoins(f, h, a, block);
    assert block[..BLOCK] == block && block[BLOCK..] == [];
    assert Fold(f, f(Fold(f, h, a), block), []) == f(Fold(f, h, a), block);
  }

  /** A word in four bytes, the lowest first. */
  function Bytes4(w: nat): (r: seq<byte>)
    ensures |r| == 4
  {
    [w % 256, w / 256 % 256, w / 65536 % 256, w / 16777216 % 256]
  }

  function Word4(r: seq<byte>): nat
    requires |r| == 4
  {
    r[0] as int + r[1] as int * 256 + r[2] as int * 65536 + r[3] as int * 16777216
  }

  /** A word written as four bytes is read back. */
  lemma WordRoundTrip(w: nat)
    requires w < W32
    ensures Word4(Bytes4(w)) == w
  {
    var x := w / 256;
    var y := x / 256;
    assert w / 65536 == y && w / 16777216 == y / 256;
  }

  function Encoded(words: seq<nat>): (r: seq<byte>)
    ensures |r| == 4 * |words|
  {
    if words == [] then [] else Bytes4(words[0]) + Encoded(words[1..])
  }

  /** The words of a text of whole words, as MD5Transform gets them from a block. */
  function Decoded(text: seq<byte>): (r: seq<nat>)
    requires |text| % 4 == 0
    ensures 4 * |r| == |text|
  {
    if text == [] then [] else [Word4(text[..4])] + Decoded(text[4..])
  }

  /** What MD5Encode writes, MD5Decode reads. */
  lemma {:induction false} DecodeUndoes(words: seq<nat>)
    requires forall i | 0 <= i < |words| :: words[i] < W32
    ensures Decoded(Encoded(words)) == words
  {
    if words != [] {
      var text := Encoded(words);
      WordRoundTrip(words[0]);
      assert text[..4] == Bytes4(words[0]) && text[4..] == Encoded(words[1..]);
      DecodeUndoes(words[1..]);
    }
  }

  /** How many padding bytes follow n message bytes, of which the first is 0x80. */
  function PadLength(n: nat): (k: nat)
    ensures 1 <= k <= BLOCK && (n + k) % BLOCK == 56
  {
    if n % BLOCK < 56 then 56 - n % BLOCK else 120 - n % BLOCK
  }

  const PADDING: seq<byte> := [0x80] + Zeros(63)

  function Zeros(n: nat): (r: seq<byte>)
    ensures |r| == n
  {
    if n == 0 then [] else [0] + Zeros(n - 1)
  }

  /** The length in bits, modulo 2^64, as two words. */
  function BitCount(n: nat): seq<nat> { [8 * n % W64 % W32, 8 * n % W64 / W32] }

  function Padded(m: seq<byte>): (r: seq<byte>)
    ensures |r| % BLOCK == 0
  {
    var k := PadLength(|m|);
    var count := Encoded(BitCount(|m|));
    assert |count| == 8;
    EightMore(|m| + k);
    m + PADDING[..k] + count
  }

  lemma EightMore(n: nat)
    requires n % BLOCK == 56
    ensures (n + 8) % BLOCK == 0
  {
  }

  ghost function Digest(f: Transform, m: seq<byte>): seq<byte> {
    var h := Fold(f, INIT, Padded(m));
    Encoded([h.a, h.b, h.c, h.d])
  }

  // ---------- what the padded message and the digest look like, byte by byte ----------

  /** Byte k of words written one behind the other, the lowest byte of each first. */
  lemma {:induction false} EncodedAt(words: seq<nat>, k: nat)
    requires k < 4 * |words|
    ensures Encoded(words)[k] == words[k / 4] / [1, 0x100, 0x1_0000, 0x100_0000][k % 4] % 0x100
  {
    if k >= 4 {
      EncodedAt(words[1..], k - 4);
      assert words[1..][(k - 4) / 4] == words[k / 4];
      assert Encoded(words)[k] == Encoded(words[1..])[k - 4];
    } else {
      assert Encoded(words)[k] == Bytes4(words[0])[k];
    }
  }

  /** Word k read from a text, the lowest byte first. */
  lemma {:induction false} DecodedAt(text: seq<byte>, k: nat)
    requires |text| % 4 == 0 && 4 * k < |text|
    ensures Decoded(text)[k] == text[4 * k] as int + 0x100 * text[4 * k + 1] as int + 0x1_0000 * text[4 * k + 2] as int
                                + 0x100_0000 * text[4 * k + 3] as int
  {
    if k > 0 {
      DecodedAt(text[4..], k - 1);
      assert Decoded(text)[k] == Decoded(text[4..])[k - 1];
      var rest, at := text[4..], 4 * (k - 1);
      assert rest[at] == text[4 * k] && rest[at + 1] == text[4 * k + 1];
      assert rest[at + 2] == text[4 * k + 2] && rest[at + 3] == text[4 * k + 3];
    }
  }

  lemma {:induction false} ZerosAt(n: nat, i: nat)
    requires i < n
    ensures Zeros(n)[i] == 0
  {
    if i > 0 {
      ZerosAt(n - 1, i - 1);
    }
  }

  /** RFC 1321, sections 3.1 and 3.2: a one bit, zeros, and the length in bits in eight bytes, the lowest
      first, up to a block boundary and no further than needed. */
  lemma PaddedIs(m: seq<byte>)
    ensures var t := Padded(m);
            var n := |t| - 8;
            && |m| < n && |t| % 64 == 0 && |t| <= |m| + 72 && t[..|m|] == m && t[|m|] == 0x80
            && (forall i | |m| < i < n :: t[i] == 0)
            && t[n] as int + 0x100 * t[n + 1] as int + 0x1_0000 * t[n + 2] as int + 0x100_0000 * t[n + 3] as int
               + 0x1_0000_0000 * (t[n + 4] as int + 0x100 * t[n + 5] as int + 0x1_0000 * t[n + 6] as int
                                  + 0x100_0000 * t[n + 7] as int)
               == 8 * |m| % 0x1_0000_0000_0000_0000
  {
    hide Encoded, Zeros;
    var t := Padded(m);
    var k, count := PadLength(|m|), Encoded(BitCount(|m|));
    var n := |m| + k;
    assert t == m + PADDING[..k] + count;
    forall i | |m| < i < n
      ensures t[i] == 0
    {
      assert t[i] == PADDING[i - |m|];
      ZerosAt(63, i - |m| - 1);
    }
    assert t[n..] == count;
    CountBytes(8 * |m| % W64);
    assert t[n] == count[0] && t[n + 1] == count[1] && t[n + 2] == count[2] && t[n + 3] == count[3];
    assert t[n + 4] == count[4] && t[n + 5] == count[5] && t[n + 6] == count[6] && t[n + 7] == count[7];
  }

  lemma CountBytes(x: nat)
    requires x < W64
    ensures var b := Encoded([x % W32, x / W32]);
            && |b| == 8
            && b[0] as int + 0x100 * b[1] as int + 0x1_0000 * b[2] as int + 0x100_0000 * b[3] as int == x % W32
            && b[4] as int + 0x100 * b[5] as int + 0x1_0000 * b[6] as int + 0x100_0000 * b[7] as int == x / W32
  {
    hide Encoded;
    forall k: nat | k < 8
      ensures Encoded([x % W32, x / W32])[k]
              == [x % W32, x / W32][k / 4] / [1, 0x100, 0x1_0000, 0x100_0000][k % 4] % 0x100
    {
      EncodedAt([x % W32, x / W32], k);
    }
    FourBytes(x % W32);
    FourBytes(x / W32);
  }

  lemma FourBytes(w: nat)
    requires w < W32
    ensures w == w % 0x100 + 0x100 * (w / 0x100 % 0x100) + 0x1_0000 * (w / 0x1_0000 % 0x100)
                 + 0x100_0000 * (w / 0x100_0000 % 0x100)
  {
    var x := w / 0x100;
    var y := x / 0x100;
    assert w / 0x1_0000 == y && w / 0x100_0000 == y / 0x100;
  }

  /** RFC 1321, section 3.3: the initial state, the low-order byte of each word first. */
  lemma InitialBytes()
    ensures Encoded([INIT.a, INIT.b, INIT.c, INIT.d])
         == [0x01, 0x23, 0x45, 0x67, 0x89, 0xAB, 0xCD, 0xEF, 0xFE, 0xDC, 0xBA, 0x98, 0x76, 0x54, 0x32, 0x10]
  {
    assert Bytes4(INIT.a) == [0x01, 0x23, 0x45, 0x67];
    assert Bytes4(INIT.b) == [0x89, 0xAB, 0xCD, 0xEF];
    assert Bytes4(INIT.c) == [0xFE, 0xDC, 0xBA, 0x98];
    assert Bytes4(INIT.d) == [0x76, 0x54, 0x32, 0x10];
    assert Encoded([INIT.d]) == Bytes4(INIT.d) + Encoded([]);
    assert [INIT.c, INIT.d][1..] == [INIT.d];
    assert Encoded([INIT.c, INIT.d]) == Bytes4(INIT.c) + Encoded([INIT.d]);
    assert [INIT.b, INIT.c, INIT.d][1..] == [INIT.c, INIT.d];
    assert [INIT.a, INIT.b, INIT.c, INIT.d][1..] == [INIT.b, INIT.c, INIT.d];
  }

  /** RFC 1321, section 3.5: A, B, C and D, of each the low-order byte first. */
  lemma DigestAt(f: Transform, m: seq<byte>, i: nat, j: nat)
    requires i < 4 && j < 4
    ensures var h := Fold(f, INIT, Padded(m));
            |Digest(f, m)| == 16 &&
            Digest(f, m)[4 * i + j] == [h.a, h.b, h.c, h.d][i] / [1, 0x100, 0x1_0000, 0x100_0000][j] % 0x100
  {
    hide Fold, Encoded, Padded;
    var h := Fold(f, INIT, Padded(m));
    EncodedAt([h.a, h.b, h.c, h.d], 4 * i + j);
  }

  /** A message of at most 55 bytes is one call of the block function. */
  lemma OneBlock(f: Transform, m: seq<byte>)
    requires |m| <= 55
    ensures |Padded(m)| == 64 && Fold(f, INIT, Padded(m)) == f(INIT, Padded(m))
  {
    hide Padded;
    PaddedIs(m);
    var t := Padded(m);
    assert |t| == 64 by {
      assert 64 * (|t| / 64) == |t|;
    }
    assert t[..64] == t && t[64..] == [];
  }

  /** The padding is the shortest that leaves room for the count at the end of a block. */
  lemma PaddingShortest(n: nat, k: nat)
    requires k >= 1 && (n + k) % BLOCK == 56
    ensures PadLength(n) <= k
  {
  }

  // ---------- encoding in place ----------

  /** MD5Encode. */
  method Encode(output: array<byte>, input: seq<nat>)
    requires output.Length >= 4 * |input|
    modifies output
    ensures output[..4 * |input|] == Encoded(input)
  {
    hide Encoded;
    var i, j := 0, 0;
    assert input[0..] == input;
    while i < |input|
      invariant i <= |input| && j == 4 * i && output[..j] + Encoded(input[i..]) == Encoded(input)
    {
      ghost var done, rest := output[..j], Encoded(input[i + 1..]);
      EncodedStep(input, i);
      EncodeWord(output, j, input[i]);
      assert done + Bytes4(input[i]) + rest == done + (Bytes4(input[i]) + rest);
      i, j := i + 1, j + 4;
    }
    EncodedNone(input);
  }

  /** MD5Decode. */
  method Decode(output: array<nat>, input: seq<byte>)
    requires |input| % 4 == 0 && 4 * output.Length >= |input|
    modifies output
    ensures output[..|input| / 4] == Decoded(input)
  {
    hide Decoded, Word4;
    var i, j := 0, 0;
    assert input[0..] == input;
    while j < |input|
      invariant 0 <= j <= |input| && j == 4 * i && i <= output.Length
      invariant output[..i] + Decoded(input[j..]) == Decoded(input)
    {
      ghost var done := output[..i];
      DecodedStep(input, j);
      output[i] := Word4(input[j..j + 4]);
      assert output[..i + 1] == done + [Word4(input[j..j + 4])];
      i, j := i + 1, j + 4;
    }
    DecodedNone(input);
  }

  lemma DecodedStep(input: seq<byte>, j: nat)
    requires |input| % 4 == 0 && j % 4 == 0 && j + 4 <= |input|
    ensures Decoded(input[j..]) == [Word4(input[j..j + 4])] + Decoded(input[j + 4..])
  {
    assert input[j..][..4] == input[j..j + 4] && input[j..][4..] == input[j + 4..];
  }

  lemma DecodedNone(input: seq<byte>)
    ensures Decoded(input[|input|..]) == []
  {
  }

  lemma EncodedStep(input: seq<nat>, i: nat)
    requires i < |input|
    ensures Encoded(input[i..]) == Bytes4(input[i]) + Encoded(input[i + 1..])
  {
    assert input[i..][1..] == input[i + 1..];
  }

  lemma EncodedNone(input: seq<nat>)
    ensures Encoded(input[|input|..]) == []
  {
  }

  method EncodeWord(output: array<byte>, j: nat, w: nat)
    requires j + 4 <= output.Length
    modifies output
    ensures output[..j + 4] == old(output[..j]) + Bytes4(w)
  {
    output[j] := w % 256;
    output[j + 1] := w / 256 % 256;
    output[j + 2] := w / 65536 % 256;
    output[j + 3] := w / 16777216 % 256;
  }

  // ---------- the context ----------

  /** Two words hold the bit count of n bytes, modulo 2^64. */
  ghost predicate Counts(low: nat, high: nat, n: nat) {
    low < W32 && high < W32 && exists q: nat :: CountsWith(low, high, n, q)
  }

  ghost predicate CountsWith(low: nat, high: nat, n: nat, q: nat) {
    8 * n == low + W32 * high + W64 * q
  }

  /** The bit count after `len` more bytes: the lower word with its carry, and the upper one. */
  lemma CountAdded(n: nat, len: nat, low: nat, high: nat)
    requires len < W32 && Counts(low, high, n)
    ensures var shifted := 8 * len % W32;
            var low' := (low + shifted) % W32;
            Counts(low', (high + (if low' < shifted then 1 else 0) + len / 0x2000_0000) % W32, n + len)
  {
    var q: nat :| CountsWith(low, high, n, q);
    var shifted, top := 8 * len % W32, len / 0x2000_0000;
    assert 8 * len == shifted + W32 * top;
    var low' := (low + shifted) % W32;
    var carry := if low' < shifted then 1 else 0;
    assert low + shifted == low' + W32 * carry;
    var sum := high + carry + top;
    var high', k := sum % W32, sum / W32;
    assert CountsWith(low', high', n + len, q + k);
  }

  lemma CountIs(low: nat, high: nat, n: nat)
    requires Counts(low, high, n)
    ensures BitCount(n) == [low, high]
  {
    var q: nat :| CountsWith(low, high, n, q);
    Remainder(8 * n, low + W32 * high, q);
  }

  lemma Remainder(x: nat, r: nat, q: nat)
    requires x == r + W64 * q && r < W64
    ensures x % W64 == r
  {
  }

  /** The position in the block, taken from the lower word of the count. */
  lemma IndexIs(low: nat, high: nat, n: nat)
    requires Counts(low, high, n)
    ensures low / 8 % BLOCK == n % BLOCK
  {
    var q: nat :| CountsWith(low, high, n, q);
    var eighths := W32 / 8 / BLOCK * high + W64 / 8 / BLOCK * q;
    assert low == 8 * (n - BLOCK * eighths);
    SameIndex(n, low / 8, eighths);
  }

  lemma SameIndex(n: nat, x: nat, k: nat)
    requires n == x + BLOCK * k
    ensures n % BLOCK == x % BLOCK
  {
  }

  /** The context of a message read so far: the state has the whole blocks, the buffer the rest. */
  ghost predicate Reads(f: Transform, state: Words, rest: seq<byte>, m: seq<byte>) {
    |rest| == |m| % BLOCK && rest == m[|m| - |rest|..] && state == Fold(f, INIT, m[..|m| - |rest|])
  }

  /** The buffered bytes and the first new ones make a block. */
  lemma FirstBlock(f: Transform, state: Words, rest: seq<byte>, m: seq<byte>, head: seq<byte>)
    requires Reads(f, state, rest, m) && |rest| + |head| == BLOCK
    ensures |m + head| % BLOCK == 0 && f(state, rest + head) == Fold(f, INIT, m + head)
  {
    hide Fold;
    var whole := m[..|m| - |rest|];
    WholeBlocks(|m|, |rest|);
    FoldOne(f, INIT, whole, rest + head);
    assert whole + (rest + head) == m + head;
  }

  lemma WholeBlocks(n: nat, r: nat)
    requires r == n % BLOCK
    ensures r <= n && (n - r) % BLOCK == 0 && (n + (BLOCK - r)) % BLOCK == 0
  {
  }

  /** Whole blocks are in the state, what is left is the rest. */
  lemma ReadsBlocks(f: Transform, state: Words, whole: seq<byte>, rest: seq<byte>)
    requires |whole| % BLOCK == 0 && |rest| < BLOCK && state == Fold(f, INIT, whole)
    ensures Reads(f, state, rest, whole + rest)
  {
    hide Fold;
    var m := whole + rest;
    assert |m| % BLOCK == |rest|;
    assert m[..|m| - |rest|] == whole && m[|m| - |rest|..] == rest;
  }

  /** Too little for a block: the state stays. */
  lemma ReadsMore(f: Transform, state: Words, rest: seq<byte>, m: seq<byte>, input: seq<byte>)
    requires Reads(f, state, rest, m) && |rest| + |input| < BLOCK
    ensures Reads(f, state, rest + input, m + input)
  {
    hide Fold;
    var whole := m[..|m| - |rest|];
    WholeBlocks(|m|, |rest|);
    ReadsBlocks(f, state, whole, rest + input);
    assert whole + (rest + input) == m + input;
  }

  // ---------- the loop's index has 32 bits ----------

  /** The loop of MD5Update ends, with `index` bytes in the buffer before. */
  predicate Ends(index: nat, len: nat) {
    len < if index == 0 then W32 - BLOCK else W32 - index
  }

  /** The loop's index after n turns. */
  function Index(start: nat, n: nat): nat {
    if n == 0 then start else (Index(start, n - 1) + BLOCK) % W32
  }

  /** The loop's condition at index i. */
  predicate Within(i: nat, len: nat) {
    (i + BLOCK) % W32 <= len
  }

  /** With `index` bytes in the buffer before, the loop goes on after n turns. */
  predicate GoesOn(index: nat, len: nat, n: nat)
    requires index <= BLOCK
  {
    Within(Index(BLOCK - index, n), len)
  }

  lemma {:induction false} IndexGrid(start: nat, n: nat)
    requires start < W32
    ensures Index(start, n) < W32 && Index(start, n) % BLOCK == start % BLOCK
  {
    if n > 0 {
      IndexGrid(start, n - 1);
      NextOnGrid(Index(start, n - 1));
    }
  }

  lemma NextOnGrid(i: nat)
    requires i < W32
    ensures (i + BLOCK) % W32 % BLOCK == i % BLOCK
    ensures (i + BLOCK) % W32 == if i + BLOCK < W32 then i + BLOCK else i + BLOCK - W32
  {
  }

  /** Below the bound the next index does not wrap. */
  lemma NoWrap(index: nat, len: nat, i: nat)
    requires index < BLOCK && Ends(index, len) && i <= len && (index + i) % BLOCK == 0
    ensures (i + BLOCK) % W32 == i + BLOCK
  {
    var k := (index + i) / BLOCK;
    assert index + i == BLOCK * k;
    assert k < W32 / BLOCK;
    if index == 0 {
      assert k < W32 / BLOCK - 1;
    }
  }

  /** Without wrapping the index counts up. */
  lemma {:induction false} IndexRuns(index: nat, len: nat, n: nat)
    requires index < BLOCK && Ends(index, len) && BLOCK - index <= len
    requires forall k | 0 <= k < n :: GoesOn(index, len, k)
    ensures Index(BLOCK - index, n) == BLOCK - index + BLOCK * n <= len
  {
    hide Ends;
    if n > 0 {
      IndexRuns(index, len, n - 1);
      var i := Index(BLOCK - index, n - 1);
      assert GoesOn(index, len, n - 1);
      Multiple(index + i, n);
      NoWrap(index, len, i);
    }
  }

  lemma Multiple(x: nat, k: nat)
    requires x == BLOCK * k
    ensures x % BLOCK == 0
  {
  }

  /** An index that still may wrap is followed by one within the input. */
  lemma WrapGoesOn(index: nat, len: nat, i: nat)
    requires index < BLOCK && !Ends(index, len) && BLOCK <= len < W32
    requires i < W32 && i % BLOCK == (BLOCK - index) % BLOCK
    ensures Within(i, len)
  {
    NextOnGrid(i);
    var next := (i + BLOCK) % W32;
    var k := next / BLOCK;
    assert next == BLOCK * k + (BLOCK - index) % BLOCK;
    assert k <= W32 / BLOCK - 1;
  }

  /** The loop over whole blocks ends if and only if its index cannot wrap. */
  lemma EndsIff(index: nat, len: nat)
    requires index < BLOCK && BLOCK - index <= len < W32
    ensures Ends(index, len) <==> exists n: nat :: !GoesOn(index, len, n)
  {
    hide Ends, Within, Index;
    if Ends(index, len) {
      if forall n: nat :: GoesOn(index, len, n) {
        IndexRuns(index, len, len);
        assert false;
      }
    } else {
      LongEnough(index, len);
      forall n: nat
        ensures GoesOn(index, len, n)
      {
        IndexGrid(BLOCK - index, n);
        WrapGoesOn(index, len, Index(BLOCK - index, n));
      }
    }
  }

  lemma LongEnough(index: nat, len: nat)
    requires index < BLOCK && !Ends(index, len)
    ensures BLOCK <= len
  {
  }

  /** With nothing in the buffer an input of 2^32 - 64 bytes is too long; one byte less is not. */
  lemma FirstTooLong(len: nat, less: nat)
    requires len == W32 - BLOCK && less == len - 1
    ensures forall n: nat :: GoesOn(0, len, n)
    ensures exists n: nat :: !GoesOn(0, less, n)
  {
    hide GoesOn;
    EndsIff(0, len);
    EndsIff(0, less);
  }

  /** The loop of MD5Update over the whole blocks of its input. */
  method MoreBlocks(f: Transform, h0: Words, input: seq<byte>, start: nat, ghost m: seq<byte>)
    returns (h: Words, i: nat)
    requires start <= |input| && |m + input[..start]| % BLOCK == 0 && h0 == Fold(f, INIT, m + input[..start])
    requires Ends(|m| % BLOCK, |input|)
    ensures i <= |input| < i + BLOCK && |m + input[..i]| % BLOCK == 0 && h == Fold(f, INIT, m + input[..i])
  {
    hide Fold, Ends;
    h, i := h0, start;
    OnBoundary(|m|, i);
    NoWrap(|m| % BLOCK, |input|, i);
    while (i + BLOCK) % W32 <= |input|
      invariant i <= |input| && |m + input[..i]| % BLOCK == 0 && (i + BLOCK) % W32 == i + BLOCK
      invariant h == Fold(f, INIT, m + input[..i])
      decreases |input| - i
    {
      FoldOne(f, INIT, m + input[..i], input[i..i + BLOCK]);
      assert m + input[..i] + input[i..i + BLOCK] == m + input[..i + BLOCK];
      h := f(h, input[i..i + BLOCK]);
      i := (i + BLOCK) % W32;
      OnBoundary(|m|, i);
      NoWrap(|m| % BLOCK, |input|, i);
    }
  }

  lemma OnBoundary(n: nat, i: nat)
    requires (n + i) % BLOCK == 0
    ensures (n % BLOCK + i) % BLOCK == 0
  {
  }

  class Context {
    const transform: Transform
    var low: nat
    var high: nat
    var state: Words
    const buffer: array<byte>
    ghost var message: seq<byte>

    ghost predicate Valid()
      reads this, buffer
    {
      && buffer.Length == BLOCK && Counts(low, high, |message|)
      && Reads(transform, state, buffer[..|message| % BLOCK], message)
    }

    /** MD5Init. */
    constructor (transform: Transform)
      ensures Valid() && fresh(buffer) && message == [] && this.transform == transform
    {
      this.transform, low, high, state, message := transform, 0, 0, INIT, [];
      buffer := new byte[BLOCK](_ => 0);
      new;
      assert CountsWith(0, 0, 0, 0);
    }

    /** memcpy into the buffer. */
    method CopyIn(at: nat, input: seq<byte>)
      requires buffer.Length == BLOCK && at + |input| <= BLOCK
      modifies buffer
      ensures buffer[..at + |input|] == old(buffer[..at]) + input
    {
      var i := 0;
      while i < |input|
        invariant i <= |input| && buffer[..at + i] == old(buffer[..at]) + input[..i]
      {
        buffer[at + i] := input[i];
        i := i + 1;
      }
    }

    /** The count in MD5Update. */
    method AddCount(len: nat)
      requires len < W32 && Counts(low, high, |message|)
      modifies `low, `high
      ensures Counts(low, high, |message| + len)
    {
      hide Counts;
      CountAdded(|message|, len, low, high);
      var shifted := 8 * len % W32;
      ghost var high0 := high;
      low := (low + shifted) % W32;
      if low < shifted {
        high := (high + 1) % W32;
      }
      high := (high + len / 0x2000_0000) % W32;
      TwoSums(high0, if low < shifted then 1 else 0, len / 0x2000_0000);
    }

    /** The blocks in MD5Update. */
    method AddBytes(index0: nat, input: seq<byte>)
      requires buffer.Length == BLOCK && index0 == |message| % BLOCK
      requires Reads(transform, state, buffer[..index0], message) && Ends(index0, |input|)
      modifies `state, `message, buffer
      ensures message == old(message) + input
      ensures Reads(transform, state, buffer[..|message| % BLOCK], message)
    {
      hide Fold, Reads, Ends;
      ghost var m, rest := message, buffer[..index0];
      var len, part := |input|, BLOCK - index0;
      RestLength(transform, state, rest, m);
      if len < part {
        ReadsMore(transform, state, rest, m, input);
        CopyIn(index0, input);
        RestLength(transform, state, rest + input, m + input);
      } else {
        FirstBlock(transform, state, rest, m, input[..part]);
        CopyIn(index0, input[..part]);
        assert buffer[..] == rest + input[..part];
        state := transform(state, buffer[..]);
        var i;
        state, i := MoreBlocks(transform, state, input, part, m);
        ReadsBlocks(transform, state, m + input[..i], input[i..]);
        assert m + input[..i] + input[i..] == m + input;
        CopyIn(0, input[i..]);
        assert buffer[..len - i] == input[i..];
        RestLength(transform, state, input[i..], m + input);
      }
      message := m + input;
    }

    /** MD5Update.  By EndsIff it ends on exactly these inputs. */
    method Update(input: seq<byte>)
      requires Valid() && Ends(|message| % BLOCK, |input|)
      modifies this, buffer
      ensures Valid() && message == old(message) + input
    {
      hide Fold, Reads, Counts;
      IndexIs(low, high, |message|);
      var index := low / 8 % BLOCK;
      AddCount(|input|);
      AddBytes(index, input);
    }

    /** The padding and the count, which end on a block boundary. */
    method Pad()
      requires Valid()
      modifies this, buffer
      ensures Valid() && message == Padded(old(message))
    {
      hide Fold, Reads, Counts, PadLength, Encoded;
      ghost var m := message;
      IndexIs(low, high, |m|);
      CountIs(low, high, |m|);
      var index := low / 8 % BLOCK;
      var padLength := if index < 56 then 56 - index else 120 - index;
      PadLengthIs(|m|, padLength);
      var bits := new byte[8](_ => 0);
      Encode(bits, [low, high]);
      assert bits[..] == bits[..8];
      Update(PADDING[..padLength]);
      Update(bits[..]);
    }

    /** MD5Final: the digest of everything that was read, however it was cut into pieces. */
    method Final(digest: array<byte>)
      requires Valid() && digest.Length == 16 && digest != buffer
      modifies this, buffer, digest
      ensures digest[..] == Digest(transform, old(message))
    {
      hide Fold, Reads, Counts, Encoded, Padded;
      ghost var m := message;
      Pad();
      AllBlocks(transform, state, buffer[..|message| % BLOCK], message);
      Encode(digest, [state.a, state.b, state.c, state.d]);
      assert digest[..] == digest[..16];
    }
  }

  lemma TwoSums(a: nat, b: nat, c: nat)
    ensures ((a + b) % W32 + c) % W32 == (a + b + c) % W32
    ensures a < W32 && b == 0 ==> (a + c) % W32 == (a + b + c) % W32
  {
  }

  lemma RestLength(f: Transform, state: Words, rest: seq<byte>, m: seq<byte>)
    requires Reads(f, state, rest, m)
    ensures |rest| == |m| % BLOCK
  {
  }

  lemma PadLengthIs(n: nat, k: nat)
    requires k == if n % BLOCK < 56 then 56 - n % BLOCK else 120 - n % BLOCK
    ensures k == PadLength(n) <= 64
  {
  }

  /** With whole blocks only, the state is the fold over everything. */
  lemma AllBlocks(f: Transform, state: Words, rest: seq<byte>, m: seq<byte>)
    requires Reads(f, state, rest, m) && |m| % BLOCK == 0
    ensures state == Fold(f, INIT, m)
  {
    assert m[..|m|] == m;
  }

  // ---------- a message in pieces ----------

  function Flatten(pieces: seq<seq<byte>>): seq<byte> {
    if pieces == [] then [] else Flatten(pieces[..|pieces| - 1]) + pieces[|pieces| - 1]
  }

  /** MD5Update ends on every piece. */
  predicate EveryEnds(pieces: seq<seq<byte>>) {
    forall i | 0 <= i < |pieces| :: Ends(|Flatten(pieces[..i])| % BLOCK, |pieces[i]|)
  }

  /** Init, any number of updates, final. */
  method Hash(transform: Transform, pieces: seq<seq<byte>>) returns (digest: array<byte>)
    requires EveryEnds(pieces)
    ensures digest.Length == 16 && digest[..] == Digest(transform, Flatten(pieces))
  {
    hide Digest;
    var context := new Context(transform);
    var i := 0;
    while i < |pieces|
      invariant i <= |pieces| && context.Valid() && fresh(context) && fresh(context.buffer)
      invariant context.transform == transform && context.message == Flatten(pieces[..i])
    {
      assert pieces[..i + 1][..i] == pieces[..i];
      context.Update(pieces[i]);
      i := i + 1;
    }
    assert pieces[..|pieces|] == pieces;
    digest := new byte[16](_ => 0);
    context.Final(digest);
  }

  /** Two ways of cutting the same message give the same digest. */
  method CutTwice(transform: Transform, pieces: seq<seq<byte>>, others: seq<seq<byte>>)
    returns (a: array<byte>, b: array<byte>)
    requires EveryEnds(pieces) && EveryEnds(others)
    requires Flatten(pieces) == Flatten(others)
    ensures a[..] == b[..]
  {
    hide Digest, Flatten;
    a := Hash(transform, pieces);
    b := Hash(transform, others);
  }
}
