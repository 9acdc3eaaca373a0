/** fastlz_decompress with fastlz1_decompress and fastlz2_decompress, in place on an output buffer. */
module FastLzDecompressor {
  import opened Basics
  import opened LzCopy
  import opened FastLzFormat
  import FastLzCompressor

  /** The length bytes of a long level 2 match, summed up to the first that is not 255. */
  method ReadLength(input: seq<byte>, ip0: nat) returns (ok: bool, len: nat, ip: nat)
    requires ip0 <= |input|
    ensures ok <==> ReadLong(input[ip0..]).Some?
    ensures ok ==> ip <= |input| && ReadLong(input[ip0..]) == Some((len, ip - ip0))
  {
    len, ip := 0, ip0;
    while true
      invariant ip0 <= ip <= |input|
      invariant ReadLong(input[ip0..]) ==
                match ReadLong(input[ip..])
                case None => None
                case Some((n, k)) => Some((len + n, ip - ip0 + k))
      decreases |input| - ip
    {
      if ip == |input| {
        return false, 0, ip;
      }
      var code := input[ip];
      assert input[ip..][1..] == input[ip + 1..];
      len, ip := len + code, ip + 1;
      if code != 255 {
        return true, len, ip;
      }
    }
  }

  method ReadHead(level: Level, ctrl: byte, input: seq<byte>, ip0: nat)
    returns (ok: bool, len: nat, dist: nat, ip: nat)
    requires ctrl >= 32 && ip0 <= |input|
    ensures ok <==> ReadMatch(level, ctrl, input[ip0..]).Some?
    ensures ok ==> ip0 <= ip <= |input| && ReadMatch(level, ctrl, input[ip0..]) == Some(Head(len + 3, dist, ip - ip0))
  {
    len, ip, dist := ctrl / 32 - 1, ip0, 0;
    var ofs: nat := ctrl % 32 * 256;
    ghost var rest := input[ip0..];
    if len == 6 {
      var more;
      if level == 1 {
        if ip == |input| {
          return false, 0, 0, ip;
        }
        more, ip := input[ip], ip + 1;
      } else {
        ok, more, ip := ReadLength(input, ip);
        if !ok {
          return;
        }
      }
      len := len + more;
    }
    if ip == |input| {
      return false, 0, 0, ip;
    }
    var code := input[ip];
    assert rest[ip - ip0] == code;
    ip, dist := ip + 1, ofs + code + 1;
    if level == 2 && code == 255 && ofs == 31 * 256 {
      if ip + 1 >= |input| {
        return false, 0, 0, ip;
      }
      assert rest[ip - ip0] == input[ip] && rest[ip + 1 - ip0] == input[ip + 1];
      ofs := input[ip] as int * 256;
      ofs := ofs + input[ip + 1];
      ip, dist := ip + 2, ofs + NEAR2 + 1;
    }
    ok := true;
  }

  /** Copies `len` bytes from `dist` back; a distance of one repeats a single byte. */
  method CopyMatch(output: array<byte>, op0: nat, dist: nat, len: nat)
    requires 1 <= dist <= op0 && op0 + len <= output.Length
    modifies output
    ensures output[..op0 + len] == CopyFrom(old(output[..op0]), dist, len)
  {
    var op: nat, left: nat := op0, len;
    var b := output[op - 1];
    while left > 0
      invariant op + left == op0 + len
      invariant dist == 1 ==> output[op - 1] == b
      invariant CopyFrom(output[..op], dist, left) == CopyFrom(old(output[..op0]), dist, len)
      decreases left
    {
      ghost var before := output[..op];
      output[op] := if dist == 1 then b else output[op - dist];
      op, left := op + 1, left - 1;
      assert output[..op] == before + [before[|before| - dist]];
    }
  }

  method CopyLiterals(input: seq<byte>, ip: nat, output: array<byte>, op: nat, n: nat)
    requires ip + n <= |input| && op + n <= output.Length
    modifies output
    ensures output[..op + n] == old(output[..op]) + input[ip..ip + n]
  {
    var k := 0;
    while k < n
      invariant k <= n && output[..op + k] == old(output[..op]) + input[ip..ip + k]
    {
      output[op + k] := input[ip + k];
      k := k + 1;
      assert input[ip..ip + k] == input[ip..ip + (k - 1)] + [input[ip + (k - 1)]];
    }
  }

  /** What the source returns, against the decoder function: the byte count and the bytes, or 0.
      `short` reports that the stream ended inside a match. */
  ghost predicate Answers(o: Outcome, size: nat, short: bool, output: seq<byte>) {
    match o
    case Done(out) => !short && size == |out| && size <= |output| && output[..size] == out
    case Rejected => !short && size == 0
    case Overread => short
  }

  /** One turn of the decoder function, spelled out. */
  lemma RunTurn(level: Level, ctrl: byte, rest: seq<byte>, out: seq<byte>, maxout: nat)
    ensures ctrl >= 32 && ReadMatch(level, ctrl, rest) == None ==> Run(level, ctrl, rest, out, maxout) == Overread
    ensures ctrl >= 32 && ReadMatch(level, ctrl, rest).Some? ==>
              var h := ReadMatch(level, ctrl, rest).value;
              Run(level, ctrl, rest, out, maxout) ==
              if |out| + h.len > maxout || h.dist > |out| then Rejected
              else Next(level, rest[h.size..], CopyFrom(out, h.dist, h.len), maxout)
    ensures ctrl < 32 ==>
              Run(level, ctrl, rest, out, maxout) ==
              if |out| + ctrl + 1 > maxout || ctrl + 1 > |rest| then Rejected
              else Next(level, rest[ctrl + 1..], out + rest[..ctrl + 1], maxout)
  {
  }

  method DecompressLevel(level: Level, input: seq<byte>, output: array<byte>, maxout: nat)
    returns (size: nat, short: bool)
    requires input != [] && maxout <= output.Length
    modifies output
    ensures Answers(Run(level, input[0] % 32, input[1..], [], maxout), size, short, output[..])
  {
    hide Run, CopyFrom, ReadMatch;
    ghost var goal := Run(level, input[0] % 32, input[1..], [], maxout);
    var ip: nat, op: nat, loop := 1, 0, true;
    var ctrl: byte := input[0] % 32;
    assert output[..0] == [];
    while loop
      invariant ip <= |input| && op <= maxout
      invariant goal == if loop then Run(level, ctrl, input[ip..], output[..op], maxout) else Done(output[..op])
      decreases |input| - ip, loop
    {
      ghost var rest := input[ip..];
      RunTurn(level, ctrl, rest, output[..op], maxout);
      if ctrl >= 32 {
        var ok, len, dist, next := ReadHead(level, ctrl, input, ip);
        if !ok {
          return 0, true;
        }
        if op + len + 3 > maxout || dist > op {
          return 0, false;
        }
        CopyMatch(output, op, dist, len + 3);
        assert rest[next - ip..] == input[next..];
        ip, op := next, op + len + 3;
      } else {
        var n := ctrl + 1;
        if op + n > maxout || ip + n > |input| {
          return 0, false;
        }
        CopyLiterals(input, ip, output, op, n);
        assert rest[..n] == input[ip..ip + n] && rest[n..] == input[ip + n..];
        ip, op := ip + n, op + n;
      }
      assert goal == Next(level, input[ip..], output[..op], maxout);
      loop := ip < |input|;
      if loop {
        assert input[ip..][1..] == input[ip + 1..];
        ctrl, ip := input[ip], ip + 1;
      }
    }
    size, short := op, false;
  }

  /** fastlz_decompress: dispatch on the level; an unknown level gives 0. */
  method Decompress(input: seq<byte>, output: array<byte>, maxout: nat) returns (size: nat, short: bool)
    requires input != [] && maxout <= output.Length
    modifies output
    ensures Answers(FastLzFormat.Decompress(input, maxout), size, short, output[..])
  {
    var level := input[0] / 32 + 1;
    if level == 1 || level == 2 {
      size, short := DecompressLevel(level, input, output, maxout);
    } else {
      size, short := 0, false;
    }
  }

  /** Compressing and decompressing, with buffers of any admissible size, gives back the input. */
  method RoundTrip(level: Level, input: seq<byte>, packedRoom: nat, maxout: nat)
    returns (size: nat, text: array<byte>)
    requires input != [] && |input| + |input| / 32 + 1 <= packedRoom && |input| <= maxout
    ensures size == |input| && size <= text.Length && text[..size] == input
  {
    var packed := new byte[packedRoom](_ => 0);
    text := new byte[maxout](_ => 0);
    var n, _ := FastLzCompressor.Compress(level, input, packed);
    var short;
    size, short := Decompress(packed[..n], text, maxout);
  }

  /** The padding fastlz.h asks for is always enough for the compressor. */
  lemma PaddingSuffices(n: nat)
    ensures n + n / 32 + 1 <= n + (66 + n * 5 / 100)
  {
    assert n * 5 / 100 >= n / 32 - 65 by {
      assert n / 20 == n * 5 / 100;
    }
  }
}
