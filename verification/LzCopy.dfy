/** What both decompressors do with a match: copy bytes already written, one at a time. */
module LzCopy {
  import opened Basics

  /** Byte-by-byte copy: with len > dist the copy reads bytes it has just written. */
  function CopyFrom(out: seq<byte>, dist: nat, len: nat): (r: seq<byte>)
    requires 1 <= dist <= |out|
    ensures |r| == |out| + len
    decreases len
  {
    if len == 0 then out else CopyFrom(out + [out[|out| - dist]], dist, len - 1)
  }

  /** The text from p to e repeats the text `dist` bytes before it. */
  ghost predicate Repeats(x: seq<byte>, p: nat, e: int, dist: nat) {
    1 <= dist <= p && e <= |x| && forall i | p <= i < e :: x[i] == x[i - dist]
  }

  /** Where the text repeats itself at distance `dist`, copying reproduces it, overlap or not. */
  lemma {:induction false} CopyReproduces(x: seq<byte>, p: nat, dist: nat, len: nat)
    requires Repeats(x, p, p + len, dist)
    ensures CopyFrom(x[..p], dist, len) == x[..p + len]
    decreases len
  {
    if len > 0 {
      assert x[..p] + [x[..p][p - dist]] == x[..p + 1];
      CopyReproduces(x, p + 1, dist, len - 1);
    }
  }
}
