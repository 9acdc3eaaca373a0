/**
 What the FastLZ compressors look for and what they take: which earlier position is tried at each position,
 how far a match goes, and how the moves become tokens.  It determines the stream for every input.
 */
module FastLzSearch {
  import opened Basics
  import opened LzCopy
  import opened FastLzFormat

  const HASH_SIZE := 8192

  /** One input byte for the hash.  After a far match that ends with the input, level 2 hashes
      three bytes of which the last is not there; what is read never matters to the result. */
  function At(input: seq<byte>, p: nat): byte {
    if p < |input| then input[p] else 0
  }

  function Pair(input: seq<byte>, p: nat): bv16 {
    At(input, p) as bv16 | (At(input, p + 1) as bv16 << 8)
  }

  /** HASH_FUNCTION; masking with HASH_MASK is the remainder modulo HASH_SIZE. */
  function Hash(input: seq<byte>, p: nat): (h: nat)
    ensures h < HASH_SIZE
  {
    var v := Pair(input, p);
    ((Pair(input, p + 1) ^ (v >> 3)) ^ v) as int % HASH_SIZE
  }

  // ---------- moves ----------

  /** One pass of the main loop: a literal, or a match of so many bytes from so far back. */
  datatype Move = Plain | Take(dist: nat, len: nat)

  /** The first two bytes are literals unseen; each move takes the compressor on from there. */
  ghost function Position(moves: seq<Move>): (p: nat)
    ensures p >= 2
  {
    if moves == [] then 2
    else
      var m := moves[|moves| - 1];
      Position(moves[..|moves| - 1]) + if m.Take? then m.len else 1
  }

  /** Level 2 first tries the byte before: four equal bytes are a run. */
  ghost predicate RunAt(level: Level, input: seq<byte>, p: nat) {
    level == 2 && 1 <= p && p + 2 < |input| && input[p - 1] == input[p] == input[p + 1] == input[p + 2]
  }

  /** The positions entered in the table, one after the other: each one looked up, and the last two of
      every match. */
  ghost function Seen(level: Level, input: seq<byte>, moves: seq<Move>): seq<nat> {
    if moves == [] then []
    else
      var before, m := moves[..|moves| - 1], moves[|moves| - 1];
      var p := Position(before);
      Seen(level, input, before) + (if RunAt(level, input, p) then [] else [p])
      + if m.Take? && m.len >= 2 then [p + m.len - 2, p + m.len - 1] else []
  }

  /** The last of those with hash value h; the start of the input if there is none. */
  ghost function Latest(input: seq<byte>, seen: seq<nat>, h: nat): nat {
    if seen == [] then 0
    else if Hash(input, seen[|seen| - 1]) == h then seen[|seen| - 1]
    else Latest(input, seen[..|seen| - 1], h)
  }

  /** How far back the next bytes are expected to have occurred. */
  ghost function Back(level: Level, input: seq<byte>, moves: seq<Move>): int {
    var p := Position(moves);
    if RunAt(level, input, p) then 1 else p - Latest(input, Seen(level, input, moves), Hash(input, p))
  }

  /** A far match of level 2 has five bytes at least, any other three. */
  function Least(level: Level, dist: int): nat { if level == 2 && dist >= NEAR2 then 5 else 3 }

  ghost predicate Found(level: Level, input: seq<byte>, moves: seq<Move>) {
    var p, dist := Position(moves), Back(level, input, moves);
    1 <= dist < MaxDistance(level) && Repeats(input, p, p + Least(level, dist), dist)
  }

  /** A match goes on until the bytes differ, or to three bytes before the end; only one that is no run
      is given seven bytes more than it needs in any case. */
  function Limit(level: Level, dist: nat, p: nat, size: nat): int {
    if dist == 1 || size - 3 - p >= Least(level, dist) + 7 then size - 3 - p else Least(level, dist) + 7
  }

  ghost predicate Reaches(level: Level, input: seq<byte>, p: nat, dist: nat, len: nat) {
    && 1 <= dist <= p && Least(level, dist) <= len <= Limit(level, dist, p, |input|)
    && Repeats(input, p, p + len, dist)
    && (len == Limit(level, dist, p, |input|) || (p + len < |input| && input[p + len] != input[p + len - dist]))
  }

  /** The next move: near the end a literal; else a match where one is found, as far as it goes. */
  ghost predicate Follows(level: Level, input: seq<byte>, moves: seq<Move>, m: Move) {
    var p := Position(moves);
    if p + 12 < |input| && Found(level, input, moves) then
      m.Take? && m.dist == Back(level, input, moves) && Reaches(level, input, p, m.dist, m.len)
    else m == Plain && p < |input|
  }

  ghost predicate Played(level: Level, input: seq<byte>, moves: seq<Move>) {
    forall k | 0 <= k < |moves| :: Follows(level, input, moves[..k], moves[k])
  }

  // ---------- tokens ----------

  function Slice(input: seq<byte>, a: int, b: int): seq<byte> {
    if 0 <= a <= b <= |input| then input[a..b] else []
  }

  /** The literals of the run being collected. */
  ghost function Pending(moves: seq<Move>): (c: nat)
    ensures c < MAX_COPY
  {
    if moves == [] then 2
    else
      var c := Pending(moves[..|moves| - 1]);
      if moves[|moves| - 1].Take? || c + 1 == MAX_COPY then 0 else c + 1
  }

  /** A long match of level 1 is cut into pieces. */
  ghost function Pieces(level: Level, len: nat, dist: nat): seq<Token> {
    if level == 1 && len > MAX_LEN then [Match(MAX_LEN - 2, dist)] + Pieces(level, len - (MAX_LEN - 2), dist)
    else [Match(len, dist)]
  }

  ghost function RunOf(input: seq<byte>, p: nat, c: nat): seq<Token> {
    if c == 0 then [] else [Literals(Slice(input, p - c, p))]
  }

  /** The tokens completed: a run of literals ends where it is full or a match follows. */
  ghost function Tokens(level: Level, input: seq<byte>, moves: seq<Move>): seq<Token> {
    if moves == [] then []
    else
      var before, m := moves[..|moves| - 1], moves[|moves| - 1];
      var p, c := Position(before), Pending(before);
      Tokens(level, input, before) +
      if m.Take? then RunOf(input, p, c) + Pieces(level, m.len, m.dist)
      else if c + 1 == MAX_COPY then RunOf(input, p + 1, c + 1)
      else []
  }

  /** All of them, with the run left open at the end. */
  ghost function AllTokens(level: Level, input: seq<byte>, moves: seq<Move>): seq<Token> {
    Tokens(level, input, moves) + RunOf(input, Position(moves), Pending(moves))
  }

  // ---------- the moves are determined ----------

  lemma {:induction false} PositionGrows(moves: seq<Move>, k: nat)
    requires k <= |moves|
    ensures Position(moves[..k]) <= Position(moves)
  {
    if k < |moves| {
      var init := moves[..|moves| - 1];
      assert init[..k] == moves[..k];
      PositionGrows(init, k);
    } else {
      assert moves[..k] == moves;
    }
  }

  lemma ReachesOnce(level: Level, input: seq<byte>, p: nat, dist: nat, a: nat, b: nat)
    requires Reaches(level, input, p, dist, a) && Reaches(level, input, p, dist, b)
    ensures a == b
  {
    hide Repeats;
    if a < b {
      RepeatsAt(input, p, p + b, dist, p + a);
    } else if b < a {
      RepeatsAt(input, p, p + a, dist, p + b);
    }
  }

  lemma RepeatsAt(input: seq<byte>, p: nat, e: nat, dist: nat, i: nat)
    requires Repeats(input, p, e, dist) && p <= i < e
    ensures dist <= i < |input| && input[i] == input[i - dist]
  {
  }

  lemma FollowsOnce(level: Level, input: seq<byte>, moves: seq<Move>, a: Move, b: Move)
    requires Follows(level, input, moves, a) && Follows(level, input, moves, b)
    ensures a == b
  {
    hide Reaches, Found, Back, Position;
    if a.Take? && b.Take? {
      ReachesOnce(level, input, Position(moves), a.dist, a.len, b.len);
    }
  }

  lemma TakesOn(level: Level, input: seq<byte>, moves: seq<Move>, k: nat)
    requires Played(level, input, moves) && k < |moves|
    ensures Position(moves[..k]) < Position(moves)
  {
    hide Found, Back, Position, Repeats;
    assert Follows(level, input, moves[..k], moves[k]);
    StepOn(moves, k);
    PositionGrows(moves, k + 1);
  }

  lemma StepOn(moves: seq<Move>, k: nat)
    requires k < |moves|
    ensures Position(moves[..k + 1]) == Position(moves[..k]) + if moves[k].Take? then moves[k].len else 1
  {
    assert moves[..k + 1][..k] == moves[..k];
  }

  /** For every input the moves that reach its end are determined: there is one way to compress it. */
  lemma {:induction false} OneWay(level: Level, input: seq<byte>, a: seq<Move>, b: seq<Move>, k: nat)
    requires Played(level, input, a) && Played(level, input, b) && k <= |a| && k <= |b| && a[..k] == b[..k]
    requires Position(a) == Position(b) == |input|
    ensures a == b
    decreases |a| - k
  {
    hide Follows, Position;
    if k < |a| && k < |b| {
      FollowsOnce(level, input, a[..k], a[k], b[k]);
      assert a[..k + 1] == a[..k] + [a[k]] && b[..k + 1] == b[..k] + [b[k]];
      OneWay(level, input, a, b, k + 1);
    } else {
      assert a[..k] == a || b[..k] == b;
      if k < |a| {
        TakesOn(level, input, a, k);
      }
      if k < |b| {
        TakesOn(level, input, b, k);
      }
    }
  }

  lemma {:induction false} LatestIs(input: seq<byte>, seen: seq<nat>, h: nat, i: nat)
    requires i < |seen| && Hash(input, seen[i]) == h && forall j | i < j < |seen| :: Hash(input, seen[j]) != h
    ensures Latest(input, seen, h) == seen[i]
    decreases |seen|
  {
    hide Hash;
    if i < |seen| - 1 {
      LatestIs(input, seen[..|seen| - 1], h, i);
    }
  }

  // ---------- texts of one byte ----------

  ghost predicate OneByte(input: seq<byte>) { forall i | 0 <= i < |input| :: input[i] == input[0] }

  /** A text of one byte repeated becomes a match for all but its first two and last three bytes. */
  lemma OneByteMoves(level: Level, input: seq<byte>, moves: seq<Move>)
    requires OneByte(input) && |input| >= 15 && Played(level, input, moves) && Position(moves) == |input|
    ensures moves == [Take(if level == 1 then 2 else 1, |input| - 5), Plain, Plain, Plain]
  {
    hide Hash;
    var n := |input|;
    var d := if level == 1 then 2 else 1;
    var expected := [Take(d, n - 5), Plain, Plain, Plain];
    assert RunAt(level, input, 2) <==> level == 2;
    assert Back(level, input, []) == d;
    assert Repeats(input, 2, 2 + (n - 5), d);
    assert Follows(level, input, [], Take(d, n - 5));
    assert expected[..0] == [] && expected[..1] == [Take(d, n - 5)] && expected[..1][..0] == [];
    assert expected[..2] == [Take(d, n - 5), Plain] && expected[..2][..1] == expected[..1];
    assert expected[..3] == [Take(d, n - 5), Plain, Plain] && expected[..3][..2] == expected[..2];
    assert expected[..4] == expected;
    assert Position(expected[..1]) == n - 3 && Position(expected[..2]) == n - 2 && Position(expected[..3]) == n - 1;
    assert Position(expected) == n;
    assert Played(level, input, expected);
    assert moves[..0] == expected[..0];
    OneWay(level, input, moves, expected, 0);
  }
}
