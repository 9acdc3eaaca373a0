/**
 What the QuickLZ compressor tries at each position and which token it takes.  Every position passed is
 entered, so what is tried depends on the source alone, and with it the stream.
 */
module QlzSearch {
  import opened Basics
  import opened LzCopy
  import opened QlzFormat

  const HASH_VALUES := 4096
  const POINTERS := 16

  /** hash_func; masking with QLZ_HASH_VALUES - 1 is the remainder. */
  function HashOf(a: byte, b: byte, c: byte): (h: nat)
    ensures h < HASH_VALUES
  {
    var fetch := a as bv32 | (b as bv32 << 8) | (c as bv32 << 16);
    ((fetch >> 12) ^ fetch) as int % HASH_VALUES
  }

  /** The hash value of the three bytes at p. */
  function HashAt(source: seq<byte>, p: nat): (h: nat)
    requires p + 3 <= |source|
    ensures h < HASH_VALUES
  {
    HashOf(source[p], source[p + 1], source[p + 2])
  }

  // ---------- what is tried ----------

  /** The positions before n with hash value h, in order. */
  ghost function History(source: seq<byte>, n: nat, h: nat): seq<nat>
    requires n == 0 || n + 2 <= |source|
  {
    if n == 0 then []
    else History(source, n - 1, h) + if HashAt(source, n - 1) == h then [n - 1] else []
  }

  /** Sixteen of them at most are remembered, each in its slot; o is remembered in one of the first k. */
  ghost predicate Remembered(past: seq<nat>, k: nat, o: nat) {
    exists i | 0 <= i < |past| <= i + POINTERS :: i % POINTERS < k && past[i] == o
  }

  function Same3(source: seq<byte>, p: nat, q: nat): bool
    requires p + 3 <= |source| && q + 3 <= |source|
  {
    source[p] == source[q] && source[p + 1] == source[q + 1] && source[p + 2] == source[q + 2]
  }

  /** The `len` bytes at src occur at the earlier position o, far enough back and away from the end. */
  ghost predicate MatchAt(source: seq<byte>, src: nat, o: nat, len: nat) {
    && 3 <= len <= 255 && o + MINOFFSET < src && src + len + UNCOMPRESSED_END <= |source|
    && Repeats(source, src, src + len, src - o)
  }

  /** It goes on until the bytes differ, the uncompressed end begins, or 255 bytes are reached. */
  ghost predicate Longest(source: seq<byte>, src: nat, o: nat, len: nat) {
    MatchAt(source, src, o, len) &&
    (len == 255 || src + len + UNCOMPRESSED_END == |source| || source[o + len] != source[src + len])
  }

  /** The longest match at one of those positions, the nearest of equally long ones. */
  ghost predicate Best(source: seq<byte>, src: nat, past: seq<nat>, k: nat, o: nat, len: nat) {
    if len == 0 then forall c | Remembered(past, k, c) :: !MatchAt(source, src, c, 3)
    else
      && Remembered(past, k, o) && Longest(source, src, o, len)
      && forall c: nat, m: nat | Remembered(past, k, c) && Longest(source, src, c, m) :: m < len || (m == len && c <= o)
  }

  /** The count of a hash value is kept in eight bits; a slot is looked at if its number is smaller. */
  ghost predicate Finds(source: seq<byte>, src: nat, o: nat, len: nat)
    requires src + MATCH_MARGIN <= |source|
  {
    var past := History(source, src, HashAt(source, src));
    Best(source, src, past, |past| % 256, o, len)
  }

  lemma MatchAtThree(source: seq<byte>, src: nat, o: nat)
    requires src + MATCH_MARGIN <= |source| && o < src
    ensures MatchAt(source, src, o, 3) <==> o + MINOFFSET < src && Same3(source, o, src)
  {
    assert o < src && Same3(source, o, src) ==> Repeats(source, src, src + 3, src - o) by {
      if o < src && Same3(source, o, src) {
        forall i | src <= i < src + 3
          ensures source[i] == source[i - (src - o)]
        {
          assert i == src || i == src + 1 || i == src + 2;
        }
      }
    }
    assert Repeats(source, src, src + 3, src - o) ==> Same3(source, o, src) by {
      if Repeats(source, src, src + 3, src - o) {
        RepeatsAt(source, src, src + 3, src - o, src);
        RepeatsAt(source, src, src + 3, src - o, src + 1);
        RepeatsAt(source, src, src + 3, src - o, src + 2);
      }
    }
  }

  /** What is remembered in slot k. */
  lemma InSlot(past: seq<nat>, k: nat) returns (i: nat)
    requires k < POINTERS && k < |past|
    ensures i < |past| <= i + POINTERS && i % POINTERS == k
  {
    var d := (|past| - 1 - k) % POINTERS;
    i := |past| - 1 - d;
    DivMod((|past| - 1 - k) / POINTERS, k, POINTERS);
  }

  lemma SlotAdds(past: seq<nat>, k: nat, i: nat, x: nat)
    requires i < |past| <= i + POINTERS && i % POINTERS == k
    ensures Remembered(past, k + 1, x) <==> Remembered(past, k, x) || x == past[i]
  {
    if Remembered(past, k + 1, x) {
      var j: nat :| j < |past| <= j + POINTERS && j % POINTERS < k + 1 && past[j] == x;
      if j % POINTERS == k {
        SameSlot(i, j, |past|);
      }
    }
  }

  lemma SameSlot(i: nat, j: nat, n: nat)
    requires i < n <= i + POINTERS && j < n <= j + POINTERS && i % POINTERS == j % POINTERS
    ensures i == j
  {
  }

  /** One more slot looked at: p is in it, and a longest match there has m bytes, or none is there. */
  lemma BestAdds(source: seq<byte>, src: nat, past: seq<nat>, k: nat, o: nat, len: nat, i: nat, m: nat)
    requires Best(source, src, past, k, o, len)
    requires i < |past| <= i + POINTERS && i % POINTERS == k
    requires if m == 0 then !MatchAt(source, src, past[i], 3) else Longest(source, src, past[i], m)
    ensures var better := m > len || (m == len && m > 0 && past[i] > o);
            Best(source, src, past, k + 1, if better then past[i] else o, if better then m else len)
  {
    hide Remembered, MatchAt, Longest;
    var p := past[i];
    forall c: nat
      ensures Remembered(past, k + 1, c) <==> Remembered(past, k, c) || c == p
    {
      SlotAdds(past, k, i, c);
    }
    forall c: nat, n: nat | Longest(source, src, c, n)
      ensures MatchAt(source, src, c, 3) && n > 0
      ensures c == p && m > 0 ==> n == m
    {
      LongestMeans(source, src, c, n);
      if c == p && m > 0 {
        LongestOnce(source, src, c, n, m);
      }
    }
  }

  lemma LongestMeans(source: seq<byte>, src: nat, o: nat, len: nat)
    requires Longest(source, src, o, len)
    ensures len > 0 && MatchAt(source, src, o, 3)
  {
    Shorter(source, src, o, len);
  }

  lemma BestNone(source: seq<byte>, src: nat, past: seq<nat>, o: nat)
    ensures Best(source, src, past, 0, o, 0)
  {
  }

  /** There are no more than sixteen slots. */
  lemma BestAll(source: seq<byte>, src: nat, past: seq<nat>, k: nat, o: nat, len: nat)
    requires Best(source, src, past, POINTERS, o, len) && k >= POINTERS
    ensures Best(source, src, past, k, o, len)
  {
    hide MatchAt, Longest;
    forall c: nat
      ensures Remembered(past, k, c) <==> Remembered(past, POINTERS, c)
    {
    }
  }

  // ---------- which token is taken ----------

  ghost function Covered(ts: seq<Token>): nat {
    if ts == [] then 0
    else
      var t := ts[|ts| - 1];
      Covered(ts[..|ts| - 1]) + if t.Copy? then t.len else 1
  }

  function TokenFor(source: seq<byte>, src: nat, o: nat, len: nat): Token
    requires src < |source|
  {
    if len > 2 && o <= src && src - o < MAX_OFFSET then Copy(len, src - o) else Lit(source[src])
  }

  ghost predicate Takes(source: seq<byte>, src: nat, t: Token) {
    if src + MATCH_MARGIN <= |source| then
      exists o: nat, len: nat :: Finds(source, src, o, len) && t == TokenFor(source, src, o, len)
    else src < |source| && t == Lit(source[src])
  }

  ghost predicate Chosen(source: seq<byte>, ts: seq<Token>) {
    forall k | 0 <= k < |ts| :: Takes(source, Covered(ts[..k]), ts[k])
  }

  // ---------- the choice is determined ----------

  lemma LongestOnce(source: seq<byte>, src: nat, o: nat, a: nat, b: nat)
    requires Longest(source, src, o, a) && Longest(source, src, o, b)
    ensures a == b
  {
    hide Repeats;
    if a < b {
      RepeatsAt(source, src, src + b, src - o, src + a);
    } else if b < a {
      RepeatsAt(source, src, src + a, src - o, src + b);
    }
  }

  lemma RepeatsAt(source: seq<byte>, p: nat, e: nat, dist: nat, i: nat)
    requires Repeats(source, p, e, dist) && p <= i < e
    ensures dist <= i < |source| && source[i] == source[i - dist]
  {
  }

  lemma Shorter(source: seq<byte>, src: nat, o: nat, len: nat)
    requires MatchAt(source, src, o, len)
    ensures MatchAt(source, src, o, 3)
  {
  }

  lemma BestOnce(source: seq<byte>, src: nat, past: seq<nat>, k: nat, o: nat, len: nat, o': nat, len': nat)
    requires Best(source, src, past, k, o, len) && Best(source, src, past, k, o', len')
    ensures len == len' && (len > 0 ==> o == o')
  {
    hide Remembered, MatchAt;
    if len > 0 {
      Shorter(source, src, o, len);
    }
    if len' > 0 {
      Shorter(source, src, o', len');
    }
  }

  lemma TakesOnce(source: seq<byte>, src: nat, a: Token, b: Token)
    requires Takes(source, src, a) && Takes(source, src, b)
    ensures a == b
  {
    hide Best, HashAt, History;
    if src + MATCH_MARGIN <= |source| {
      var past := History(source, src, HashAt(source, src));
      var o: nat, len: nat :| Finds(source, src, o, len) && a == TokenFor(source, src, o, len);
      var o': nat, len': nat :| Finds(source, src, o', len') && b == TokenFor(source, src, o', len');
      BestOnce(source, src, past, |past| % 256, o, len, o', len');
    }
  }

  /** Of two lists of tokens chosen for one source, one begins with the other. */
  lemma {:induction false} OneChoice(source: seq<byte>, a: seq<Token>, b: seq<Token>, k: nat)
    requires Chosen(source, a) && Chosen(source, b) && k <= |a| && k <= |b|
    ensures a[..k] == b[..k]
    decreases k
  {
    hide Takes;
    if k > 0 {
      OneChoice(source, a, b, k - 1);
      TakesOnce(source, Covered(a[..k - 1]), a[k - 1], b[k - 1]);
      assert a[..k] == a[..k - 1] + [a[k - 1]] && b[..k] == b[..k - 1] + [b[k - 1]];
    }
  }

  lemma CoveredSnoc(ts: seq<Token>, t: Token)
    ensures Covered(ts + [t]) == Covered(ts) + if t.Copy? then t.len else 1
  {
    assert (ts + [t])[..|ts|] == ts;
  }

  lemma ChosenSnoc(source: seq<byte>, ts: seq<Token>, t: Token)
    requires Chosen(source, ts) && Takes(source, Covered(ts), t)
    ensures Chosen(source, ts + [t])
  {
    hide Takes;
    var all := ts + [t];
    forall k | 0 <= k < |all|
      ensures Takes(source, Covered(all[..k]), all[k])
    {
      if k < |ts| {
        assert all[..k] == ts[..k] && all[k] == ts[k];
      } else {
        assert all[..k] == ts;
      }
    }
  }

  // ---------- the history ----------

  /** Exactly the positions with that hash value, each after those before it. */
  lemma {:induction false} HistoryHas(source: seq<byte>, n: nat, h: nat)
    requires n == 0 || n + 2 <= |source|
    ensures forall q: nat | q < n && HashAt(source, q) == h :: q in History(source, n, h)
    ensures forall i | 0 <= i < |History(source, n, h)| ::
              History(source, n, h)[i] < n && HashAt(source, History(source, n, h)[i]) == h
    ensures forall i, j | 0 <= i < j < |History(source, n, h)| ::
              History(source, n, h)[i] < History(source, n, h)[j]
  {
    hide HashAt;
    if n > 0 {
      HistoryHas(source, n - 1, h);
      var before, past := History(source, n - 1, h), History(source, n, h);
      assert forall i | 0 <= i < |before| :: past[i] == before[i];
      forall q: nat | q < n && HashAt(source, q) == h
        ensures q in past
      {
        if q < n - 1 {
          assert q in before;
        } else {
          assert past[|before|] == q;
        }
      }
    }
  }

  /** With three equal bytes behind it a text of one byte repeated becomes a match from three back. */
  lemma OneByteTaken(source: seq<byte>, t: Token)
    requires |source| >= 3 + MATCH_MARGIN && (forall i | 0 <= i < |source| :: source[i] == source[0])
    requires Takes(source, 3, t)
    ensures t == Copy(if |source| >= 262 then 255 else |source| - 7, 3)
  {
    hide HashAt;
    var h := HashAt(source, 3);
    SameHash(source, 0, 3);
    SameHash(source, 1, 3);
    SameHash(source, 2, 3);
    var past := History(source, 3, h);
    assert History(source, 0, h) == [];
    assert History(source, 1, h) == [0];
    assert History(source, 2, h) == [0, 1];
    assert past == [0, 1, 2];
    var len := if |source| >= 262 then 255 else |source| - 7;
    assert past[0] == 0 && 0 % POINTERS < 3;
    assert Remembered(past, 3, 0);
    OneByteFound(source, past, len);
    TakesOnce(source, 3, t, Copy(len, 3));
  }

  lemma SameHash(source: seq<byte>, p: nat, q: nat)
    requires p + 3 <= |source| && q + 3 <= |source| && Same3(source, p, q)
    ensures HashAt(source, p) == HashAt(source, q)
  {
    hide HashOf;
  }

  lemma OneByteFound(source: seq<byte>, past: seq<nat>, len: nat)
    requires |source| >= 3 + MATCH_MARGIN && (forall i | 0 <= i < |source| :: source[i] == source[0])
    requires past == [0, 1, 2] && past == History(source, 3, HashAt(source, 3)) && Remembered(past, 3, 0)
    requires len == if |source| >= 262 then 255 else |source| - 7
    ensures Takes(source, 3, Copy(len, 3))
  {
    hide HashAt, History;
    assert Longest(source, 3, 0, len);
    assert TokenFor(source, 3, 0, len) == Copy(len, 3);
    forall c: nat, m: nat | Remembered(past, 3, c) && Longest(source, 3, c, m)
      ensures m < len || (m == len && c <= 0)
    {
      assert c == 0;
      LongestOnce(source, 3, 0, m, len);
    }
    assert Finds(source, 3, 0, len);
  }
}
