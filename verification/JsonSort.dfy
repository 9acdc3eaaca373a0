/** sort_list: mergesort of a list of children, in place on its links. */
module JsonSort {
  import opened Basics
  import opened JsonList

  // ---------- the order of keys ----------

  /** tolower, unless case matters. */
  function Fold(b: byte, caseSensitive: bool): byte {
    if !caseSensitive && 65 <= b <= 90 then b + 32 else b
  }

  /** compare_strings(a, b) < 0. */
  predicate Before(a: seq<byte>, b: seq<byte>, cs: bool) {
    if b == [] then false
    else if a == [] then true
    else if Fold(a[0], cs) == Fold(b[0], cs) then Before(a[1..], b[1..], cs)
    else Fold(a[0], cs) < Fold(b[0], cs)
  }

  // ---------- what the order is ----------

  /** The capital letters count as the small ones, nothing else changes. */
  lemma FoldIs(b: byte, i: nat)
    requires i < 26
    ensures Fold(b, true) == b && Fold(65 + i, false) == Fold(97 + i, false) == 97 + i
    ensures b < 65 || b > 90 ==> Fold(b, false) == b
  {
  }

  /** Two keys that count as equal. */
  ghost predicate SameKey(a: seq<byte>, b: seq<byte>, cs: bool) {
    |a| == |b| && forall i | 0 <= i < |a| :: Fold(a[i], cs) == Fold(b[i], cs)
  }

  /** a and b agree in front of k; there a ends, or has the smaller byte. */
  ghost predicate SmallerAt(a: seq<byte>, b: seq<byte>, cs: bool, k: nat) {
    && k <= |a| && k < |b| && (forall i | 0 <= i < k :: Fold(a[i], cs) == Fold(b[i], cs))
    && (k == |a| || Fold(a[k], cs) < Fold(b[k], cs))
  }

  /** The order is that of the first difference. */
  lemma {:induction false} BeforeIff(a: seq<byte>, b: seq<byte>, cs: bool)
    ensures Before(a, b, cs) <==> exists k: nat :: SmallerAt(a, b, cs, k)
  {
    hide Fold;
    if a != [] && b != [] && Fold(a[0], cs) == Fold(b[0], cs) {
      BeforeIff(a[1..], b[1..], cs);
      if Before(a[1..], b[1..], cs) {
        var k: nat :| SmallerAt(a[1..], b[1..], cs, k);
        LaterDifference(a, b, cs, k);
      }
      forall k: nat | SmallerAt(a, b, cs, k)
        ensures k > 0 && SmallerAt(a[1..], b[1..], cs, k - 1)
      {
        assert forall i | 0 <= i < k - 1 :: a[1..][i] == a[i + 1] && b[1..][i] == b[i + 1];
      }
    } else {
      assert Before(a, b, cs) ==> SmallerAt(a, b, cs, 0);
    }
  }

  lemma LaterDifference(a: seq<byte>, b: seq<byte>, cs: bool, k: nat)
    requires a != [] && b != [] && Fold(a[0], cs) == Fold(b[0], cs) && SmallerAt(a[1..], b[1..], cs, k)
    ensures SmallerAt(a, b, cs, k + 1)
  {
    forall i | 0 <= i < k + 1
      ensures Fold(a[i], cs) == Fold(b[i], cs)
    {
      assert i > 0 ==> a[i] == a[1..][i - 1] && b[i] == b[1..][i - 1];
    }
  }

  /** Keys neither of which comes before the other count as equal; where case matters they are equal. */
  lemma {:induction false} NeitherIff(a: seq<byte>, b: seq<byte>, cs: bool)
    ensures !Before(a, b, cs) && !Before(b, a, cs) <==> SameKey(a, b, cs)
    ensures SameKey(a, b, true) <==> a == b
  {
    hide Fold;
    if a != [] && b != [] {
      NeitherIff(a[1..], b[1..], cs);
      if Fold(a[0], cs) == Fold(b[0], cs) && SameKey(a[1..], b[1..], cs) {
        forall i | 0 <= i < |a|
          ensures Fold(a[i], cs) == Fold(b[i], cs)
        {
          assert i > 0 ==> a[i] == a[1..][i - 1] && b[i] == b[1..][i - 1];
        }
      }
    }
    FoldNothing(a, b);
  }

  lemma FoldNothing(a: seq<byte>, b: seq<byte>)
    ensures SameKey(a, b, true) <==> a == b
  {
  }

  /** a counts as equal to b or comes before it. */
  ghost predicate Ascends(a: seq<byte>, b: seq<byte>, cs: bool) {
    SameKey(a, b, cs) || exists k: nat :: SmallerAt(a, b, cs, k)
  }

  lemma NotAfter(a: seq<byte>, b: seq<byte>, cs: bool)
    requires !Before(b, a, cs)
    ensures Ascends(a, b, cs)
  {
    hide Before;
    BeforeIff(a, b, cs);
    NeitherIff(a, b, cs);
  }

  lemma {:induction false} BeforeAsymmetric(a: seq<byte>, b: seq<byte>, cs: bool)
    requires Before(a, b, cs)
    ensures !Before(b, a, cs)
  {
    if a != [] && b != [] && Fold(a[0], cs) == Fold(b[0], cs) {
      BeforeAsymmetric(a[1..], b[1..], cs);
    }
  }

  /** "Not after" is transitive, which is all sorting needs. */
  lemma {:induction false} NotAfterTransitive(a: seq<byte>, b: seq<byte>, c: seq<byte>, cs: bool)
    requires !Before(b, a, cs) && !Before(c, b, cs)
    ensures !Before(c, a, cs)
  {
    if a != [] && b != [] && c != [] && Fold(a[0], cs) == Fold(b[0], cs) == Fold(c[0], cs) {
      NotAfterTransitive(a[1..], b[1..], c[1..], cs);
    }
  }

  /** The loop over two strings. */
  method Compare(a: seq<byte>, b: seq<byte>, cs: bool) returns (less: bool)
    ensures less == Before(a, b, cs)
  {
    var i := 0;
    assert a[0..] == a && b[0..] == b;
    while i < |a| && i < |b| && Fold(a[i], cs) == Fold(b[i], cs)
      invariant i <= |a| && i <= |b| && Before(a, b, cs) == Before(a[i..], b[i..], cs)
    {
      assert a[i..][1..] == a[i + 1..] && b[i..][1..] == b[i + 1..];
      i := i + 1;
    }
    less := i < |b| && (i == |a| || Fold(a[i], cs) < Fold(b[i], cs));
  }

  /** The keys of the nodes ascend. */
  ghost predicate InKeyOrder(nodes: seq<Node>, cs: bool)
    reads nodes`key
  {
    forall i, j | 0 <= i < j < |nodes| :: Ascends(nodes[i].key, nodes[j].key, cs)
  }

  lemma SortedAscends(nodes: seq<Node>, cs: bool)
    requires Sorted(nodes, cs)
    ensures InKeyOrder(nodes, cs)
  {
    hide Before, Ascends;
    forall i, j | 0 <= i < j < |nodes|
      ensures Ascends(nodes[i].key, nodes[j].key, cs)
    {
      NotAfter(nodes[i].key, nodes[j].key, cs);
    }
  }

  ghost predicate Sorted(nodes: seq<Node>, cs: bool)
    reads nodes`key
  {
    forall i, j | 0 <= i < j < |nodes| :: !Before(nodes[j].key, nodes[i].key, cs)
  }

  /** No node of a comes behind a node of b. */
  ghost predicate NoneAfter(a: seq<Node>, b: seq<Node>, cs: bool)
    reads a`key, b`key
  {
    forall i, j | 0 <= i < |a| && 0 <= j < |b| :: !Before(b[j].key, a[i].key, cs)
  }

  // ---------- chains ----------

  ghost predicate Linked(nodes: seq<Node>)
    reads nodes`next, nodes`prev
  {
    forall i | 0 < i < |nodes| :: nodes[i - 1].next == nodes[i] && nodes[i].prev == nodes[i - 1]
  }

  /** A chain: next leads on and ends in null, every prev but the head's leads back. */
  ghost predicate Chain(nodes: seq<Node>)
    reads nodes`next, nodes`prev
  {
    Distinct(nodes) && Linked(nodes) && (nodes != [] ==> nodes[|nodes| - 1].next == null)
  }

  function Head(nodes: seq<Node>): Node? {
    if nodes == [] then null else nodes[0]
  }

  ghost predicate Apart(a: seq<Node>, b: seq<Node>) {
    forall i, j | 0 <= i < |a| && 0 <= j < |b| :: a[i] != b[j]
  }

  lemma ChainTail(nodes: seq<Node>)
    requires Chain(nodes) && nodes != []
    ensures Chain(nodes[1..]) && nodes[0].next == Head(nodes[1..])
  {
  }

  /** Splitting behind the h-th node. */
  method Split(second: Node, ghost nodes: seq<Node>, ghost h: nat)
    requires Chain(nodes) && 0 < h < |nodes| && second == nodes[h]
    modifies nodes`next, nodes`prev
    ensures Chain(nodes[..h]) && Chain(nodes[h..])
  {
    ghost var a, b := nodes[..h], nodes[h..];
    assert second.prev == nodes[h - 1];
    if second.prev != null {
      second.prev.next := null;
      second.prev := null;
    }
    forall i | 0 < i < |a|
      ensures a[i - 1].next == a[i] && a[i].prev == a[i - 1]
    {
      assert a[i] == nodes[i] && a[i - 1] == nodes[i - 1];
    }
    forall i | 0 < i < |b|
      ensures b[i - 1].next == b[i] && b[i].prev == b[i - 1]
    {
      assert b[i] == nodes[h + i] && b[i - 1] == nodes[h + i - 1];
    }
  }

  /** The smaller head is linked behind the merged list. */
  method LinkNode(tail: Node, x: Node, ghost r: seq<Node>, ghost a: seq<Node>, ghost b: seq<Node>)
    requires r != [] && tail == r[|r| - 1] && a != [] && x == a[0]
    requires Distinct(r) && Linked(r) && Chain(a) && Chain(b) && Apart(r, a) && Apart(r, b) && Apart(a, b)
    modifies tail`next, x`prev
    ensures Distinct(r + [x]) && Linked(r + [x]) && Chain(a) && Chain(b)
  {
    tail.next := x;
    x.prev := tail;
    ghost var all := r + [x];
    forall i | 0 < i < |all|
      ensures all[i - 1].next == all[i] && all[i].prev == all[i - 1]
    {
      assert all[i - 1] == r[i - 1];
      assert i < |r| ==> all[i] == r[i];
    }
  }

  /** What is left of one list is linked behind the merged list. */
  method LinkRest(tail: Node, x: Node, ghost r: seq<Node>, ghost a: seq<Node>)
    requires r != [] && tail == r[|r| - 1] && a != [] && x == a[0]
    requires Distinct(r) && Linked(r) && Chain(a) && Apart(r, a)
    modifies tail`next, x`prev
    ensures Chain(r + a)
  {
    tail.next := x;
    x.prev := tail;
    ghost var all, n := r + a, |r|;
    forall i | 0 < i < |all|
      ensures all[i - 1].next == all[i] && all[i].prev == all[i - 1]
    {
      assert all[i] == (if i < n then r[i] else a[i - n]);
      assert all[i - 1] == (if i <= n then r[i - 1] else a[i - 1 - n]);
    }
  }

  // ---------- merging ----------

  /** Taking the head of a, which is not after the head of b. */
  lemma Taken(r: seq<Node>, a: seq<Node>, b: seq<Node>, cs: bool)
    requires Sorted(r, cs) && Sorted(a, cs) && Sorted(b, cs) && NoneAfter(r, a, cs) && NoneAfter(r, b, cs)
    requires a != [] && (b != [] ==> !Before(b[0].key, a[0].key, cs))
    ensures Sorted(r + [a[0]], cs) && Sorted(a[1..], cs)
    ensures NoneAfter(r + [a[0]], a[1..], cs) && NoneAfter(r + [a[0]], b, cs)
  {
    hide Before;
    forall j | 0 <= j < |b|
      ensures !Before(b[j].key, a[0].key, cs)
    {
      if j > 0 {
        NotAfterTransitive(a[0].key, b[0].key, b[j].key, cs);
      }
    }
  }

  /** The same for the disjointness of the three lists. */
  lemma TakenApart(r: seq<Node>, a: seq<Node>, b: seq<Node>)
    requires a != [] && Distinct(a) && Apart(r, a) && Apart(r, b) && Apart(a, b)
    ensures Apart(r + [a[0]], a[1..]) && Apart(r + [a[0]], b) && Apart(a[1..], b)
  {
  }

  lemma JoinSorted(r: seq<Node>, a: seq<Node>, cs: bool)
    requires Sorted(r, cs) && Sorted(a, cs) && NoneAfter(r, a, cs)
    ensures Sorted(r + a, cs)
  {
    hide Before;
  }

  lemma SingleLinked(x: Node)
    ensures Distinct([x]) && Linked([x])
  {
  }

  /** The state of a merge: what is merged comes before what is left of the two chains. */
  ghost predicate Merging(r: seq<Node>, a: seq<Node>, b: seq<Node>, cs: bool)
    reads r`next, r`prev, r`key, a`next, a`prev, a`key, b`next, b`prev, b`key
  {
    && Distinct(r) && Linked(r) && Chain(a) && Chain(b) && Apart(r, a) && Apart(r, b) && Apart(a, b)
    && Sorted(r, cs) && Sorted(a, cs) && Sorted(b, cs) && NoneAfter(r, a, cs) && NoneAfter(r, b, cs)
  }

  lemma MergingSwap(r: seq<Node>, a: seq<Node>, b: seq<Node>, cs: bool)
    requires Merging(r, a, b, cs)
    ensures Merging(r, b, a, cs)
  {
    hide Sorted, NoneAfter, Linked, Chain, Distinct;
  }

  lemma MergingStarts(a: seq<Node>, b: seq<Node>, cs: bool)
    requires Chain(a) && Chain(b) && Apart(a, b) && Sorted(a, cs) && Sorted(b, cs)
    ensures Merging([], a, b, cs)
  {
  }

  ghost predicate Within(a: seq<Node>, all: seq<Node>) {
    forall i | 0 <= i < |a| :: a[i] in all
  }

  /** One step: the head of a, not after the head of b, is linked behind the merged list. */
  method Take(result0: Node?, tail0: Node?, x: Node, cs: bool, ghost r: seq<Node>, ghost a: seq<Node>,
              ghost b: seq<Node>, ghost all: seq<Node>)
    returns (result: Node, tail: Node)
    requires Merging(r, a, b, cs) && a != [] && x == a[0] && (b != [] ==> !Before(b[0].key, x.key, cs))
    requires result0 == Head(r) && (r != [] ==> tail0 == r[|r| - 1]) && Within(r, all) && Within(a, all)
    modifies all`next, all`prev
    ensures Merging(r + [x], a[1..], b, cs) && x.next == Head(a[1..])
    ensures result == (r + [x])[0] && tail == x && Within(r + [x], all) && Within(a[1..], all)
    ensures multiset(r + [x]) + multiset(a[1..]) == multiset(r) + multiset(a)
  {
    hide Before, Sorted, NoneAfter, Chain, Apart, Distinct, Linked, Merging;
    MergingSteps(r, a, b, cs);
    result := Attach(result0, tail0, x, r, a, b, all);
    MergingAgain(r + [x], a, b, cs);
    tail := x;
    assert a == [x] + a[1..];
  }

  /** The links of one step. */
  method Attach(result0: Node?, tail0: Node?, x: Node, ghost r: seq<Node>, ghost a: seq<Node>, ghost b: seq<Node>,
                ghost all: seq<Node>)
    returns (result: Node)
    requires a != [] && x == a[0] && result0 == Head(r) && (r != [] ==> tail0 == r[|r| - 1])
    requires Distinct(r) && Linked(r) && Chain(a) && Chain(b) && Apart(r, a) && Apart(r, b) && Apart(a, b)
    requires Within(r, all) && Within(a, all)
    modifies all`next, all`prev
    ensures Distinct(r + [x]) && Linked(r + [x]) && Chain(a) && Chain(b) && result == (r + [x])[0]
  {
    hide Chain, Apart, Distinct, Linked;
    if result0 == null {
      result := x;
      SingleLinked(x);
      assert r + [x] == [x];
    } else {
      LinkNode(tail0, x, r, a, b);
      result := result0;
    }
  }

  /** What of the invariant of a step does not depend on links. */
  lemma MergingSteps(r: seq<Node>, a: seq<Node>, b: seq<Node>, cs: bool)
    requires Merging(r, a, b, cs) && a != [] && (b != [] ==> !Before(b[0].key, a[0].key, cs))
    ensures Distinct(r) && Linked(r) && Chain(a) && Chain(b) && Apart(r, a) && Apart(r, b) && Apart(a, b)
    ensures Apart(r + [a[0]], a[1..]) && Apart(r + [a[0]], b) && Apart(a[1..], b)
    ensures Sorted(r + [a[0]], cs) && Sorted(a[1..], cs) && Sorted(b, cs)
    ensures NoneAfter(r + [a[0]], a[1..], cs) && NoneAfter(r + [a[0]], b, cs)
  {
    hide Before, Sorted, NoneAfter, Chain, Apart, Distinct, Linked;
    Taken(r, a, b, cs);
    TakenApart2(r, a, b);
  }

  lemma MergingAgain(r: seq<Node>, a: seq<Node>, b: seq<Node>, cs: bool)
    requires a != [] && Distinct(r) && Linked(r) && Chain(a) && Chain(b)
    requires Apart(r, a[1..]) && Apart(r, b) && Apart(a[1..], b)
    requires Sorted(r, cs) && Sorted(a[1..], cs) && Sorted(b, cs) && NoneAfter(r, a[1..], cs) && NoneAfter(r, b, cs)
    ensures Merging(r, a[1..], b, cs) && a[0].next == Head(a[1..])
  {
    hide Sorted, NoneAfter, Chain, Apart, Distinct, Linked;
    ChainTail(a);
  }

  lemma TakenApart2(r: seq<Node>, a: seq<Node>, b: seq<Node>)
    requires a != [] && Chain(a) && Apart(r, a) && Apart(r, b) && Apart(a, b)
    ensures Apart(r + [a[0]], a[1..]) && Apart(r + [a[0]], b) && Apart(a[1..], b)
  {
    hide Apart, Linked, Distinct;
    TakenApart(r, a, b);
  }

  /** What is left of one chain completes the merged list. */
  method Complete(tail: Node, x: Node, cs: bool, ghost r: seq<Node>, ghost a: seq<Node>, ghost all: seq<Node>)
    requires Merging(r, a, [], cs) && r != [] && a != [] && tail == r[|r| - 1] && x == a[0]
    requires Within(r, all) && Within(a, all)
    modifies all`next, all`prev
    ensures Chain(r + a) && Sorted(r + a, cs)
  {
    hide Before, Sorted, NoneAfter, Chain, Apart, Distinct, Linked;
    LinkRest(tail, x, r, a);
    JoinSorted(r, a, cs);
  }

  /** The merge of sort_list: two sorted chains become one. */
  method Merge(first0: Node, second0: Node, cs: bool, ghost a0: seq<Node>, ghost b0: seq<Node>, ghost all: seq<Node>)
    returns (result: Node, ghost sorted: seq<Node>)
    requires a0 != [] && b0 != [] && first0 == a0[0] && second0 == b0[0] && Within(a0, all) && Within(b0, all)
    requires Chain(a0) && Chain(b0) && Apart(a0, b0) && Sorted(a0, cs) && Sorted(b0, cs)
    modifies all`next, all`prev
    ensures Chain(sorted) && Sorted(sorted, cs) && sorted != [] && result == sorted[0]
    ensures multiset(sorted) == multiset(a0) + multiset(b0)
  {
    hide Before, Sorted, NoneAfter, Chain, Apart, Distinct, Linked, Merging;
    var first: Node?, second: Node? := first0, second0;
    var merged: Node?, tail: Node? := null, null;
    ghost var r: seq<Node>, a, b, whole := [], a0, b0, multiset(a0) + multiset(b0);
    MergingStarts(a, b, cs);
    while first != null && second != null
      invariant first == Head(a) && second == Head(b) && merged == Head(r) && (a != [] || b != [])
      invariant if r == [] then a != [] && b != [] else tail == r[|r| - 1]
      invariant Merging(r, a, b, cs) && Within(r, all) && Within(a, all) && Within(b, all)
      invariant multiset(r) + multiset(a) + multiset(b) == whole
      decreases |a| + |b|
    {
      var less := Compare(first.key, second.key, cs);
      if less {
        BeforeAsymmetric(first.key, second.key, cs);
        merged, tail := Take(merged, tail, first, cs, r, a, b, all);
        SumKept(multiset(r + [first]), multiset(a[1..]), multiset(b), multiset(r), multiset(a), whole);
        r, first, a := r + [first], first.next, a[1..];
      } else {
        MergingSwap(r, a, b, cs);
        merged, tail := Take(merged, tail, second, cs, r, b, a, all);
        MergingSwap(r + [second], b[1..], a, cs);
        SumKept(multiset(r + [second]), multiset(b[1..]), multiset(a), multiset(r), multiset(b), whole);
        r, second, b := r + [second], second.next, b[1..];
      }
    }
    sorted := AppendRest(tail, first, second, cs, r, a, b, all);
    result := merged;
  }

  /** What is left of one of the two lists goes to the end. */
  method AppendRest(tail: Node?, first: Node?, second: Node?, cs: bool, ghost r: seq<Node>, ghost a: seq<Node>,
                    ghost b: seq<Node>, ghost all: seq<Node>)
    returns (ghost sorted: seq<Node>)
    requires Merging(r, a, b, cs) && r != [] && tail == r[|r| - 1] && first == Head(a) && second == Head(b)
    requires (a == [] || b == []) && (a != [] || b != [])
    requires Within(r, all) && Within(a, all) && Within(b, all)
    modifies all`next, all`prev
    ensures sorted == r + a + b && Chain(sorted) && Sorted(sorted, cs)
  {
    hide Before, Sorted, NoneAfter, Chain, Apart, Distinct, Linked, Merging;
    if first != null {
      Complete(tail, first, cs, r, a, all);
      sorted := r + a;
    } else {
      MergingSwap(r, a, b, cs);
      Complete(tail, second, cs, r, b, all);
      sorted := r + b;
    }
    assert sorted == r + a + b;
  }

  lemma SumKept(r': multiset<Node>, a': multiset<Node>, b: multiset<Node>, r: multiset<Node>, a: multiset<Node>,
                whole: multiset<Node>)
    requires r' + a' == r + a && (r + a + b == whole || r + b + a == whole)
    ensures r' + a' + b == whole && r' + b + a' == whole
  {
    assert r' + b + a' == r' + a' + b;
  }

  // ---------- the sort ----------

  /** The quick test for a list that is sorted already, strictly. */
  method Ascending(list: Node, cs: bool, ghost nodes: seq<Node>) returns (yes: bool)
    requires Chain(nodes) && nodes != [] && list == nodes[0]
    ensures yes ==> Sorted(nodes, cs)
  {
    hide Before, Distinct;
    var current := list;
    ghost var i := 0;
    var more := true;
    while more
      invariant i < |nodes| && current == nodes[i]
      invariant forall j | 0 < j <= i :: !Before(nodes[j].key, nodes[j - 1].key, cs)
      invariant !more ==> current.next == null || !Before(current.key, current.next.key, cs)
      decreases |nodes| - i, more
    {
      more := false;
      if current.next != null {
        assert i + 1 < |nodes| && current.next == nodes[i + 1];
        var less := Compare(current.key, current.next.key, cs);
        if less {
          BeforeAsymmetric(current.key, current.next.key, cs);
          more, current := true, current.next;
          i := i + 1;
        }
      }
    }
    yes := current.next == null;
    if yes {
      NextAt(nodes, i);
      NeighboursSorted(nodes, cs);
    }
  }

  lemma NeighboursSorted(nodes: seq<Node>, cs: bool)
    requires forall j | 0 < j < |nodes| :: !Before(nodes[j].key, nodes[j - 1].key, cs)
    ensures Sorted(nodes, cs)
  {
    hide Before;
    forall i, j | 0 <= i < j < |nodes|
      ensures !Before(nodes[j].key, nodes[i].key, cs)
    {
      FromNeighbours(nodes, i, j, cs);
    }
  }

  lemma {:induction false} FromNeighbours(nodes: seq<Node>, i: nat, j: nat, cs: bool)
    requires forall k | 0 < k < |nodes| :: !Before(nodes[k].key, nodes[k - 1].key, cs)
    requires i < j < |nodes|
    ensures !Before(nodes[j].key, nodes[i].key, cs)
    decreases j
  {
    hide Before;
    if i + 1 < j {
      FromNeighbours(nodes, i, j - 1, cs);
      NotAfterTransitive(nodes[i].key, nodes[j - 1].key, nodes[j].key, cs);
    }
  }

  /** Two pointers, one twice as fast, find the middle: both halves are strictly shorter. */
  method Middle(list: Node, ghost nodes: seq<Node>) returns (second: Node, ghost h: nat)
    requires Chain(nodes) && |nodes| >= 2 && list == nodes[0]
    ensures 0 < h < |nodes| && second == nodes[h]
  {
    hide Distinct;
    var slow: Node?, fast: Node? := list, list;
    h := 0;
    ghost var f := 0;
    while fast != null
      invariant h <= |nodes| && f <= |nodes| && slow == At(nodes, h) && fast == At(nodes, f)
      invariant f == if 2 * h <= |nodes| then 2 * h else |nodes|
      invariant h == 0 || 2 * (h - 1) < |nodes|
      decreases |nodes| - f
    {
      NextAt(nodes, h);
      NextAt(nodes, f);
      slow, h := slow.next, h + 1;
      fast, f := fast.next, f + 1;
      if fast != null {
        NextAt(nodes, f);
        fast, f := fast.next, f + 1;
      }
    }
    second := slow;
  }

  ghost function At(nodes: seq<Node>, i: nat): Node? {
    if i < |nodes| then nodes[i] else null
  }

  lemma NextAt(nodes: seq<Node>, i: nat)
    requires Chain(nodes) && i < |nodes|
    ensures nodes[i].next == At(nodes, i + 1)
  {
  }

  lemma HalvesApart(nodes: seq<Node>, h: nat)
    requires Distinct(nodes) && h <= |nodes|
    ensures Apart(nodes[..h], nodes[h..]) && Within(nodes[..h], nodes) && Within(nodes[h..], nodes)
    ensures forall x | x in nodes[..h] :: x !in nodes[h..]
    ensures multiset(nodes[..h]) + multiset(nodes[h..]) == multiset(nodes)
  {
    assert nodes == nodes[..h] + nodes[h..];
  }

  /** A rearrangement has the same nodes. */
  lemma SameNodes(a: seq<Node>, a': seq<Node>, b: seq<Node>, b': seq<Node>, all: seq<Node>)
    requires multiset(a) == multiset(a') && multiset(b) == multiset(b')
    requires Apart(a, b) && Within(a, all) && Within(b, all)
    ensures Apart(a', b') && Within(a', all) && Within(b', all)
    ensures (forall x | x in a' :: x in a) && (forall x | x in b' :: x in b)
    ensures |a'| == |a| && |b'| == |b|
  {
    assert |a'| == |multiset(a')| && |b'| == |multiset(b')|;
    forall i | 0 <= i < |a'| ensures a'[i] in a { assert a'[i] in multiset(a'); }
    forall i | 0 <= i < |b'| ensures b'[i] in b { assert b'[i] in multiset(b'); }
  }

  /**
   sort_list: the same nodes, their next chain in ascending order of keys and every prev but the head's
   leading back.
   It ends because both halves are strictly shorter.  What the head's prev is stays open, and nodes
   with equal keys may change places.
   */
  method SortList(list: Node?, cs: bool, ghost nodes: seq<Node>) returns (result: Node?, ghost sorted: seq<Node>)
    requires Chain(nodes) && list == Head(nodes)
    modifies nodes`next, nodes`prev
    ensures Chain(sorted) && InKeyOrder(sorted, cs) && result == Head(sorted)
    ensures Sorted(sorted, cs)
    ensures multiset(sorted) == multiset(nodes)
    decreases |nodes|
  {
    hide Before, Sorted, Chain, Apart, Distinct, Linked, InKeyOrder;
    if list == null || list.next == null {
      ShortList(nodes, cs);
      SortedAscends(nodes, cs);
      return list, nodes;
    }
    AtLeastTwo(nodes);
    var ascending := Ascending(list, cs, nodes);
    if ascending {
      SortedAscends(nodes, cs);
      return list, nodes;
    }
    var second, h := Middle(list, nodes);
    ghost var a, b := nodes[..h], nodes[h..];
    ChainDistinct(nodes);
    HalvesApart(nodes, h);
    Split(second, nodes, h);
    var x, left := SortList(list, cs, a);
    SameNodes(a, left, b, b, nodes);
    assert forall i | 0 <= i < |left| :: left[i] !in b;
    var y, right := SortList(second, cs, b);
    SameNodes(a, left, b, right, nodes);
    result, sorted := Merge(x, y, cs, left, right, nodes);
    SortedAscends(sorted, cs);
  }

  lemma ShortList(nodes: seq<Node>, cs: bool)
    requires Chain(nodes) && (nodes == [] || nodes[0].next == null)
    ensures Sorted(nodes, cs)
  {
    if nodes != [] {
      NextAt(nodes, 0);
    }
  }

  lemma AtLeastTwo(nodes: seq<Node>)
    requires Chain(nodes) && nodes != [] && nodes[0].next != null
    ensures |nodes| >= 2
  {
  }

  lemma ChainDistinct(nodes: seq<Node>)
    requires Chain(nodes)
    ensures Distinct(nodes)
  {
  }
}
