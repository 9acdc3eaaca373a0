/** The children of an array or object as a doubly linked list whose head's prev is the tail. */
module JsonList {
  import opened Basics

  class Node {
    var key: seq<byte>
    var child: Node?
    var next: Node?
    var prev: Node?

    constructor (key: seq<byte>)
      ensures this.key == key && child == null && next == null && prev == null
    {
      this.key, child, next, prev := key, null, null, null;
    }
  }

  ghost predicate Distinct(nodes: seq<Node>) {
    forall i, j | 0 <= i < j < |nodes| :: nodes[i] != nodes[j]
  }

  ghost function NextOf(nodes: seq<Node>, i: nat): Node? {
    if i + 1 < |nodes| then nodes[i + 1] else null
  }

  ghost function PrevOf(nodes: seq<Node>, i: nat): Node?
    requires i < |nodes|
  {
    if i > 0 then nodes[i - 1] else nodes[|nodes| - 1]
  }

  /** The links as they stand in memory. */
  ghost function Nexts(nodes: seq<Node>): (r: seq<Node?>)
    reads nodes
    ensures |r| == |nodes|
  {
    seq(|nodes|, i requires 0 <= i < |nodes| reads nodes => nodes[i].next)
  }

  ghost function Prevs(nodes: seq<Node>): (r: seq<Node?>)
    reads nodes
    ensures |r| == |nodes|
  {
    seq(|nodes|, i requires 0 <= i < |nodes| reads nodes => nodes[i].prev)
  }

  /** The links as they should be. */
  ghost function WantNexts(nodes: seq<Node>): (r: seq<Node?>)
    ensures |r| == |nodes|
  {
    seq(|nodes|, i requires 0 <= i < |nodes| => NextOf(nodes, i))
  }

  ghost function WantPrevs(nodes: seq<Node>): (r: seq<Node?>)
    ensures |r| == |nodes|
  {
    seq(|nodes|, i requires 0 <= i < |nodes| => PrevOf(nodes, i))
  }

  /** The list is well formed: next leads to the successor and ends in null, prev to the predecessor,
      and the head's prev to the tail. */
  ghost predicate Children(parent: Node, nodes: seq<Node>)
    reads parent, nodes
  {
    && parent !in nodes && Distinct(nodes)
    && parent.child == (if nodes == [] then null else nodes[0])
    && Nexts(nodes) == WantNexts(nodes) && Prevs(nodes) == WantPrevs(nodes)
  }

  /** `x->next = v` for the j-th node of a list. */
  method SetNext(x: Node, v: Node?, ghost nodes: seq<Node>, ghost j: nat)
    requires Distinct(nodes) && j < |nodes| && x == nodes[j]
    modifies x`next
    ensures Nexts(nodes) == old(Nexts(nodes))[j := v] && Prevs(nodes) == old(Prevs(nodes)) && x.next == v
  {
    x.next := v;
  }

  /** `x->prev = v` for the j-th node of a list. */
  method SetPrev(x: Node, v: Node?, ghost nodes: seq<Node>, ghost j: nat)
    requires Distinct(nodes) && j < |nodes| && x == nodes[j]
    modifies x`prev
    ensures Prevs(nodes) == old(Prevs(nodes))[j := v] && Nexts(nodes) == old(Nexts(nodes)) && x.prev == v
  {
    x.prev := v;
  }

  /** Links of a node outside the list. */
  method SetOwn(x: Node, next: Node?, prev: Node?, ghost nodes: seq<Node>)
    requires x !in nodes
    modifies x`next, x`prev
    ensures Nexts(nodes) == old(Nexts(nodes)) && Prevs(nodes) == old(Prevs(nodes)) && x.next == next && x.prev == prev
  {
    x.next := next;
    x.prev := prev;
  }

  lemma LinksAt(nodes: seq<Node>, i: nat)
    requires i < |nodes|
    ensures Nexts(nodes)[i] == nodes[i].next && Prevs(nodes)[i] == nodes[i].prev
    ensures WantNexts(nodes)[i] == NextOf(nodes, i) && WantPrevs(nodes)[i] == PrevOf(nodes, i)
  {
  }

  /** get_array_item. */
  method GetItem(parent: Node, index: nat, ghost nodes: seq<Node>) returns (item: Node?)
    requires Children(parent, nodes)
    ensures item == if index < |nodes| then nodes[index] else null
  {
    item := parent.child;
    var left := index;
    ghost var i := 0;
    while item != null && left > 0
      invariant i <= |nodes| && item == (if i < |nodes| then nodes[i] else null)
      invariant i + left == index
      decreases left
    {
      LinksAt(nodes, i);
      left, item := left - 1, item.next;
      i := i + 1;
    }
  }

  /** add_item_to_array: the item goes to the end, found through the head's prev.  In a list that is
      not empty the item's own next is not reset, so the item must come without one. */
  method Add(parent: Node, item: Node, ghost nodes: seq<Node>) returns (ok: bool)
    requires Children(parent, nodes) && item !in nodes
    modifies parent`child, item`next, item`prev, nodes`next, nodes`prev
    ensures ok <==> parent != item
    ensures ok ==> (Children(parent, nodes + [item]) <==> nodes == [] || old(item.next) == null)
    ensures !ok ==> Children(parent, nodes)
  {
    hide Children, Nexts, Prevs, WantNexts, WantPrevs, Distinct;
    if parent == item {
      return false;
    }
    Outside(parent, nodes);
    ghost var own := item.next;
    if parent.child == null {
      parent.child := item;
      SetOwn(item, null, item, nodes);
    } else {
      Open(parent, nodes, 0);
      if parent.child.prev != null {
        ghost var last := |nodes| - 1;
        var tail := parent.child.prev;
        SetNext(tail, item, nodes, last);
        SetOwn(item, item.next, tail, nodes);
        SetPrev(parent.child, item, nodes, 0);
      }
    }
    ok := true;
    Added(parent, item, nodes);
  }

  lemma Outside(parent: Node, nodes: seq<Node>)
    requires Children(parent, nodes)
    ensures parent !in nodes && Distinct(nodes) && parent.child == (if nodes == [] then null else nodes[0])
  {
  }

  lemma Added(parent: Node, item: Node, nodes: seq<Node>)
    requires parent !in nodes && Distinct(nodes) && item !in nodes && parent != item
    requires parent.child == if nodes == [] then item else nodes[0]
    requires item.prev == if nodes == [] then item else nodes[|nodes| - 1]
    requires nodes == [] || Nexts(nodes) == WantNexts(nodes)[|nodes| - 1 := item]
    requires nodes == [] || Prevs(nodes) == WantPrevs(nodes)[0 := item]
    ensures Children(parent, nodes + [item]) <==> item.next == null
  {
    hide Nexts, Prevs, WantNexts, WantPrevs;
    var all := nodes + [item];
    forall i | 0 <= i < |all|
      ensures i < |nodes| ==> Nexts(all)[i] == WantNexts(all)[i]
      ensures i == |nodes| ==> (Nexts(all)[i] == WantNexts(all)[i] <==> item.next == null)
      ensures Prevs(all)[i] == WantPrevs(all)[i]
    {
      LinksAt(all, i);
      if i < |nodes| {
        LinksAt(nodes, i);
        assert all[i] == nodes[i];
      }
    }
    if item.next == null {
      assert Nexts(all) == WantNexts(all);
    } else {
      assert Nexts(all)[|nodes|] != WantNexts(all)[|nodes|];
    }
    assert Prevs(all) == WantPrevs(all);
  }

  /** cJSON_DetachItemViaPointer on the k-th child. */
  method Detach(parent: Node, item: Node, ghost nodes: seq<Node>, ghost k: nat)
    requires Children(parent, nodes) && k < |nodes| && item == nodes[k]
    modifies parent`child, nodes`next, nodes`prev
    ensures Children(parent, nodes[..k] + nodes[k + 1..]) && item.next == null && item.prev == null
  {
    hide Children, Nexts, Prevs, WantNexts, WantPrevs, Distinct;
    Open(parent, nodes, k);
    if item != parent.child {
      SetNext(item.prev, item.next, nodes, k - 1);
    }
    if item.next != null {
      SetPrev(item.next, item.prev, nodes, k + 1);
    }
    if item == parent.child {
      parent.child := item.next;
    } else if item.next == null {
      SetPrev(parent.child, item.prev, nodes, 0);
    }
    SetPrev(item, null, nodes, k);
    SetNext(item, null, nodes, k);
    Detached(parent, nodes, k);
  }

  /** What a well-formed list says about its k-th node. */
  lemma Open(parent: Node, nodes: seq<Node>, k: nat)
    requires Children(parent, nodes) && k < |nodes|
    ensures parent !in nodes && Distinct(nodes) && parent.child == nodes[0] && (nodes[k] == nodes[0] <==> k == 0)
    ensures nodes[k].next == NextOf(nodes, k) && nodes[k].prev == PrevOf(nodes, k)
    ensures Nexts(nodes) == WantNexts(nodes) && Prevs(nodes) == WantPrevs(nodes)
    ensures (nodes[|nodes| - 1] == nodes[0] <==> |nodes| == 1) && (k + 1 < |nodes| ==> nodes[k + 1] != nodes[k])
  {
    hide Nexts, Prevs, WantNexts, WantPrevs;
    LinksAt(nodes, k);
  }

  lemma Detached(parent: Node, nodes: seq<Node>, k: nat)
    requires k < |nodes| && Distinct(nodes) && parent !in nodes && nodes[k].next == null && nodes[k].prev == null
    requires parent.child == if k > 0 then nodes[0] else NextOf(nodes, 0)
    requires var nx := if k > 0 then WantNexts(nodes)[k - 1 := NextOf(nodes, k)] else WantNexts(nodes);
             Nexts(nodes) == nx[k := null]
    requires var pv := if k + 1 < |nodes| then WantPrevs(nodes)[k + 1 := PrevOf(nodes, k)]
                       else if k > 0 then WantPrevs(nodes)[0 := PrevOf(nodes, k)] else WantPrevs(nodes);
             Prevs(nodes) == pv[k := null]
    ensures Children(parent, nodes[..k] + nodes[k + 1..])
  {
    var all := nodes[..k] + nodes[k + 1..];
    forall i | 0 <= i < |all|
      ensures Nexts(all)[i] == WantNexts(all)[i] && Prevs(all)[i] == WantPrevs(all)[i]
    {
      var j := if i < k then i else i + 1;
      assert all[i] == nodes[j];
      LinksAt(nodes, j);
      LinksAt(all, i);
    }
  }

  /** cJSON_DetachItemFromArray. */
  method DetachAt(parent: Node, which: int, ghost nodes: seq<Node>) returns (item: Node?)
    requires Children(parent, nodes)
    modifies parent`child, nodes`next, nodes`prev
    ensures item == if 0 <= which < |nodes| then nodes[which] else null
    ensures item == null ==> Children(parent, nodes)
    ensures item != null ==>
              Children(parent, nodes[..which] + nodes[which + 1..]) && item.next == null && item.prev == null
  {
    if which < 0 {
      return null;
    }
    item := GetItem(parent, which, nodes);
    if item != null {
      Detach(parent, item, nodes, which);
    }
  }

  /** cJSON_InsertItemInArray: in front of the item at `which`, or, if there is none, at the end, with
      what Add says about the item's next. */
  method Insert(parent: Node, which: int, item: Node, ghost nodes: seq<Node>) returns (ok: bool)
    requires Children(parent, nodes) && item !in nodes && item != parent
    modifies parent`child, item`next, item`prev, nodes`next, nodes`prev
    ensures ok <==> which >= 0
    ensures !ok ==> Children(parent, nodes)
    ensures 0 <= which < |nodes| ==> Children(parent, nodes[..which] + [item] + nodes[which..])
    ensures which >= |nodes| ==>
              (Children(parent, nodes + [item]) <==> nodes == [] || old(item.next) == null)
  {
    if which < 0 {
      return false;
    }
    hide Children, Nexts, Prevs, WantNexts, WantPrevs, Distinct;
    var after := GetItem(parent, which, nodes);
    if after == null {
      ok := Add(parent, item, nodes);
      return;
    }
    Open(parent, nodes, which);
    SetOwn(item, after, after.prev, nodes);
    SetPrev(after, item, nodes, which);
    if after == parent.child {
      parent.child := item;
    } else {
      SetNext(item.prev, item, nodes, which - 1);
    }
    ok := true;
    Inserted(parent, item, nodes, which);
  }

  lemma Inserted(parent: Node, item: Node, nodes: seq<Node>, k: nat)
    requires k < |nodes| && parent !in nodes && Distinct(nodes) && item !in nodes && parent != item
    requires item.next == nodes[k] && item.prev == PrevOf(nodes, k)
    requires parent.child == if k > 0 then nodes[0] else item
    requires Nexts(nodes) == if k > 0 then WantNexts(nodes)[k - 1 := item] else WantNexts(nodes)
    requires Prevs(nodes) == WantPrevs(nodes)[k := item]
    ensures Children(parent, nodes[..k] + [item] + nodes[k..])
  {
    hide Nexts, Prevs, WantNexts, WantPrevs;
    var all := nodes[..k] + [item] + nodes[k..];
    forall i | 0 <= i < |all|
      ensures Nexts(all)[i] == WantNexts(all)[i] && Prevs(all)[i] == WantPrevs(all)[i]
    {
      LinksAt(all, i);
      if i != k {
        var j := if i < k then i else i - 1;
        assert all[i] == nodes[j];
        LinksAt(nodes, j);
      }
    }
  }

  /** cJSON_ReplaceItemViaPointer on the k-th child. */
  method Replace(parent: Node, item: Node, replacement: Node, ghost nodes: seq<Node>, ghost k: nat)
    requires Children(parent, nodes) && k < |nodes| && item == nodes[k]
    requires replacement == item || (replacement !in nodes && replacement != parent)
    modifies parent`child, replacement`next, replacement`prev, nodes`next, nodes`prev
    ensures Children(parent, nodes[k := replacement])
    ensures replacement != item ==> item.next == null && item.prev == null
  {
    hide Children, Nexts, Prevs, WantNexts, WantPrevs, Distinct;
    if replacement == item {
      assert nodes[k := replacement] == nodes;
      return;
    }
    Open(parent, nodes, k);
    SetOwn(replacement, item.next, item.prev, nodes);
    if replacement.next != null {
      SetPrev(replacement.next, replacement, nodes, k + 1);
    }
    if parent.child == item {
      if parent.child.prev == parent.child {
        SetOwn(replacement, replacement.next, replacement, nodes);
      }
      parent.child := replacement;
    } else {
      if replacement.prev != null {
        SetNext(replacement.prev, replacement, nodes, k - 1);
      }
      if replacement.next == null {
        SetPrev(parent.child, replacement, nodes, 0);
      }
    }
    SetNext(item, null, nodes, k);
    SetPrev(item, null, nodes, k);
    Replaced(parent, replacement, nodes, k);
  }

  lemma Replaced(parent: Node, item: Node, nodes: seq<Node>, k: nat)
    requires k < |nodes| && parent !in nodes && Distinct(nodes) && item !in nodes && parent != item
    requires parent.child == if k > 0 then nodes[0] else item
    requires item.next == NextOf(nodes, k) && item.prev == if |nodes| == 1 then item else PrevOf(nodes, k)
    requires Nexts(nodes) == (if k > 0 then WantNexts(nodes)[k - 1 := item] else WantNexts(nodes))[k := null]
    requires Prevs(nodes) == (if k + 1 < |nodes| then WantPrevs(nodes)[k + 1 := item]
                              else if k > 0 then WantPrevs(nodes)[0 := item] else WantPrevs(nodes))[k := null]
    ensures Children(parent, nodes[k := item])
  {
    hide Nexts, Prevs, WantNexts, WantPrevs;
    var all := nodes[k := item];
    forall i | 0 <= i < |all|
      ensures Nexts(all)[i] == WantNexts(all)[i] && Prevs(all)[i] == WantPrevs(all)[i]
    {
      LinksAt(all, i);
      LinksAt(nodes, i);
    }
  }
}
