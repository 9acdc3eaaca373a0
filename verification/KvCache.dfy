/**
 The table that caches, under the 16-bit CRC of its name, where a key's record is.  Slots are
 reused without being cleared, so a table may hold several stale slots for one CRC; what makes a
 lookup right is that a slot in use is the first one carrying its CRC.
 */
module KvCache {
  import opened Basics
  import opened KvFlash

  datatype Addr = Addr(sec: nat, rec: nat)

  /** struct kv_cache_node; an unused address is None. */
  datatype Node = Node(crc: nat, active: nat, addr: Option<Addr>)

  const ACTIVE_MAX := 0xFFFF

  ghost predicate FirstLive(t: seq<Node>) {
    forall i, j | 0 <= i < j < |t| && t[j].addr.Some? :: t[i].crc != t[j].crc
  }

  /** What an update of `crc` may leave in a slot: its former content, or the new address. */
  ghost predicate SlotAfter(before: Node, after: Node, crc: nat, addr: Option<Addr>) {
    after.addr.Some? ==>
      if after.crc == crc then after.addr == addr
      else after.addr == before.addr && after.crc == before.crc
  }

  /**
   update_kv_cache.  With an address it overwrites the slot of that CRC, or else takes the first
   unused slot, or else evicts the least active one; without an address it empties the slot.
   Afterwards every slot in use for `crc` carries exactly the given address.
   */
  method Update(table: seq<Node>, crc: nat, addr: Option<Addr>) returns (t: seq<Node>)
    requires FirstLive(table)
    ensures |t| == |table| && FirstLive(t)
    ensures forall j | 0 <= j < |t| :: SlotAfter(table[j], t[j], crc, addr)
  {
    t := table;
    var size := |table|;
    var emptyIndex, minIndex, minActivity := size, size, ACTIVE_MAX;
    var i := 0;
    while i < size
      invariant 0 <= i <= size && |t| == size && 0 <= emptyIndex <= size && 0 <= minIndex <= size
      invariant forall j | 0 <= j < size :: t[j].crc == table[j].crc && t[j].addr == table[j].addr
      invariant forall j | 0 <= j < i :: t[j].crc != crc
      invariant addr.None? ==> emptyIndex == minIndex == size
    {
      if addr.Some? {
        if t[i].crc == crc {
          t := t[i := t[i].(addr := addr)];
          return;
        } else if t[i].addr.None? && emptyIndex == size {
          emptyIndex := i;
        } else if t[i].addr.Some? {
          if t[i].active > 0 {
            t := t[i := t[i].(active := t[i].active - 1)];
          }
          if t[i].active < minActivity {
            minIndex, minActivity := i, t[i].active;
          }
        }
      } else if t[i].crc == crc {
        t := t[i := t[i].(addr := None, active := 0)];
        return;
      }
      i := i + 1;
    }
    if emptyIndex < size {
      t := t[emptyIndex := Node(crc, 0, addr)];
    } else if minIndex < size {
      t := t[minIndex := Node(crc, 0, addr)];
    }
  }

  /** The bytes stored from the record's name on, as far as get_kv_from_cache reads them. */
  function SavedName(c: Config, r: Rec): seq<byte>
    requires c.unit >= 1
  {
    r.key + seq(Align(c, |r.key|) - |r.key|, _ => 255) + r.value
  }

  /** Slots in use point at CRC-good WRITE records whose name has the slot's CRC. */
  ghost predicate Sound(t: seq<Node>, f: Flash, crc: Key -> nat) {
    forall j | 0 <= j < |t| && t[j].addr.Some? ::
      var a := t[j].addr.value;
      a.sec < |f| && a.rec < |f[a.sec].recs| &&
      var r := f[a.sec].recs[a.rec];
      r.good && r.status == Write && crc(r.key) == t[j].crc
  }

  /**
   get_kv_from_cache.  It compares the stored bytes with the name over the length of the name
   only; a hit is the record of that very name unless another stored key has the same CRC.
   */
  method Lookup(c: Config, table: seq<Node>, f: Flash, crc: Key -> nat, name: Key)
    returns (hit: bool, a: Addr, t: seq<Node>)
    requires c.unit >= 1 && FirstLive(table) && Sound(table, f, crc)
    ensures |t| == |table| && FirstLive(t) && Sound(t, f, crc)
    ensures hit ==> a.sec < |f| && a.rec < |f[a.sec].recs| &&
                    var r := f[a.sec].recs[a.rec];
                    r.good && r.status == Write && crc(r.key) == crc(name)
    ensures !hit ==> forall j | 0 <= j < |t| && t[j].addr.Some? && t[j].crc == crc(name) ::
                       var b := t[j].addr.value; f[b.sec].recs[b.rec].key != name
  {
    t, a := table, Addr(0, 0);
    var i := 0;
    while i < |t|
      invariant 0 <= i <= |t| && t == table
      invariant forall j | 0 <= j < i && t[j].addr.Some? && t[j].crc == crc(name) ::
                  var b := t[j].addr.value; f[b.sec].recs[b.rec].key != name
    {
      if t[i].addr.Some? && t[i].crc == crc(name) {
        a := t[i].addr.value;
        if name <= SavedName(c, f[a.sec].recs[a.rec]) {
          var active := if t[i].active >= ACTIVE_MAX - |t| then ACTIVE_MAX else t[i].active + |t|;
          t := t[i := t[i].(active := active)];
          return true, a, t;
        }
      }
      i := i + 1;
    }
    hit := false;
  }

  /** A CRC-good WRITE record of f. */
  ghost predicate IsWrite(f: Flash, a: Addr) {
    a.sec < |f| && a.rec < |f[a.sec].recs| && f[a.sec].recs[a.rec].good && f[a.sec].recs[a.rec].status == Write
  }

  /** The table stays sound when the slot of one name's CRC is refreshed and the records of all
      other CRCs stay where they are. */
  lemma SoundUpdated(t: seq<Node>, t': seq<Node>, f: Flash, f': Flash, crc: Key -> nat, k: Key, addr: Option<Addr>)
    requires Sound(t, f, crc) && |t'| == |t|
    requires forall j | 0 <= j < |t| :: SlotAfter(t[j], t'[j], crc(k), addr)
    requires forall a: Addr | IsWrite(f, a) && crc(f[a.sec].recs[a.rec].key) != crc(k) ::
               IsWrite(f', a) && f'[a.sec].recs[a.rec].key == f[a.sec].recs[a.rec].key
    requires addr.Some? ==> IsWrite(f', addr.value) && crc(f'[addr.value.sec].recs[addr.value.rec].key) == crc(k)
    ensures Sound(t', f', crc)
  {
    forall j | 0 <= j < |t'| && t'[j].addr.Some?
      ensures var a := t'[j].addr.value; IsWrite(f', a) && crc(f'[a.sec].recs[a.rec].key) == t'[j].crc
    {
      assert SlotAfter(t[j], t'[j], crc(k), addr);
      if t'[j].crc != crc(k) {
        assert IsWrite(f, t[j].addr.value);
      }
    }
  }

  /** Records only gained, never lost: soundness is kept. */
  lemma SoundFrame(t: seq<Node>, f: Flash, f': Flash, crc: Key -> nat)
    requires Sound(t, f, crc)
    requires forall a: Addr | IsWrite(f, a) :: IsWrite(f', a) && f'[a.sec].recs[a.rec].key == f[a.sec].recs[a.rec].key
    ensures Sound(t, f', crc)
  {
    forall j | 0 <= j < |t| && t[j].addr.Some?
      ensures var a := t[j].addr.value; IsWrite(f', a) && crc(f'[a.sec].recs[a.rec].key) == t[j].crc
    {
      assert IsWrite(f, t[j].addr.value);
    }
  }
}
