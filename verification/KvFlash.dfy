/**
 What FlashDB's key-value store keeps in flash, as its readers see it: sectors with a store
 status, a dirty status and a list of records.  Every value of type `Flash` is a state the
 memory can be in between two flash operations, so also a state a power cut can leave behind.
 */
module KvFlash {
  import opened Basics

  type Key = seq<byte>
  type Value = seq<byte>

  const KV_NAME_MAX := 64  // FDB_KV_NAME_MAX

  /** The status read_kv reports.  A record whose header was never written reads as ErrHdr. */
  datatype Status = PreWrite | Write | PreDelete | Deleted | ErrHdr

  /** `good` is the outcome of the CRC check, `len` the bytes the record takes in its sector. */
  datatype Rec = Rec(key: Key, value: Value, len: nat, status: Status, good: bool)

  datatype Store = Empty | Using | Full
  datatype Dirty = Clean | Soiled | Collecting  // DIRTY_FALSE, DIRTY_TRUE, DIRTY_GC
  datatype Sector = Sector(store: Store, dirty: Dirty, recs: seq<Rec>)
  type Flash = seq<Sector>

  const FORMATTED := Sector(Empty, Clean, [])

  /** Number of sectors, bytes of a sector after its header, bytes of a record header and the
      unit that lengths are aligned to; the numbers follow from the write granularity. */
  datatype Config = Config(sectors: nat, usable: nat, hdr: nat, unit: nat)

  ghost predicate ValidConfig(c: Config) {
    2 <= c.sectors && 1 <= c.unit <= c.hdr < c.usable && c.hdr % c.unit == 0
  }

  function Threshold(c: Config): nat { c.hdr + KV_NAME_MAX }  // FDB_SEC_REMAIN_THRESHOLD

  function Align(c: Config, n: nat): nat
    requires c.unit >= 1
  {
    (n + c.unit - 1) / c.unit * c.unit
  }

  function KvLen(c: Config, k: Key, v: Value): nat
    requires c.unit >= 1
  {
    c.hdr + Align(c, |k|) + Align(c, |v|)
  }

  // ---------- names ----------

  /** The name as read_kv leaves it, read as a C string: its buffer holds KV_NAME_MAX - 1 characters
      and the terminator. */
  function NameRead(k: Key): Key {
    if |k| < KV_NAME_MAX then k else k[..KV_NAME_MAX - 1]
  }

  /** The bytes of that buffer, as many as the header counts, that update_kv_cache is given for it. */
  function NameBytes(k: Key): Key {
    if |k| < KV_NAME_MAX then k else NameRead(k) + [0]
  }

  /** Names as FDB_KV_NAME_MAX is documented: shorter than that. */
  ghost predicate ShortNames(m: map<Key, Value>) {
    forall k | k in m :: |k| < KV_NAME_MAX
  }

  // ---------- space ----------

  function Used(recs: seq<Rec>): nat {
    if recs == [] then 0 else Used(recs[..|recs| - 1]) + recs[|recs| - 1].len
  }

  function Remain(c: Config, sec: Sector): int { c.usable - Used(sec.recs) }

  /**
   How the allocator and the FULL threshold fill a sector.  Every record found more room than it
   needs; a good record has at least its header; from the third record on at least Threshold bytes
   were left before it; a sector still in use that holds two records or more has at least Threshold
   bytes left.
   */
  ghost predicate SecOk(c: Config, sec: Sector) {
    && (sec.store == Empty ==> sec.recs == [] && sec.dirty == Clean)
    && (sec.store != Empty ==> sec.recs != [])
    && (forall j | 0 <= j < |sec.recs| :: 0 < sec.recs[j].len < c.usable - Used(sec.recs[..j]))
    && (forall j | 0 <= j < |sec.recs| && sec.recs[j].good :: c.hdr <= sec.recs[j].len)
    && (forall j | 2 <= j < |sec.recs| :: Threshold(c) <= c.usable - Used(sec.recs[..j]))
    && (sec.store == Using && |sec.recs| >= 2 ==> Threshold(c) <= Remain(c, sec))
  }

  ghost predicate Shape(c: Config, f: Flash) {
    |f| == c.sectors && forall s | 0 <= s < |f| :: SecOk(c, f[s])
  }

  function Empties(f: Flash): nat {
    if f == [] then 0
    else Empties(f[..|f| - 1]) + if f[|f| - 1].store == Empty then 1 else 0
  }

  // ---------- live data ----------

  ghost function One(r: Rec, st: Status): multiset<(Key, Value)> {
    if r.good && r.status == st then multiset{(r.key, r.value)} else multiset{}
  }

  /** The pairs held by CRC-good records of the given status, with multiplicity. */
  ghost function Pairs(recs: seq<Rec>, st: Status): multiset<(Key, Value)> {
    if recs == [] then multiset{} else Pairs(recs[..|recs| - 1], st) + One(recs[|recs| - 1], st)
  }

  ghost function Total(f: Flash, st: Status): multiset<(Key, Value)> {
    if f == [] then multiset{} else Total(f[..|f| - 1], st) + Pairs(f[|f| - 1].recs, st)
  }

  ghost function Items(m: map<Key, Value>): multiset<(Key, Value)> { multiset(m.Items) }

  /** At rest the store denotes `m`: one good WRITE record for every key, nothing pending. */
  ghost predicate Denotes(f: Flash, m: map<Key, Value>) {
    Total(f, Write) == Items(m) && Total(f, PreDelete) == multiset{}
  }

  /** A live copy of every entry of `m` is there, and of nothing else but possibly an old value:
      nothing is pending, or one record is PRE_DELETE and either its key also has its (one) WRITE
      record or it holds the only copy. */
  ghost predicate Pending(f: Flash, m: map<Key, Value>, p: Option<(Key, Value)>) {
    match p
    case None => Denotes(f, m)
    case Some((k, v)) =>
      && k in m && Total(f, PreDelete) == multiset{(k, v)}
      && (Total(f, Write) == Items(m) || (v == m[k] && Total(f, Write) == Items(m) - multiset{(k, v)}))
  }

  /** What moving records relies on: with a record pending it is recovery that moves them, and recovery
      looks for a second record by name. */
  ghost predicate Movable(m: map<Key, Value>, p: Option<(Key, Value)>, rec: bool) {
    if rec then ShortNames(m) else p == None
  }

  /** The flash still holds m, whether or not loading will get to it. */
  ghost predicate Held(c: Config, f: Flash, m: map<Key, Value>) {
    Shape(c, f) && exists p: Option<(Key, Value)> :: Pending(f, m, p)
  }

  // ---------- the effect of writing one record or one status ----------

  lemma {:induction false} UsedAppend(recs: seq<Rec>, r: Rec)
    ensures Used(recs + [r]) == Used(recs) + r.len
  {
    assert (recs + [r])[..|recs|] == recs;
  }

  lemma {:induction false} UsedPrefix(recs: seq<Rec>, j: nat)
    requires j < |recs|
    ensures Used(recs[..j]) + recs[j].len == Used(recs[..j + 1]) <= Used(recs)
    decreases |recs|
  {
    assert recs[..j + 1][..j] == recs[..j];
    if j + 1 < |recs| {
      UsedPrefix(recs[..|recs| - 1], j);
      assert recs[..|recs| - 1][..j + 1] == recs[..j + 1] && recs[..|recs| - 1][..j] == recs[..j];
    } else {
      assert recs[..j + 1] == recs;
    }
  }

  lemma {:induction false} UsedSameLens(a: seq<Rec>, b: seq<Rec>)
    requires |a| == |b| && forall j | 0 <= j < |a| :: a[j].len == b[j].len
    ensures Used(a) == Used(b)
  {
    if a != [] {
      UsedSameLens(a[..|a| - 1], b[..|b| - 1]);
    } else {
      assert b == [];
    }
  }

  lemma {:induction false} PairsAppend(recs: seq<Rec>, r: Rec, st: Status)
    ensures Pairs(recs + [r], st) == Pairs(recs, st) + One(r, st)
  {
    assert (recs + [r])[..|recs|] == recs;
  }

  lemma {:induction false} PairsUpdate(recs: seq<Rec>, i: nat, r: Rec, st: Status)
    requires i < |recs|
    ensures Pairs(recs[i := r], st) + One(recs[i], st) == Pairs(recs, st) + One(r, st)
    decreases |recs|
  {
    hide One;
    var n := |recs| - 1;
    var after := recs[i := r];
    if i < n {
      PairsUpdate(recs[..n], i, r, st);
      assert after[..n] == recs[..n][i := r] && after[n] == recs[n];
      MultisetSwap(Pairs(after[..n], st), One(recs[i], st), Pairs(recs[..n], st), One(r, st), One(recs[n], st));
    } else {
      assert after[..n] == recs[..n];
      MultisetShift(Pairs(recs[..n], st), One(recs[i], st), One(r, st));
    }
  }

  lemma {:induction false} PairsHas(recs: seq<Rec>, i: nat, st: Status)
    requires i < |recs| && recs[i].good && recs[i].status == st
    ensures (recs[i].key, recs[i].value) in Pairs(recs, st)
    decreases |recs|
  {
    if i < |recs| - 1 {
      PairsHas(recs[..|recs| - 1], i, st);
    }
  }

  lemma {:induction false} TotalUpdate(f: Flash, s: nat, sec: Sector, st: Status)
    requires s < |f|
    ensures Total(f[s := sec], st) + Pairs(f[s].recs, st) == Total(f, st) + Pairs(sec.recs, st)
    decreases |f|
  {
    hide Pairs;
    var n := |f| - 1;
    var g := f[s := sec];
    if s < n {
      TotalUpdate(f[..n], s, sec, st);
      assert g[..n] == f[..n][s := sec] && g[n] == f[n];
      MultisetSwap(Total(g[..n], st), Pairs(f[s].recs, st), Total(f[..n], st), Pairs(sec.recs, st),
                   Pairs(f[n].recs, st));
    } else {
      assert g[..n] == f[..n];
      MultisetShift(Total(f[..n], st), Pairs(f[s].recs, st), Pairs(sec.recs, st));
    }
  }

  lemma MultisetSwap<T>(a: multiset<T>, b: multiset<T>, c: multiset<T>, d: multiset<T>, e: multiset<T>)
    requires a + b == c + d
    ensures a + e + b == c + e + d
  {
    assert a + e + b == (a + b) + e;
    assert c + e + d == (c + d) + e;
  }

  lemma MultisetShift<T>(a: multiset<T>, b: multiset<T>, c: multiset<T>)
    ensures a + c + b == a + b + c
  {
  }

  lemma {:induction false} TotalHas(f: Flash, s: nat, st: Status)
    requires s < |f|
    ensures Pairs(f[s].recs, st) <= Total(f, st)
    decreases |f|
  {
    if s < |f| - 1 {
      TotalHas(f[..|f| - 1], s, st);
    }
  }

  lemma {:induction false} EmptiesUpdate(f: Flash, s: nat, sec: Sector)
    requires s < |f|
    ensures Empties(f[s := sec]) + (if f[s].store == Empty then 1 else 0)
         == Empties(f) + (if sec.store == Empty then 1 else 0)
    decreases |f|
  {
    var n := |f| - 1;
    if s < n {
      EmptiesUpdate(f[..n], s, sec);
      assert f[s := sec][..n] == f[..n][s := sec];
    } else {
      assert f[s := sec][..n] == f[..n];
    }
  }

  lemma {:induction false} SomeEmpty(f: Flash) returns (s: nat)
    requires Empties(f) >= 1
    ensures s < |f| && f[s].store == Empty
  {
    if f[|f| - 1].store == Empty {
      s := |f| - 1;
    } else {
      s := SomeEmpty(f[..|f| - 1]);
    }
  }

  lemma {:induction false} NoEmpty(f: Flash, s: nat)
    requires s < |f| && f[s].store == Empty
    ensures Empties(f) >= 1
    decreases |f|
  {
    if s < |f| - 1 {
      NoEmpty(f[..|f| - 1], s);
    }
  }

  // ---------- sectors after an operation ----------

  /** The store status update_sec_status leaves behind for a record of `len` bytes. */
  function StoreAfter(c: Config, sec: Sector, len: nat): Store {
    if sec.store == Empty then Using
    else if sec.store == Using && (Remain(c, sec) < Threshold(c) || Remain(c, sec) - len < Threshold(c)) then Full
    else sec.store
  }

  /** A sector that took in the complete record r. */
  function Admit(c: Config, sec: Sector, r: Rec): Sector {
    Sector(StoreAfter(c, sec, r.len), sec.dirty, sec.recs + [r])
  }

  /** Record i gets a new status; a clean sector that loses a record becomes dirty. */
  function Restatus(sec: Sector, i: nat, st: Status): Sector
    requires i < |sec.recs|
  {
    Sector(sec.store, sec.dirty, sec.recs[i := sec.recs[i].(status := st)])
  }

  function Soil(sec: Sector): Sector {
    sec.(dirty := if sec.dirty == Clean then Soiled else sec.dirty)
  }

  function Retire(sec: Sector, i: nat): Sector
    requires i < |sec.recs|
  {
    Soil(Restatus(sec, i, Deleted))
  }

  lemma RestatusOk(c: Config, sec: Sector, i: nat, st: Status)
    requires SecOk(c, sec) && i < |sec.recs|
    ensures SecOk(c, Restatus(sec, i, st)) && Used(Restatus(sec, i, st).recs) == Used(sec.recs)
  {
    hide Used;
    var recs := Restatus(sec, i, st).recs;
    forall j | 0 <= j <= |recs|
      ensures Used(recs[..j]) == Used(sec.recs[..j])
    {
      UsedSameLens(recs[..j], sec.recs[..j]);
    }
    assert recs[..|recs|] == recs && sec.recs[..|sec.recs|] == sec.recs;
  }

  /** Adding a record of n bytes that fits keeps the filling discipline, provided the sector is
      not left in use below the threshold. */
  lemma AppendOk(c: Config, sec: Sector, r: Rec, store: Store)
    requires SecOk(c, sec) && sec.store != Full && 0 < r.len < Remain(c, sec)
    requires store == Using || (store == Full && sec.store == Using)
    requires store == Using && sec.store == Using ==> Threshold(c) <= Remain(c, sec) - r.len
    requires r.good ==> c.hdr <= r.len
    ensures SecOk(c, Sector(store, sec.dirty, sec.recs + [r]))
  {
    hide Used;
    var n, recs := |sec.recs|, sec.recs + [r];
    UsedAppend(sec.recs, r);
    assert recs[..n] == sec.recs && recs[n] == r;
    forall j | 0 <= j < |recs|
      ensures 0 < recs[j].len < c.usable - Used(recs[..j])
      ensures recs[j].good ==> c.hdr <= recs[j].len
      ensures j >= 2 ==> Threshold(c) <= c.usable - Used(recs[..j])
    {
      if j < n {
        assert recs[..j] == sec.recs[..j] && recs[j] == sec.recs[j];
      }
    }
  }

  lemma AdmitOk(c: Config, sec: Sector, r: Rec)
    requires SecOk(c, sec) && sec.store != Full && 0 < r.len < Remain(c, sec)
    requires r.good ==> c.hdr <= r.len
    ensures SecOk(c, Admit(c, sec, r))
  {
    AppendOk(c, sec, r, StoreAfter(c, sec, r.len));
  }

  lemma ShapeUpdate(c: Config, f: Flash, s: nat, sec: Sector)
    requires Shape(c, f) && s < |f| && SecOk(c, sec)
    ensures Shape(c, f[s := sec])
  {
  }
}
