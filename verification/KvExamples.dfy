/**
 Concrete stores for what can go wrong when a cut falls at a bad moment: loading that hangs, loading
 that ends too early, a second copy of a name, and data that is lost.
 */
module KvExamples {
  import opened Basics
  import opened KvFlash
  import opened KvSteps
  import opened KvCache
  import opened KvGc
  import opened KvCollect
  import opened KvKeeps
  import opened KvCuts
  import opened KvLoss
  import opened KvStates
  import opened KvAgain
  import opened KvDb
  import opened KvRecovery
  import opened KvRestart

  // ---------- evaluating small stores ----------

  lemma Sums(f: Flash)
    requires |f| == 2
    ensures forall st :: Total(f, st) == Pairs(f[0].recs, st) + Pairs(f[1].recs, st)
    ensures Empties(f) == (if f[0].store == Empty then 1 else 0) + (if f[1].store == Empty then 1 else 0)
  {
    assert f[..1][..0] == [] && f[..1][0] == f[0];
    assert Empties(f[..1]) == if f[0].store == Empty then 1 else 0;
    forall st
      ensures Total(f, st) == Pairs(f[0].recs, st) + Pairs(f[1].recs, st)
    {
      assert Total(f[..1], st) == multiset{} + Pairs(f[0].recs, st);
    }
  }

  lemma OneUsed(recs: seq<Rec>)
    requires |recs| == 1
    ensures Used(recs) == recs[0].len
  {
    assert recs[..0] == [];
  }

  lemma TwoUsed(recs: seq<Rec>)
    requires |recs| == 2
    ensures Used(recs) == recs[0].len + recs[1].len
  {
    OneUsed(recs[..1]);
  }

  lemma PairsOfTwo(recs: seq<Rec>, st: Status)
    requires |recs| == 2
    ensures Pairs(recs, st) == One(recs[0], st) + One(recs[1], st)
  {
    PairsOfOne(recs[..1], st);
  }

  lemma PairsOfOne(recs: seq<Rec>, st: Status)
    requires |recs| == 1
    ensures Pairs(recs, st) == One(recs[0], st)
  {
    assert recs[..0] == [];
    assert multiset{} + One(recs[0], st) == One(recs[0], st);
  }

  lemma OneItem(k: Key, v: Value)
    ensures Items(map[k := v]) == multiset{(k, v)} && Items(map[]) == multiset{}
  {
    assert Items(map[]) == multiset{};
    ItemsAdd(map[], k, v);
    assert map[][k := v] == map[k := v];
  }


  // ---------- loading that hangs ----------

  /** A store of two sectors with one record, a key of one byte and a value of 600. */
  lemma OneRecord(c: Config, k: Key, v: Value) returns (f: Flash)
    requires |k| == 1 && |v| == 600 && c == Config(2, 1000, 24, 1)
    ensures Shape(c, f) && Denotes(f, map[k := v]) && Empties(f) == 1
    ensures |f| == 2 && f == [Admit(c, FORMATTED, Rec(k, v, KvLen(c, k, v), Write, true)), FORMATTED]
  {
    hide Total, Empties, SecOk;
    var r := Rec(k, v, KvLen(c, k, v), Write, true);
    var base := [FORMATTED, FORMATTED];
    var sec := Admit(c, FORMATTED, r);
    f := base[0 := sec];
    FormattedEmpty(base);
    FormattedOk(c);
    AdmitOk(c, FORMATTED, r);
    ShapeUpdate(c, base, 0, sec);
    EmptiesUpdate(base, 0, sec);
    assert Items(map[]) == multiset{};
    AddedStates(base, f, 0, sec, map[], r);
    assert map[][k := v] == map[k := v];
  }


  lemma StuckClean(c: Config, f: Flash)
    requires StuckSomewhere(c, f) && forall s | 0 <= s < |f| :: f[s].dirty == Clean
    ensures Hangs(c, f)
  {
    hide StuckSomewhere;
    CollectClean(c, f, true);
  }

  /** Two sectors, one value of 600 bytes in 1000, replaced by one of 4 and cut before the dirty mark:
      there is room for the new record, not for a second copy of the old one, and loading hangs. */
  lemma HangExample(c: Config, k: Key, v: Value, w: Value) returns (f: Flash)
    requires |k| == 1 && |v| == 600 && |w| == 4 && c == Config(2, 1000, 24, 1)
    ensures ValidConfig(c) && Shape(c, f) && Denotes(f, map[k := v]) && Empties(f) == 1
    ensures Pick(c, f, KvLen(c, k, w), false) == Some(0)
    ensures var g := Restated(f, 0, 0, PreDelete);
            Resume(c, g) == g && Held(c, g, map[k := v]) && Survives(c, g) && Hangs(c, g)
  {
    hide Total, Empties, SecOk, Denotes, Pending, Shape;
    f := OneRecord(c, k, v);
    var g := Restated(f, 0, 0, PreDelete);
    OneUsed(f[0].recs);
    OneUsed(g[0].recs);
    CutBeforeDirtyMark(c, f, Addr(0, 0), map[k := v]);
    EmptiesUpdate(f, 0, g[0]);
    assert Stuck(c, g, 0, 0) by {
      assert FirstRoom(c, g, Using, 625, false, 2).None?;
      assert FirstRoom(c, g, Using, 625, false, 1).None?;
    }
    StuckClean(c, g);
  }

  // ---------- loading that ends too early ----------

  /** Sector 0 holds another name and has room, sector 1 holds k, whose value of 600 bytes is to be
      replaced by w. */
  function BeforeSet(o: Key, ov: Value, k: Key, v: Value): Flash {
    [Sector(Using, Clean, [Rec(o, ov, 525, Write, true)]), Sector(Using, Clean, [Rec(k, v, 625, Write, true)]),
     FORMATTED]
  }

  /** set_kv was cut when the new record in sector 0 had its header. */
  function CutInSet(o: Key, ov: Value, k: Key, v: Value, w: Value): Flash {
    [Sector(Using, Clean, [Rec(o, ov, 525, Write, true), Rec(k, w, 29, PreWrite, false)]),
     Sector(Using, Soiled, [Rec(k, v, 625, PreDelete, true)]), FORMATTED]
  }

  lemma ThreeSums(f: Flash)
    requires |f| == 3
    ensures forall st :: Total(f, st) == Pairs(f[0].recs, st) + Pairs(f[1].recs, st) + Pairs(f[2].recs, st)
    ensures Empties(f) == (if f[0].store == Empty then 1 else 0) + (if f[1].store == Empty then 1 else 0)
                          + (if f[2].store == Empty then 1 else 0)
  {
    hide Total, Empties, Pairs;
    var g := f[..2];
    Sums(g);
    assert Empties(f) == Empties(g) + if f[2].store == Empty then 1 else 0 by {
      LastSum(f, Write);
    }
    forall st
      ensures Total(f, st) == Pairs(f[0].recs, st) + Pairs(f[1].recs, st) + Pairs(f[2].recs, st)
    {
      LastSum(f, st);
    }
  }

  lemma LastSum(f: Flash, st: Status)
    requires |f| == 3
    ensures Total(f, st) == Total(f[..2], st) + Pairs(f[2].recs, st)
    ensures Empties(f) == Empties(f[..2]) + if f[2].store == Empty then 1 else 0
  {
  }

  lemma TwoItems(o: Key, ov: Value, k: Key, v: Value)
    requires o != k
    ensures Items(map[o := ov, k := v]) == multiset{(o, ov)} + multiset{(k, v)}
  {
    OneItem(o, ov);
    ItemsAdd(map[o := ov], k, v);
    assert map[o := ov][k := v] == map[o := ov, k := v];
  }

  lemma BeforeSetAtRest(c: Config, o: Key, ov: Value, k: Key, v: Value)
    requires |o| == |k| == 1 && o != k && |ov| == 500 && |v| == 600 && c == Config(3, 1000, 24, 1)
    ensures var f := BeforeSet(o, ov, k, v);
            Shape(c, f) && Denotes(f, map[o := ov, k := v]) && Empties(f) == 1
  {
    hide Total, Pairs, Empties;
    var f := BeforeSet(o, ov, k, v);
    ThreeSums(f);
    OneUsed(f[0].recs);
    OneUsed(f[1].recs);
    assert f[0].recs[..0] == [] && f[1].recs[..0] == [];
    PairsOfOne(f[0].recs, Write);
    PairsOfOne(f[0].recs, PreDelete);
    PairsOfOne(f[1].recs, Write);
    PairsOfOne(f[1].recs, PreDelete);
    PairsOfNone();
    TwoItems(o, ov, k, v);
  }

  lemma PairsOfNone()
    ensures forall st :: Pairs([], st) == multiset{}
  {
  }

  lemma CutInSetHeld(c: Config, o: Key, ov: Value, k: Key, v: Value, w: Value)
    requires |o| == |k| == 1 && o != k && |ov| == 500 && |v| == 600 && |w| == 4 && c == Config(3, 1000, 24, 1)
    ensures var g := CutInSet(o, ov, k, v, w);
            && Shape(c, g) && Pending(g, map[o := ov, k := v], Some((k, v))) && Empties(g) == 1
            && (forall u :: (k, u) !in Total(g, Write)) && Overtaken(g)
  {
    hide Total, Pairs, Empties, Used, Shape;
    var g := CutInSet(o, ov, k, v, w);
    CutInSetShape(c, o, ov, k, v, w);
    CutInSetTotals(o, ov, k, v, w);
    TwoItems(o, ov, k, v);
    assert multiset{(o, ov)} + multiset{(k, v)} - multiset{(k, v)} == multiset{(o, ov)};
    assert PendingAt(g, 1, 0) && Before(0, 1, 1, 0);
  }

  lemma CutInSetShape(c: Config, o: Key, ov: Value, k: Key, v: Value, w: Value)
    requires c == Config(3, 1000, 24, 1)
    ensures Shape(c, CutInSet(o, ov, k, v, w))
  {
    var g := CutInSet(o, ov, k, v, w);
    TwoUsed(g[0].recs);
    OneUsed(g[0].recs[..1]);
    OneUsed(g[1].recs);
    assert g[0].recs[..0] == [] && g[1].recs[..0] == [];
    assert SecOk(c, g[0]) && SecOk(c, g[1]) && SecOk(c, g[2]);
  }

  lemma CutInSetTotals(o: Key, ov: Value, k: Key, v: Value, w: Value)
    ensures var g := CutInSet(o, ov, k, v, w);
            Total(g, Write) == multiset{(o, ov)} && Total(g, PreDelete) == multiset{(k, v)} && Empties(g) == 1
  {
    hide Total, Pairs, Empties;
    var g := CutInSet(o, ov, k, v, w);
    ThreeSums(g);
    PairsOfTwo(g[0].recs, Write);
    PairsOfTwo(g[0].recs, PreDelete);
    PairsOfOne(g[1].recs, Write);
    PairsOfOne(g[1].recs, PreDelete);
    PairsOfNone();
  }

  /** That state is on the way of the set: the sector was allocated, the old record marked, and the new
      one has its PRE_WRITE status and its header. */
  lemma CutInSetReached(c: Config, o: Key, ov: Value, k: Key, v: Value, w: Value)
    requires |o| == |k| == 1 && o != k && |ov| == 500 && |v| == 600 && |w| == 4 && c == Config(3, 1000, 24, 1)
    ensures var f := BeforeSet(o, ov, k, v);
            var f1 := f[1 := Soil(Restatus(f[1], 0, PreDelete))];
            && KvLen(c, k, w) == 29 && Pick(c, f, 29, false) == Some(0)
            && MidAppend(c, f1, 0, Rec(k, w, 29, Write, true), CutInSet(o, ov, k, v, w))
  {
    var f := BeforeSet(o, ov, k, v);
    var f1 := f[1 := Soil(Restatus(f[1], 0, PreDelete))];
    var r, x := Rec(k, w, 29, Write, true), Rec(k, w, 29, PreWrite, false);
    OneUsed(f[0].recs);
    OneUsed(f1[0].recs);
    assert Half(c, r, x);
    var g := CutInSet(o, ov, k, v, w);
    assert f1[0].recs + [x] == g[0].recs && StoreAfter(c, f1[0], 29) == Using;
    assert f1[1].recs == g[1].recs;
    assert f1[0 := Partial(c, f1[0], r, x)] == g;
  }

  /** Loading ends, the old record stays PRE_DELETE, and the name is not found. */
  method EarlyEnd(crc: Key -> nat, o: Key, ov: Value, k: Key, v: Value, w: Value) returns (db: Database, done: bool)
    requires |o| == |k| == 1 && o != k && |ov| == 500 && |v| == 600 && |w| == 4
    ensures done && !db.AtRest(map[o := ov, k := v]) && !KeyStored(db.flash, k)
    ensures forall u :: (k, u) !in Total(db.flash, Write)
  {
    hide Total, Pending, Shape, Denotes, Overtaken, Empties, Hangs, KeyStored, Retained, Survives, StuckSomewhere;
    var c, g := Config(3, 1000, 24, 1), CutInSet(o, ov, k, v, w);
    ghost var m := map[o := ov, k := v];
    CutInSetHeld(c, o, ov, k, v, w);
    ReserveSurvives(c, g);
    assert !SomeCollecting(g) && Resume(c, g) == g;
    OvertakenEnds(c, g, m, Some((k, v)));
    db := new Database.PowerUp(c, crc, 1, g);
    ghost var q;
    done, q := Load(db, 2, m, Some((k, v)));
    NoNewWrites(g, db.flash, k);
    NotStoredMeans(db.flash, k);
  }

  lemma OvertakenEnds(c: Config, f: Flash, m: map<Key, Value>, p: Option<(Key, Value)>)
    requires Shape(c, f) && Pending(f, m, p) && Empties(f) >= 1 && Overtaken(f) && ShortNames(m)
    ensures !Hangs(c, f)
  {
    hide Shape, Pending, Empties, Overtaken, Collect;
    if StuckSomewhere(c, f) {
      StuckFirst(c, f, m, p);
    }
  }

  lemma NoNewWrites(f: Flash, g: Flash, k: Key)
    requires ErrorMark(f, g) && forall u :: (k, u) !in Total(f, Write)
    ensures !KeyStored(g, k)
  {
    hide Total;
    if KeyStored(g, k) {
      var s: nat :| s < |g| && HasKey(g[s].recs, k);
      var i: nat :| i < |g[s].recs| && Matches(g[s].recs[i], k);
      MatchesName(g[s].recs[i], k);
      assert g[s].recs[i] == f[s].recs[i];
      Present(f, s, i, Write);
    }
  }

  /** Outside recovery, or with a name of KV_NAME_MAX bytes, a pending record is moved although its name
      is stored: both are WRITE then. */
  lemma SecondCopy(c: Config, f: Flash, a: nat, i: nat, gc: bool, rec: bool, w: Value)
    requires PendingAt(f, a, i) && Pick(c, f, f[a].recs[i].len, gc).Some?
    requires rec ==> !KeyStored(f, NameRead(f[a].recs[i].key))
    requires (f[a].recs[i].key, w) in Total(f, Write)
    ensures var r := f[a].recs[i];
            var g := Move(c, f, a, i, gc, rec);
            Total(g, Write) == Total(f, Write) + multiset{(r.key, r.value)} && (r.key, w) in Total(g, Write)
  {
    hide Total, Pick, Used, StoreAfter, KeyStored;
    var r := f[a].recs[i];
    PickIsChosen(c, f, r.len, gc);
    var t := Target(c, f, a, i, gc, rec).value.value;
    var f2 := Copied(c, f, a, i, t);
    var f3 := f2[a := Soil(Restatus(f2[a], i, Deleted))];
    RoomFor(c, f, t, r.len, gc);
    CopiedMeans(c, f, a, i, t);
    Finished(f2, a, i, f3[a], PreDelete);
    MovedSteps(c, f, f, f2, f3, a, i, t);
  }

  // ---------- a name that fills the buffer ----------

  /** Setting a name of KV_NAME_MAX bytes succeeds on a formatted store, and the scan does not find it. */
  method LongNameLost(c: Config, crc: Key -> nat, cacheSize: nat, k: Key, v: Value) returns (db: Database, found: bool)
    requires ValidConfig(c) && |k| == KV_NAME_MAX && KvLen(c, k, v) < c.usable
    ensures Denotes(db.flash, map[k := v]) && !found
  {
    hide Empties, Used, Denotes, KeyStored, Pick, Cuts;
    db := new Database.Format(c, crc, cacheSize);
    FormattedRoom(c, db.flash, KvLen(c, k, v));
    var r := db.SetKv(k, v, map[]);
    assert map[][k := v] == map[k := v];
    var a;
    found, a := db.FindNoCache(k);
  }

  lemma FormattedRoom(c: Config, f: Flash, size: nat)
    requires 2 <= c.sectors == |f| && size < c.usable && forall s | 0 <= s < |f| :: f[s] == FORMATTED
    ensures Pick(c, f, size, false).Some?
  {
    FormattedEmpty(f);
    PickIsChosen(c, f, size, false);
    assert Allocatable(c, f, 0, size, false);
  }

  /** Setting it again, once the cache has lost it, takes the way of a new name: two WRITE records. */
  lemma LongNameTwice(c: Config, f: Flash, t: nat, m: map<Key, Value>, r: Rec)
    requires Denotes(f, m) && r.key in m && |r.key| == KV_NAME_MAX && r.good && r.status == Write && t < |f|
    ensures !KeyStored(f, r.key)
    ensures Total(f[t := Admit(c, f[t], r)], Write) == Items(m) + multiset{(r.key, r.value)}
    ensures (r.key, m[r.key]) in Items(m)
  {
    hide Total, Used, StoreAfter, KeyStored;
    StoredIff(f, r.key);
    RecAdded(f, t, Admit(c, f[t], r), r, Write);
    ItemsRemove(m, r.key);
  }

  // ---------- data that is lost ----------

  /** The flash of the example: sector 0 holds a dead record and the only copy of k, of 625 bytes. */
  function BeforeGc(k: Key, v: Value): Flash
    requires |k| == 1 && |v| == 600
  {
    [Sector(Using, Soiled, [Rec(k, [0], 26, Deleted, true), Rec(k, v, 625, Write, true)]), FORMATTED]
  }

  /** A collection of sector 0, cut while the copy in sector 1 is being written: sector 0 is marked, its
      live record is PRE_DELETE, and the copy has a header but not yet its data. */
  function CutInGc(k: Key, v: Value): Flash
    requires |k| == 1 && |v| == 600
  {
    [Sector(Using, Collecting, [Rec(k, [0], 26, Deleted, true), Rec(k, v, 625, PreDelete, true)]),
     Sector(Using, Clean, [Rec(k, v, 625, PreWrite, false)])]
  }

  lemma CutInGcPending(k: Key, v: Value)
    requires |k| == 1 && |v| == 600
    ensures Pending(CutInGc(k, v), map[k := v], Some((k, v)))
  {
    hide Total, Pairs;
    var f := CutInGc(k, v);
    Sums(f);
    PairsOfTwo(f[0].recs, Write);
    PairsOfTwo(f[0].recs, PreDelete);
    PairsOfOne(f[1].recs, Write);
    PairsOfOne(f[1].recs, PreDelete);
    OneItem(k, v);
  }

  /** The state before was at rest with an EMPTY sector in reserve. */
  lemma BeforeGcAtRest(c: Config, k: Key, v: Value)
    requires |k| == 1 && |v| == 600 && c == Config(2, 1000, 24, 1)
    ensures var f := BeforeGc(k, v);
            ValidConfig(c) && Shape(c, f) && Denotes(f, map[k := v]) && Empties(f) == 1
  {
    hide Total, Pairs, Empties;
    var f := BeforeGc(k, v);
    Sums(f);
    TwoUsed(f[0].recs);
    OneUsed(f[0].recs[..1]);
    assert f[0].recs[..0] == [];
    PairsOfTwo(f[0].recs, Write);
    PairsOfTwo(f[0].recs, PreDelete);
    PairsOfNone();
    OneItem(k, v);
    assert Total(f, Write) == multiset{(k, v)} && Total(f, PreDelete) == multiset{};
  }

  /** The cut state is one on the way of the collection. */
  lemma CutInGcReached(c: Config, k: Key, v: Value)
    requires |k| == 1 && |v| == 600 && c == Config(2, 1000, 24, 1)
    ensures GcState(c, BeforeGc(k, v), false, CutInGc(k, v))
  {
    hide Empties;
    var f, g := BeforeGc(k, v), CutInGc(k, v);
    var b := Begun(f, 0);
    Sums(f);
    assert UpTo(c, f, 0, false) == f;
    assert After(c, b, 0, 0, false) == b;
    assert After(c, b, 0, 1, false) == b;
    CopyReached(c, k, v);
    assert TurnState(c, b, 0, 1, false, g);
    assert SectorState(c, UpTo(c, f, 0, false), 0, false, g);
  }

  lemma CopyReached(c: Config, k: Key, v: Value)
    requires |k| == 1 && |v| == 600 && c == Config(2, 1000, 24, 1)
    ensures MoveState(c, Begun(BeforeGc(k, v), 0), 0, 1, true, false, CutInGc(k, v))
  {
    hide Empties, Pick;
    var b, g := Begun(BeforeGc(k, v), 0), CutInGc(k, v);
    var f1 := MarkedFlash(b, 0, 1);
    var r := b[0].recs[1];
    var x := Rec(k, v, 625, PreWrite, false);
    Sums(f1);
    TwoUsed(f1[0].recs);
    PickIsChosen(c, f1, 625, true);
    assert Allocatable(c, f1, 1, 625, true);
    assert Pick(c, f1, 625, true) == Some(1);
    assert Half(c, r.(status := Write), x);
    assert f1[0].recs == g[0].recs && f1[1].recs + [x] == g[1].recs;
    assert g == f1[1 := Partial(c, f1[1], r.(status := Write), x)];
  }

  /** With the half-written copy in the way there is no room for another one. */
  lemma CutInGcStuck(c: Config, k: Key, v: Value)
    requires |k| == 1 && |v| == 600 && c == Config(2, 1000, 24, 1)
    ensures var f := CutInGc(k, v);
            && Shape(c, f) && Pending(f, map[k := v], Some((k, v))) && Empties(f) == 0
            && FirstDirty(f, 0) && Pick(c, f, 625, true).None? && !SectorFits(c, f, 0, true)
  {
    hide Total, Pairs, Empties, Pick;
    var f := CutInGc(k, v);
    TwoUsed(f[0].recs);
    OneUsed(f[0].recs[..1]);
    OneUsed(f[1].recs);
    assert f[0].recs[..0] == [] && f[1].recs[..0] == [];
    Sums(f);
    CutInGcPending(k, v);
    PickIsChosen(c, f, 625, true);
    assert Begun(f, 0) == f && After(c, f, 0, 0, true) == f && After(c, f, 0, 1, true) == f;
    assert MarkedFlash(f, 0, 1) == f && !KeyStored(f, k);
    assert !Placed(c, After(c, f, 0, 1, true), 0, 1, true);
  }

  /** So loading formats the sector with the only copy: the map is not held any more. */
  lemma CutInGcLoses(c: Config, k: Key, v: Value)
    requires |k| == 1 && |v| == 600 && c == Config(2, 1000, 24, 1)
    ensures var f := CutInGc(k, v); Held(c, f, map[k := v]) && !Survives(c, f) && !Held(c, Resume(c, f), map[k := v])
  {
    hide Shape, Pending, Empties, SectorFits, Pick, GcState, Denotes, Held;
    var f := CutInGc(k, v);
    CutInGcStuck(c, k, v);
    HeldSelf(c, f, map[k := v], Some((k, v)));
    BeforeGcAtRest(c, k, v);
    CutInGcReached(c, k, v);
    GcCutKeepsIff(c, BeforeGc(k, v), map[k := v], f);
    FirstOnly(f, 0);
  }
}
