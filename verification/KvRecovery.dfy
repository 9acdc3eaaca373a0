/**
 _fdb_kv_load after a power cut.  A collection that was cut is taken up again; then a scan over all
 records moves a pending PRE_DELETE record, or drops it if its name is stored.  A PRE_WRITE record is
 marked as an error, which ends the scan and with it, unless a GC was requested, the loading.
 */
module KvRecovery {
  import opened Basics
  import opened KvFlash
  import opened KvSteps
  import opened KvCache
  import opened KvGc
  import opened KvCollect
  import opened KvKeeps
  import opened KvCuts
  import opened KvLoss
  import opened KvStates
  import opened KvAgain
  import opened KvDb

  // ---------- unfinished records ----------

  /** Neither half written nor waiting for its successor. */
  predicate Settled(r: Rec) {
    r.status != PreWrite && !(r.good && r.status == PreDelete)
  }

  ghost predicate AllSettled(f: Flash) {
    forall s, i | 0 <= s < |f| && 0 <= i < |f[s].recs| :: Settled(f[s].recs[i])
  }

  /** All records before record i of sector s are settled. */
  ghost predicate SettledUpTo(f: Flash, s: nat, i: nat) {
    forall s', j | 0 <= s' < |f| && 0 <= j < |f[s'].recs| && (s' < s || (s' == s && j < i)) ::
      Settled(f[s'].recs[j])
  }

  function Unfinished(recs: seq<Rec>): nat {
    if recs == [] then 0
    else Unfinished(recs[..|recs| - 1]) + if Settled(recs[|recs| - 1]) then 0 else 1
  }

  function AllUnfinished(f: Flash): nat {
    if f == [] then 0 else AllUnfinished(f[..|f| - 1]) + Unfinished(f[|f| - 1].recs)
  }

  lemma {:induction false} UnfinishedUpdate(recs: seq<Rec>, i: nat, r: Rec)
    requires i < |recs|
    ensures Unfinished(recs[i := r]) + (if Settled(recs[i]) then 0 else 1)
         == Unfinished(recs) + (if Settled(r) then 0 else 1)
    decreases |recs|
  {
    var n := |recs| - 1;
    if i < n {
      UnfinishedUpdate(recs[..n], i, r);
      assert recs[i := r][..n] == recs[..n][i := r];
    } else {
      assert recs[i := r][..n] == recs[..n];
    }
  }

  lemma {:induction false} AllUnfinishedUpdate(f: Flash, s: nat, sec: Sector)
    requires s < |f|
    ensures AllUnfinished(f[s := sec]) + Unfinished(f[s].recs) == AllUnfinished(f) + Unfinished(sec.recs)
    decreases |f|
  {
    hide Unfinished;
    var n := |f| - 1;
    if s < n {
      AllUnfinishedUpdate(f[..n], s, sec);
      assert f[s := sec][..n] == f[..n][s := sec];
    } else {
      assert f[s := sec][..n] == f[..n];
    }
  }

  /** A PRE_WRITE record is marked as an error: the store denotes what it denoted. */
  lemma ErrorMarked(c: Config, f: Flash, s: nat, i: nat, t: seq<Node>, crc: Key -> nat)
    requires Shape(c, f) && s < |f| && i < |f[s].recs| && f[s].recs[i].status == PreWrite && Sound(t, f, crc)
    ensures var g := f[s := Restatus(f[s], i, ErrHdr)];
            Shape(c, g) && SameLive(g, f) && Empties(g) == Empties(f) && Sound(t, g, crc) &&
            AllUnfinished(g) < AllUnfinished(f)
  {
    hide Used, Total, Unfinished, AllUnfinished, Empties, SecOk;
    var sec := Restatus(f[s], i, ErrHdr);
    var g := f[s := sec];
    var r := f[s].recs[i];
    RestatusOk(c, f[s], i, ErrHdr);
    ShapeUpdate(c, f, s, sec);
    RecChanged(f, s, sec, i, sec.recs[i], Write);
    RecChanged(f, s, sec, i, sec.recs[i], PreDelete);
    assert One(r, Write) == One(sec.recs[i], Write) == multiset{};
    assert One(r, PreDelete) == One(sec.recs[i], PreDelete) == multiset{};
    MultisetCancel(Total(g, Write), Total(f, Write), multiset{});
    MultisetCancel(Total(g, PreDelete), Total(f, PreDelete), multiset{});
    EmptiesUpdate(f, s, sec);
    SoundFrame(t, f, g, crc);
    AllUnfinishedUpdate(f, s, sec);
    UnfinishedUpdate(f[s].recs, i, sec.recs[i]);
  }

  lemma SettledNext(f: Flash, s: nat, i: nat)
    requires s < |f| && i >= |f[s].recs| && SettledUpTo(f, s, i)
    ensures SettledUpTo(f, s + 1, 0)
  {
  }

  lemma SettledEnds(f: Flash)
    ensures SettledUpTo(f, 0, 0)
    ensures SettledUpTo(f, |f|, 0) ==> AllSettled(f)
  {
  }

  // ---------- what a scan comes to ----------

  /** Record j of sector t comes before record i of sector s. */
  predicate Before(t: nat, j: nat, s: nat, i: nat) {
    t < s || (t == s && j < i)
  }

  /** A PRE_WRITE record comes before the pending one: the scan ends there. */
  ghost predicate Overtaken(f: Flash) {
    exists s: nat, i: nat, t: nat, j: nat ::
      PendingAt(f, s, i) && Before(t, j, s, i) && t < |f| && j < |f[t].recs| && f[t].recs[j].status == PreWrite
  }

  /** The pending record comes first, and no sector may take it. */
  ghost predicate Stuck(c: Config, f: Flash, s: nat, i: nat) {
    PendingAt(f, s, i) && SettledUpTo(f, s, i) && Pick(c, f, f[s].recs[i].len, false).None?
  }

  ghost predicate StuckSomewhere(c: Config, f: Flash) {
    exists s: nat, i: nat :: Stuck(c, f, s, i)
  }

  /** Stuck before and after the dirty sectors are collected: loading scans and collects for ever. */
  ghost predicate Hangs(c: Config, f: Flash) {
    StuckSomewhere(c, f) && StuckSomewhere(c, Collect(c, f, true))
  }

  lemma FindPending(f: Flash, m: map<Key, Value>, p: Option<(Key, Value)>) returns (s: nat, i: nat)
    requires Pending(f, m, p) && p.Some?
    ensures PendingAt(f, s, i)
  {
    hide Total, Pending;
    PendingNone(f, m, p);
    if NonePending(f) {
      forall s, i | 0 <= s < |f| && 0 <= i < |f[s].recs|
        ensures !(f[s].recs[i].good && f[s].recs[i].status == PreDelete && f[s].recs[i].key == p.value.0)
      {
        NoneAt(f, s, i);
      }
      Absent(f, p.value.0, p.value.1, PreDelete);
    }
    s, i :| PendingAt(f, s, i);
  }

  /** The scan has come to the pending record: it is the one that decides. */
  lemma PendingReached(c: Config, f: Flash, s: nat, i: nat, m: map<Key, Value>, p: Option<(Key, Value)>)
    requires Pending(f, m, p) && PendingAt(f, s, i) && SettledUpTo(f, s, i)
    ensures !Overtaken(f) && (StuckSomewhere(c, f) <==> Pick(c, f, f[s].recs[i].len, false).None?)
  {
    hide Pending, Pick;
    forall t: nat, j: nat | PendingAt(f, t, j)
      ensures t == s && j == i
    {
      PendingOnce(f, m, p, t, j, s, i);
    }
    if Pick(c, f, f[s].recs[i].len, false).None? {
      assert Stuck(c, f, s, i);
    }
  }

  /** The scan has come to a PRE_WRITE record first. */
  lemma PreWriteReached(c: Config, f: Flash, s: nat, i: nat, m: map<Key, Value>, p: Option<(Key, Value)>)
    requires Pending(f, m, p) && s < |f| && i < |f[s].recs| && f[s].recs[i].status == PreWrite && SettledUpTo(f, s, i)
    ensures !StuckSomewhere(c, f) && (Overtaken(f) <==> p.Some?)
  {
    hide Pending, Pick;
    forall t: nat, j: nat | PendingAt(f, t, j)
      ensures Before(s, i, t, j) && !SettledUpTo(f, t, j)
    {
    }
    if p.Some? {
      var t, j := FindPending(f, m, p);
      assert Before(s, i, t, j);
    } else {
      DenotesPending(f, m);
      DenotesNone(f, m);
    }
  }

  /** The scan found nothing to do. */
  lemma NothingReached(c: Config, f: Flash, m: map<Key, Value>, p: Option<(Key, Value)>)
    requires Pending(f, m, p) && AllSettled(f)
    ensures p == None && !StuckSomewhere(c, f) && !Overtaken(f)
  {
    hide Pending, Pick;
    if p.Some? {
      var s, i := FindPending(f, m, p);
    }
    DenotesPending(f, m);
    DenotesNone(f, m);
  }

  /** Where nothing is pending a scan is neither stuck nor overtaken. */
  lemma RestedScan(c: Config, f: Flash, m: map<Key, Value>)
    requires Denotes(f, m)
    ensures !StuckSomewhere(c, f) && !Overtaken(f)
  {
    hide Denotes, Pick;
    DenotesNone(f, m);
  }

  lemma StuckRequests(c: Config, f: Flash, s: nat, i: nat)
    requires Shape(c, f) && PendingAt(f, s, i) && Pick(c, f, f[s].recs[i].len, false).None? && Empties(f) >= 1
    ensures Empties(f) == GC_EMPTY_THRESHOLD
  {
    hide Pick;
    PickIsChosen(c, f, f[s].recs[i].len, false);
    if Empties(f) > GC_EMPTY_THRESHOLD {
      var t := EmptyAllocatable(c, f, s, i);
    }
  }

  /** An EMPTY sector that may be spent takes any record there is. */
  lemma EmptyAllocatable(c: Config, f: Flash, s: nat, i: nat) returns (t: nat)
    requires Shape(c, f) && s < |f| && i < |f[s].recs| && Empties(f) > GC_EMPTY_THRESHOLD
    ensures Allocatable(c, f, t, f[s].recs[i].len, false)
  {
    t := SomeEmpty(f);
    assert SecOk(c, f[t]) && SecOk(c, f[s]);
  }

  lemma MoveEnds(c: Config, f: Flash, a: nat, i: nat, gc: bool, rec: bool)
    requires a < |f| && i < |f[a].recs|
    ensures MoveState(c, f, a, i, gc, rec, Move(c, f, a, i, gc, rec))
  {
    hide Move, Target;
  }

  // ---------- one scan ----------

  /** What a scan relies on and keeps up. */
  ghost predicate Recovering(db: Database, m: map<Key, Value>, q: Option<(Key, Value)>)
    reads db
  {
    && db.Base() && Sound(db.cache, db.flash, db.crc) && Pending(db.flash, m, q) && ShortNames(m)
    && Empties(db.flash) >= 1 && db.inRecovery && !db.lastDel
  }

  /** In every state from t0 to t1 the map is held and a sector is EMPTY. */
  ghost predicate Retained(c: Config, t0: seq<Flash>, t1: seq<Flash>, m: map<Key, Value>) {
    t0 <= t1 && forall j | |t0| <= j < |t1| :: Held(c, t1[j], m) && Empties(t1[j]) >= 1
  }

  lemma RetainedChain(c: Config, t0: seq<Flash>, t1: seq<Flash>, t2: seq<Flash>, m: map<Key, Value>)
    requires Retained(c, t0, t1, m) && Retained(c, t1, t2, m)
    ensures Retained(c, t0, t2, m)
  {
    hide Held, Empties;
    forall j | |t0| <= j < |t2|
      ensures Held(c, t2[j], m) && Empties(t2[j]) >= 1
    {
      if j < |t1| {
        assert t2[j] == t1[j];
      }
    }
  }

  /** The move of a pending record outside a collection never takes the last EMPTY sector. */
  lemma MoveStateReserve(c: Config, f: Flash, a: nat, i: nat, rec: bool, g: Flash)
    requires ValidConfig(c) && Shape(c, f) && PendingAt(f, a, i) && Empties(f) >= 1
    requires MoveState(c, f, a, i, false, rec, g)
    ensures Empties(g) >= 1
  {
    hide Shape, Empties, Used, Pick, KeyStored, MidAppend, Moved;
    var r := f[a].recs[i];
    var t := Target(c, f, a, i, false, rec);
    PickIsChosen(c, f, r.len, false);
    GoodLength(c, f, a, i);
    PositiveLen(c, f, a, i);
    match t
    case None =>
    case Some(None) =>
      DroppedEmpties(c, f, a, i, g);
    case Some(Some(t)) =>
      RoomFor(c, f, t, r.len, false);
      ChosenRoom(c, f, t, r.len, false);
      CopyEmpties(c, f, a, i, t, g);
  }

  lemma DroppedEmpties(c: Config, f: Flash, a: nat, i: nat, g: Flash)
    requires PendingAt(f, a, i) && (g == f || g == Restated(f, a, i, Deleted) || g == Moved(c, f, a, i, None))
    ensures Empties(g) == Empties(f)
  {
    hide Used;
    EmptiesUpdate(f, a, g[a]);
    assert f[a := g[a]] == g;
  }

  lemma CopyEmpties(c: Config, f: Flash, a: nat, i: nat, t: nat, g: Flash)
    requires ValidConfig(c) && Shape(c, f) && PendingAt(f, a, i) && t < |f| && f[t].store != Full
    requires c.hdr <= f[a].recs[i].len < Remain(c, f[t]) && f[a].store != Empty
    requires Empties(f) >= 1 && (f[t].store == Empty ==> Empties(f) > 1)
    requires g == f || g == Moved(c, f, a, i, Some(t)) || CopyState(c, f, a, i, t, g)
    ensures Empties(g) >= 1
  {
    hide Shape, Empties, Used, StoreAfter, MidAppend;
    var w := f[a].recs[i].(status := Write);
    var f2 := Copied(c, f, a, i, t);
    AdmitFrame(c, f, t, w);
    if MidAppend(c, f, t, w, g) {
      MidAppendSame(c, f, t, w, g);
    } else if g != f && g != f2 {
      CopiedMovedEmpties(c, f, a, i, t, g);
    }
  }

  lemma CopiedMovedEmpties(c: Config, f: Flash, a: nat, i: nat, t: nat, g: Flash)
    requires PendingAt(f, a, i) && t < |f|
    requires var f2 := Copied(c, f, a, i, t);
             i < |f2[a].recs| && (g == Restated(f2, a, i, Deleted) || g == Moved(c, f, a, i, Some(t)))
    ensures Empties(g) == Empties(Copied(c, f, a, i, t))
  {
    hide Used, StoreAfter, Empties;
    var f2 := Copied(c, f, a, i, t);
    MarkedRecord(f, a, i);
    MovedSteps(c, f, f, f2, f2[a := Soil(Restatus(f2[a], i, Deleted))], a, i, t);
    EmptiesUpdate(f2, a, g[a]);
    assert f2[a := g[a]] == g;
  }

  /** check_and_recovery_kv_cb on record i of sector s. */
  method RecoverRecord(db: Database, s: nat, i: nat, ghost m: map<Key, Value>, ghost p: Option<(Key, Value)>)
    returns (stop: bool, ghost q: Option<(Key, Value)>)
    requires Recovering(db, m, p) && !db.gcRequest && s < |db.flash| && i < |db.flash[s].recs|
    modifies db`flash, db`trace, db`cache, db`lastDel, db`gcRequest
    ensures Recovering(db, m, q) && Retained(db.cfg, old(db.trace), db.trace, m)
    ensures var f := old(db.flash);
            if PendingAt(f, s, i) then
              if Pick(db.cfg, f, f[s].recs[i].len, false).None?
              then stop && db.gcRequest && db.flash == f && q == p
              else !stop && !db.gcRequest && q == None && db.flash == Move(db.cfg, f, s, i, false, true)
            else if f[s].recs[i].status == PreWrite then
              stop && !db.gcRequest && db.flash == Restated(f, s, i, ErrHdr) && q == p
            else !stop && !db.gcRequest && db.flash == f && q == p
  {
    hide Used, SecOk, Shape, Total, Pending, Denotes, Empties, Pick, Moved, KeyStored, Sound, MoveState, Held,
      Consistent;
    stop, q := false, p;
    ghost var f1, c1, t1 := db.flash, db.cache, db.trace;
    var r := db.flash[s].recs[i];
    if r.good && r.status == PreDelete {
      assert PendingAt(f1, s, i) && MarkedFlash(f1, s, i) == f1;
      ConsistentPending(f1, m, p);
      var ok := db.MoveKv(s, i);
      if ok {
        MoveKeeps(db.cfg, f1, s, i, false, true, m, p);
        q := None;
        DenotesPending(db.flash, m);
        RecordRetained(db.cfg, f1, s, i, m, p, t1, db.trace);
        MoveEnds(db.cfg, f1, s, i, false, true);
        MoveStateReserve(db.cfg, f1, s, i, true, db.flash);
      } else {
        StuckRequests(db.cfg, f1, s, i);
        stop := true;
      }
    } else if r.status == PreWrite {
      ErrorMarked(db.cfg, f1, s, i, db.cache, db.crc);
      db.Program(s, Restatus(db.flash[s], i, ErrHdr));
      SamePending(db.flash, f1, m, q);
      HeldSelf(db.cfg, db.flash, m, q);
      stop := true;
    } else if r.good && r.status == Write {
      NameKnown(f1, m, p, s, i);
      db.cache := Update(db.cache, db.crc(NameBytes(r.key)), Some(Addr(s, i)));
      SoundUpdated(c1, db.cache, f1, f1, db.crc, r.key, Some(Addr(s, i)));
    }
  }

  lemma ConsistentPending(f: Flash, m: map<Key, Value>, p: Option<(Key, Value)>)
    requires Pending(f, m, p) && ShortNames(m)
    ensures Consistent(f, true)
  {
    hide Pending;
  }

  lemma RecordRetained(c: Config, f: Flash, s: nat, i: nat, m: map<Key, Value>, p: Option<(Key, Value)>,
                       t0: seq<Flash>, t1: seq<Flash>)
    requires ValidConfig(c) && Shape(c, f) && PendingAt(f, s, i) && Pending(f, m, p) && Empties(f) >= 1 && t0 <= t1
    requires (forall j | |t0| <= j < |t1| :: MoveState(c, f, s, i, false, true, t1[j])) && ShortNames(m)
    ensures Retained(c, t0, t1, m)
  {
    hide Shape, Pending, Empties, MoveState, Held;
    forall j | |t0| <= j < |t1|
      ensures Held(c, t1[j], m) && Empties(t1[j]) >= 1
    {
      MoveStateHeld(c, f, s, i, false, true, m, p, t1[j]);
      MoveStateReserve(c, f, s, i, true, t1[j]);
    }
  }

  /** A PRE_WRITE record of f was marked as an error. */
  ghost predicate ErrorMark(f: Flash, g: Flash) {
    exists s: nat, i: nat ::
      s < |f| && i < |f[s].recs| && f[s].recs[i].status == PreWrite && g == Restated(f, s, i, ErrHdr)
  }

  /**
   kv_iterator with check_and_recovery_kv_cb.  The scan asks for a GC exactly if it is stuck, and has
   changed nothing then.  Otherwise, if a PRE_WRITE record comes before the pending one, it marks that
   record and leaves the pending one alone; if not, nothing is pending afterwards.  From every state
   on the way the next scan could start.
   */
  method RecoverPass(db: Database, ghost m: map<Key, Value>, ghost p: Option<(Key, Value)>)
    returns (ghost q: Option<(Key, Value)>)
    requires Recovering(db, m, p) && !db.gcRequest
    modifies db`flash, db`trace, db`cache, db`lastDel, db`gcRequest
    ensures Recovering(db, m, q) && Retained(db.cfg, old(db.trace), db.trace, m)
    ensures db.gcRequest <==> StuckSomewhere(db.cfg, old(db.flash))
    ensures db.gcRequest ==> db.flash == old(db.flash) && q == p
    ensures Overtaken(old(db.flash)) ==> q == p && p.Some? && ErrorMark(old(db.flash), db.flash)
    ensures !db.gcRequest && !Overtaken(old(db.flash)) ==> q == None
  {
    hide Recovering, Retained, AllUnfinished, SettledUpTo, Pending, StuckSomewhere, Overtaken, Move, Pick, Denotes,
      Held,
      Shape;
    q := p;
    ghost var c, f0, t0 := db.cfg, db.flash, db.trace;
    assert Retained(c, t0, t0, m) by {
      RetainedStart(c, t0, m);
    }
    SettledEnds(f0);
    ghost var same := true;
    var s := 0;
    while s < |db.flash|
      invariant s <= |db.flash| == |f0| && Recovering(db, m, q) && !db.gcRequest && db.cfg == c
      invariant Retained(c, t0, db.trace, m)
      invariant if same then db.flash == f0 && q == p && SettledUpTo(f0, s, 0)
                else q == None && !StuckSomewhere(c, f0) && !Overtaken(f0)
      decreases |f0| - s
    {
      var i := 0;
      while i < |db.flash[s].recs|
        invariant |db.flash| == |f0| && i <= |db.flash[s].recs|
        invariant Recovering(db, m, q) && !db.gcRequest && db.cfg == c
        invariant Retained(c, t0, db.trace, m)
        invariant if same then db.flash == f0 && q == p && SettledUpTo(f0, s, i)
                  else q == None && !StuckSomewhere(c, f0) && !Overtaken(f0)
        decreases same, |db.flash[s].recs| - i
      {
        ghost var f1, t1 := db.flash, db.trace;
        RecoveringPending(db, m, q);
        ghost var q1 := q;
        var stop;
        stop, q := RecoverRecord(db, s, i, m, q);
        RetainedChain(c, t0, t1, db.trace, m);
        if q1 == None {
          DenotesPending(f1, m);
          DenotesNone(f1, m);
          NoneAt(f1, s, i);
        }
        if same && PendingAt(f1, s, i) {
          PendingReached(c, f1, s, i, m, q1);
          same := false;
        } else if same && f1[s].recs[i].status == PreWrite {
          PreWriteReached(c, f1, s, i, m, q1);
        } else if same {
          SettledPast(f1, s, i);
        }
        if stop {
          return;
        }
        i := i + 1;
      }
      if same {
        SettledNext(f0, s, i);
      }
      s := s + 1;
    }
    if same {
      SettledEnds(f0);
      RecoveringPending(db, m, q);
      NothingReached(c, f0, m, q);
    }
  }

  lemma RetainedStart(c: Config, t: seq<Flash>, m: map<Key, Value>)
    ensures Retained(c, t, t, m)
  {
  }

  lemma RecoveringPending(db: Database, m: map<Key, Value>, q: Option<(Key, Value)>)
    requires Recovering(db, m, q)
    ensures Pending(db.flash, m, q) && Shape(db.cfg, db.flash) && Empties(db.flash) >= 1
  {
  }

  lemma SettledPast(f: Flash, s: nat, i: nat)
    requires s < |f| && i < |f[s].recs| && SettledUpTo(f, s, i)
    requires f[s].recs[i].status != PreWrite && !PendingAt(f, s, i)
    ensures SettledUpTo(f, s, i + 1)
  {
  }

  // ---------- a collection that was cut ----------

  /** A collection of what was collected changes nothing more. */
  lemma CollectAgain(c: Config, f: Flash)
    ensures Collect(c, Collect(c, f, true), true) == Collect(c, f, true)
    ensures SomeCollecting(Collect(c, f, true)) ==> Collect(c, f, true) == f
  {
    hide UpTo, Empties;
    if Empties(f) <= GC_EMPTY_THRESHOLD {
      CollectSweeps(c, f, true);
      CollectClean(c, Collect(c, f, true), true);
    }
  }

  /** From every state from t0 to t1 the map can be got back. */
  ghost predicate AllRetrievable(c: Config, t0: seq<Flash>, t1: seq<Flash>, m: map<Key, Value>) {
    t0 <= t1 && forall j | |t0| <= j < |t1| :: Retrievable(c, t1[j], m)
  }

  lemma RetrievableChain(c: Config, t0: seq<Flash>, t1: seq<Flash>, t2: seq<Flash>, m: map<Key, Value>)
    requires AllRetrievable(c, t0, t1, m) && AllRetrievable(c, t1, t2, m)
    ensures AllRetrievable(c, t0, t2, m)
  {
    hide Retrievable;
    forall j | |t0| <= j < |t2|
      ensures Retrievable(c, t2[j], m)
    {
      if j < |t1| {
        assert t2[j] == t1[j];
      }
    }
  }

  lemma RetrievableStart(c: Config, t: seq<Flash>, m: map<Key, Value>)
    ensures AllRetrievable(c, t, t, m)
  {
  }

  lemma RetainedRetrievable(c: Config, t0: seq<Flash>, t1: seq<Flash>, m: map<Key, Value>)
    requires Retained(c, t0, t1, m) && ShortNames(m)
    ensures AllRetrievable(c, t0, t1, m)
  {
    hide Held, Empties, Retrievable;
    forall j | |t0| <= j < |t1|
      ensures Retrievable(c, t1[j], m)
    {
      HeldRetrievable(c, t1[j], m);
    }
  }

  /** A collection made by loading. */
  method CollectOnce(db: Database, ghost m: map<Key, Value>, ghost p: Option<(Key, Value)>)
    returns (ghost q: Option<(Key, Value)>)
    requires db.Base() && Sound(db.cache, db.flash, db.crc) && Pending(db.flash, m, p) && ShortNames(m)
    requires Fitting(db.cfg, db.flash, true) && db.gcRequest && db.inRecovery && !db.lastDel
    modifies db`flash, db`trace, db`cache, db`lastDel, db`gcRequest
    ensures Recovering(db, m, q) && !db.gcRequest && db.flash == Collect(db.cfg, old(db.flash), true)
    ensures AllRetrievable(db.cfg, old(db.trace), db.trace, m)
    ensures p == None ==> q == None
    ensures p == None ==> forall j | |old(db.trace)| <= j < |db.trace| :: Held(db.cfg, db.trace[j], m)
  {
    hide Used, SecOk, Shape, Total, Pending, Denotes, Empties, Sound, Collect, Fitting, GcState, Consistent,
      PendingDirt, Held, Retrievable;
    ghost var f := db.flash;
    ConsistentPending(f, m, p);
    q := CollectKeeps(db.cfg, f, true, m, p);
    db.GcCollect();
    DenotesPending(f, m);
    forall j | |old(db.trace)| <= j < |db.trace|
      ensures Retrievable(db.cfg, db.trace[j], m) && (p == None ==> Held(db.cfg, db.trace[j], m))
    {
      GcRetrievable(db.cfg, f, m, p, db.trace[j]);
      if p == None {
        GcHeld(db.cfg, f, true, m, db.trace[j]);
      }
    }
  }

  /** check_and_recovery_gc_cb over all sectors. */
  method ResumeGc(db: Database, ghost m: map<Key, Value>, ghost p: Option<(Key, Value)>)
    returns (ghost q: Option<(Key, Value)>)
    requires db.Base() && Sound(db.cache, db.flash, db.crc) && Pending(db.flash, m, p) && Survives(db.cfg, db.flash)
    requires db.inRecovery && !db.lastDel && !db.gcRequest && ShortNames(m)
    modifies db`flash, db`trace, db`cache, db`lastDel, db`gcRequest
    ensures Recovering(db, m, q) && !db.gcRequest && db.flash == Resume(db.cfg, old(db.flash))
    ensures !SomeCollecting(old(db.flash)) ==> q == p && db.trace == old(db.trace)
    ensures AllRetrievable(db.cfg, old(db.trace), db.trace, m)
    ensures p == None ==> forall j | |old(db.trace)| <= j < |db.trace| :: Held(db.cfg, db.trace[j], m)
  {
    hide Used, SecOk, Shape, Total, Pending, Denotes, Empties, Sound, Collect, Survives, Fitting, Held, AllRetrievable;
    ghost var f0, c, t0 := db.flash, db.cfg, db.trace;
    SurvivesFits(c, f0);
    RetrievableStart(c, t0, m);
    q := p;
    var s := 0;
    while s < |db.flash|
      invariant s <= |db.flash| == |f0| && db.cfg == c
      invariant db.Base() && Sound(db.cache, db.flash, db.crc) && Pending(db.flash, m, q) && Fitting(c, db.flash, true)
      invariant db.inRecovery && !db.lastDel && !db.gcRequest && AllRetrievable(c, t0, db.trace, m)
      invariant if exists x :: 0 <= x < s && f0[x].dirty == Collecting
                then db.flash == Collect(c, f0, true) && Empties(db.flash) >= 1
                else db.flash == f0 && q == p && db.trace == t0
      invariant p == None ==> q == None && forall j | |t0| <= j < |db.trace| :: Held(c, db.trace[j], m)
    {
      if db.flash[s].dirty == Collecting {
        ghost var t1 := db.trace;
        db.gcRequest := true;
        CollectAgain(c, f0);
        q := CollectOnce(db, m, q);
        ReserveFitting(c, db.flash);
        RetrievableChain(c, t0, t1, db.trace, m);
        if p == None {
          HeldChain(c, t0, t1, db.trace, m);
        }
      }
      s := s + 1;
    }
  }

  lemma HeldChain(c: Config, t0: seq<Flash>, t1: seq<Flash>, t2: seq<Flash>, m: map<Key, Value>)
    requires AllRetrievable(c, t1, t2, m)
    requires forall j | |t0| <= j < |t1| :: Held(c, t1[j], m)
    requires forall j | |t1| <= j < |t2| :: Held(c, t2[j], m)
    ensures forall j | |t0| <= j < |t2| :: Held(c, t2[j], m)
  {
    hide Held, Retrievable;
    forall j | |t0| <= j < |t2|
      ensures Held(c, t2[j], m)
    {
      if j < |t1| {
        assert t2[j] == t1[j];
      }
    }
  }

  // ---------- one load ----------

  /** A stuck pending record in a clean sector is still the first thing a scan comes to after the
      collection; in a dirty one it is dealt with. */
  lemma StuckCollected(c: Config, f: Flash, s: nat, i: nat, m: map<Key, Value>, p: Option<(Key, Value)>)
    returns (q: Option<(Key, Value)>)
    requires Shape(c, f) && Pending(f, m, p) && Empties(f) >= 1 && Stuck(c, f, s, i) && ShortNames(m)
    ensures Empties(f) <= GC_EMPTY_THRESHOLD && Pending(Collect(c, f, true), m, q)
    ensures var h := Collect(c, f, true);
            if f[s].dirty == Clean
            then PendingAt(h, s, i) && SettledUpTo(h, s, i) && h[s].recs[i] == f[s].recs[i]
            else q == None
  {
    hide Shape, Pending, Pick, Empties, Collect;
    StuckRequests(c, f, s, i);
    CollectSweeps(c, f, true);
    q := CollectKeeps(c, f, true, m, p);
    if f[s].dirty != Clean {
      assert PendingIn(f, s) && PendingDirt(f, |f|);
    } else {
      SweptSettled(f, Collect(c, f, true), s, i);
    }
  }

  lemma SweptSettled(f: Flash, h: Flash, s: nat, i: nat)
    requires Swept(f, h, |f|) && PendingAt(f, s, i) && SettledUpTo(f, s, i) && f[s].dirty == Clean
    ensures PendingAt(h, s, i) && SettledUpTo(h, s, i) && h[s].recs[i] == f[s].recs[i]
  {
    assert f[s].recs <= h[s].recs;
    forall t, j | 0 <= t < |h| && 0 <= j < |h[t].recs| && (t < s || (t == s && j < i))
      ensures Settled(h[t].recs[j])
    {
      if f[t].dirty == Clean && j < |f[t].recs| {
        assert h[t].recs[j] == f[t].recs[j];
      }
    }
  }

  /** The pending record lies in a clean sector, and no sector may take it, neither now nor once the
      dirty sectors are collected. */
  ghost predicate Stranded(c: Config, f: Flash, s: nat, i: nat) {
    PendingAt(f, s, i) && f[s].dirty == Clean &&
    var len := f[s].recs[i].len;
    Pick(c, f, len, false).None? && Pick(c, Collect(c, f, true), len, false).None?
  }

  ghost predicate StrandedSomewhere(c: Config, f: Flash) {
    exists s: nat, i: nat :: Stranded(c, f, s, i)
  }

  lemma StrandedOnly(c: Config, f: Flash, s: nat, i: nat, m: map<Key, Value>, p: Option<(Key, Value)>)
    requires Pending(f, m, p) && PendingAt(f, s, i)
    ensures StrandedSomewhere(c, f) <==> Stranded(c, f, s, i)
  {
    hide Pending, Pick, Collect;
    forall t: nat, j: nat | Stranded(c, f, t, j)
      ensures t == s && j == i
    {
      PendingOnce(f, m, p, t, j, s, i);
    }
  }

  /** Loading hangs if and only if the pending record is stranded and nothing unfinished comes before it. */
  lemma HangsIff(c: Config, f: Flash, s: nat, i: nat, m: map<Key, Value>, p: Option<(Key, Value)>)
    requires Shape(c, f) && Pending(f, m, p) && Empties(f) >= 1 && PendingAt(f, s, i) && ShortNames(m)
    ensures Hangs(c, f) <==> SettledUpTo(f, s, i) && Stranded(c, f, s, i)
  {
    hide Shape, Pending, Pick, Empties, Collect, SettledUpTo, Overtaken;
    forall t: nat, j: nat | PendingAt(f, t, j)
      ensures t == s && j == i
    {
      PendingOnce(f, m, p, t, j, s, i);
    }
    assert StuckSomewhere(c, f) <==> Stuck(c, f, s, i);
    if Stuck(c, f, s, i) {
      var q := StuckCollected(c, f, s, i, m, p);
      var h := Collect(c, f, true);
      if f[s].dirty == Clean {
        PendingReached(c, h, s, i, m, q);
      } else {
        DenotesPending(h, m);
        RestedScan(c, h, m);
      }
    }
  }

  lemma NonePendingScan(c: Config, f: Flash)
    requires NonePending(f)
    ensures !Hangs(c, f) && !StrandedSomewhere(c, f) && PendingDirty(f)
  {
    hide Collect, Pick;
  }

  /** Once no PRE_WRITE record is in the way, a stranded record makes loading hang. */
  lemma HangsStranded(c: Config, f: Flash, m: map<Key, Value>, p: Option<(Key, Value)>)
    requires Shape(c, f) && Pending(f, m, p) && Empties(f) >= 1 && ShortNames(m)
    ensures Hangs(c, f) ==> StrandedSomewhere(c, f)
    ensures !Overtaken(f) ==> (Hangs(c, f) <==> StrandedSomewhere(c, f))
  {
    hide Shape, Pending, Empties, Hangs, StrandedSomewhere, Stranded, Overtaken, PendingAt, SettledUpTo;
    if NonePending(f) {
      NonePendingScan(c, f);
    } else {
      var s: nat, i: nat :| PendingAt(f, s, i);
      HangsIff(c, f, s, i, m, p);
      StrandedOnly(c, f, s, i, m, p);
      if !Overtaken(f) {
        SettledUnlessOvertaken(f, s, i, m, p);
      }
    }
  }

  lemma SettledUnlessOvertaken(f: Flash, s: nat, i: nat, m: map<Key, Value>, p: Option<(Key, Value)>)
    requires Pending(f, m, p) && PendingAt(f, s, i) && !Overtaken(f)
    ensures SettledUpTo(f, s, i)
  {
    hide Pending;
    forall t, j | 0 <= t < |f| && 0 <= j < |f[t].recs| && (t < s || (t == s && j < i))
      ensures Settled(f[t].recs[j])
    {
      assert Before(t, j, s, i);
      if PendingAt(f, t, j) {
        PendingOnce(f, m, p, t, j, s, i);
      }
    }
  }

  lemma StuckFirst(c: Config, f: Flash, m: map<Key, Value>, p: Option<(Key, Value)>)
    requires Shape(c, f) && Pending(f, m, p) && Empties(f) >= 1 && StuckSomewhere(c, f) && ShortNames(m)
    ensures !Overtaken(f) && !Overtaken(Collect(c, f, true))
  {
    hide Shape, Pending, Pick, Empties, Collect, Overtaken, SettledUpTo;
    var s: nat, i: nat :| Stuck(c, f, s, i);
    PendingReached(c, f, s, i, m, p);
    var q := StuckCollected(c, f, s, i, m, p);
    var h := Collect(c, f, true);
    if f[s].dirty == Clean {
      PendingReached(c, h, s, i, m, q);
    } else {
      DenotesPending(h, m);
      RestedScan(c, h, m);
    }
  }

  /**
   _fdb_kv_load, once: it scans again only after a scan that asked for a GC, here at most `passes`
   times.  It ends unless it hangs, and takes at most two scans then.  It ends at rest, with exactly the
   map, if and only if no PRE_WRITE record comes before the pending one; otherwise the pending record
   is left as it is.  A second cut, anywhere in it, leaves a state with a live copy of every entry.
   */
  method Load(db: Database, passes: nat, ghost m: map<Key, Value>, ghost p: Option<(Key, Value)>)
    returns (done: bool, ghost q: Option<(Key, Value)>)
    requires db.Base() && Sound(db.cache, db.flash, db.crc) && Pending(db.flash, m, p) && Survives(db.cfg, db.flash)
    requires db.inRecovery && !db.lastDel && !db.gcRequest && ShortNames(m)
    modifies db`flash, db`trace, db`cache, db`lastDel, db`gcRequest, db`inRecovery
    ensures Hangs(db.cfg, Resume(db.cfg, old(db.flash))) ==> !done
    ensures passes >= 2 && !Hangs(db.cfg, Resume(db.cfg, old(db.flash))) ==> done
    ensures done ==> (db.AtRest(m) <==> !Overtaken(Resume(db.cfg, old(db.flash))))
    ensures done && Overtaken(Resume(db.cfg, old(db.flash))) ==>
              && Shape(db.cfg, db.flash) && Pending(db.flash, m, q) && q.Some? && Empties(db.flash) >= 1
              && ErrorMark(Resume(db.cfg, old(db.flash)), db.flash)
    ensures AllRetrievable(db.cfg, old(db.trace), db.trace, m)
    ensures !SomeCollecting(old(db.flash)) && !StuckSomewhere(db.cfg, old(db.flash)) ==>
              Retained(db.cfg, old(db.trace), db.trace, m)
  {
    hide Used, SecOk, Shape, Total, Pending, Denotes, Empties, Sound, Collect, Survives, Retained, StuckSomewhere,
      Overtaken, ErrorMark, Held, SomeCollecting, AllRetrievable, Fitting;
    ghost var c, f0, t0 := db.cfg, db.flash, db.trace;
    q := ResumeGc(db, m, p);
    ghost var g := db.flash;
    if StuckSomewhere(c, g) {
      StuckFirst(c, g, m, q);
    }
    CollectAgain(c, g);
    RetainedStart(c, t0, m);
    done := false;
    var n := 0;
    while n < passes
      invariant n <= passes && db.cfg == c && Recovering(db, m, q) && !db.gcRequest
      invariant if n == 0 then db.flash == g && (!SomeCollecting(f0) ==> db.trace == t0)
                else db.flash == Collect(c, g, true) && StuckSomewhere(c, g)
      invariant n >= 2 ==> StuckSomewhere(c, db.flash)
      invariant AllRetrievable(c, t0, db.trace, m)
    {
      ghost var t1 := db.trace;
      q := RecoverPass(db, m, q);
      RetainedRetrievable(c, t1, db.trace, m);
      RetrievableChain(c, t0, t1, db.trace, m);
      if !db.gcRequest {
        db.inRecovery := false;
        done := true;
        RestOrNot(db.flash, m, q);
        return;
      }
      ghost var t2 := db.trace;
      ReserveFitting(c, db.flash);
      q := CollectOnce(db, m, q);
      RetrievableChain(c, t0, t2, db.trace, m);
      n := n + 1;
    }
  }

  lemma RestOrNot(f: Flash, m: map<Key, Value>, q: Option<(Key, Value)>)
    requires Pending(f, m, q)
    ensures Denotes(f, m) <==> q == None
  {
    hide Total;
  }

  lemma RestatedRoom(c: Config, f: Flash, a: nat, i: nat, st: Status, len: nat)
    requires a < |f| && i < |f[a].recs|
    ensures Pick(c, Restated(f, a, i, st), len, false).None? <==> Pick(c, f, len, false).None?
  {
    hide Used, Pick, Empties;
    var g := Restated(f, a, i, st);
    PickIsChosen(c, f, len, false);
    PickIsChosen(c, g, len, false);
    UsedSameLens(g[a].recs, f[a].recs);
    EmptiesUpdate(f, a, g[a]);
    forall s: nat
      ensures Allocatable(c, g, s, len, false) <==> Allocatable(c, f, s, len, false)
    {
    }
  }

  /** Nothing unfinished comes before record i of sector s, but for the dirty sectors. */
  ghost predicate CleanSettled(f: Flash, s: nat, i: nat) {
    forall t, j | 0 <= t < |f| && f[t].dirty == Clean && 0 <= j < |f[t].recs| && (t < s || (t == s && j < i)) ::
      Settled(f[t].recs[j])
  }

  /**
   set_kv on a store at rest is cut after its first flash write, the old record's PRE_DELETE status, so
   before the sector is marked dirty.  h is what is there once a collection that was cut is completed.
   The record is stranded if and only if its sector was clean and there is no room for a second copy of
   the OLD record, neither in h nor once the dirty sectors are collected; set_kv had only asked for room
   for the new one.  Loading then hangs unless something unfinished comes first.
   */
  lemma CutBeforeDirtyMark(c: Config, f: Flash, a: Addr, m: map<Key, Value>)
    requires Shape(c, f) && Denotes(f, m) && Empties(f) >= 1 && IsWrite(f, a) && ShortNames(m)
    ensures var g := Restated(f, a.sec, a.rec, PreDelete);
            var h := Resume(c, g);
            var len := f[a.sec].recs[a.rec].len;
            && Held(c, g, m) && Survives(c, g)
            && h == (if Resumes(f) then Collect(c, g, true) else g)
            && (StrandedSomewhere(c, h) <==>
                && f[a.sec].dirty == Clean
                && Pick(c, h, len, false).None? && Pick(c, Collect(c, h, true), len, false).None?)
            && (Hangs(c, h) <==>
                && StrandedSomewhere(c, h)
                && if Resumes(f) then CleanSettled(f, a.sec, a.rec) else SettledUpTo(f, a.sec, a.rec))
            && (if Resumes(f) then Collect(c, h, true) == h
                else Pick(c, h, len, false).None? <==> Pick(c, f, len, false).None?)
  {
    hide Shape, Denotes, Empties, Pending, Collect, Pick, Total, Held, Survives, Hangs, StrandedSomewhere, SettledUpTo,
      CleanSettled, SomeCollecting;
    var g := Restated(f, a.sec, a.rec, PreDelete);
    var r := f[a.sec].recs[a.rec];
    var p := Some((r.key, r.value));
    FirstMarked(c, f, a, m);
    RestatedRoom(c, f, a.sec, a.rec, PreDelete, r.len);
    SettledSame(f, a.sec, a.rec, PreDelete);
    if Resumes(f) {
      CollectAgain(c, g);
      ResumedMark(c, g, a.sec, a.rec, m, p);
    } else {
      NothingToCollect(c, g);
      HangsIff(c, g, a.sec, a.rec, m, p);
      StrandedOnly(c, g, a.sec, a.rec, m, p);
    }
  }

  lemma FirstMarked(c: Config, f: Flash, a: Addr, m: map<Key, Value>)
    requires Shape(c, f) && Denotes(f, m) && Empties(f) >= 1 && IsWrite(f, a)
    ensures var g := Restated(f, a.sec, a.rec, PreDelete);
            var r := f[a.sec].recs[a.rec];
            && Shape(c, g) && Pending(g, m, Some((r.key, r.value))) && PendingAt(g, a.sec, a.rec)
            && Empties(g) == Empties(f) && Held(c, g, m) && Survives(c, g) && (Resumes(g) <==> Resumes(f))
  {
    hide Shape, Denotes, Empties, Pending, Total;
    var g := Restated(f, a.sec, a.rec, PreDelete);
    var r := f[a.sec].recs[a.rec];
    Prepared(f, m, a.sec, a.rec, g[a.sec]);
    RestatedShape(c, f, a.sec, a.rec, PreDelete);
    EmptiesUpdate(f, a.sec, g[a.sec]);
    HeldSelf(c, g, m, Some((r.key, r.value)));
    forall s | 0 <= s < |f|
      ensures g[s].dirty == f[s].dirty
    {
    }
  }

  /** The pending record (s, i) of g after the collection that is completed first. */
  lemma ResumedMark(c: Config, g: Flash, s: nat, i: nat, m: map<Key, Value>, p: Option<(Key, Value)>)
    requires Shape(c, g) && Pending(g, m, p) && PendingAt(g, s, i) && ShortNames(m) && Empties(g) >= 1 && Resumes(g)
    ensures var h := Collect(c, g, true);
            && (StrandedSomewhere(c, h) <==> g[s].dirty == Clean && Pick(c, h, g[s].recs[i].len, false).None?)
            && (Hangs(c, h) <==> StrandedSomewhere(c, h) && CleanSettled(g, s, i))
  {
    hide Shape, Denotes, Empties, Pending, Collect, Pick, Hangs, StrandedSomewhere, SettledUpTo, CleanSettled,
      SomeCollecting, Fresh;
    var h := Collect(c, g, true);
    ReserveFitting(c, g);
    var q := CollectKeeps(c, g, true, m, p);
    CollectSweeps(c, g, true);
    CollectAgain(c, g);
    if g[s].dirty == Clean {
      SweptClean(g, h, s, i);
      HangsIff(c, h, s, i, m, q);
      StrandedOnly(c, h, s, i, m, q);
    } else {
      assert PendingIn(g, s) && PendingDirt(g, |g|);
      DenotesPending(h, m);
      DenotesNone(h, m);
      NonePendingScan(c, h);
    }
  }

  lemma SweptClean(f: Flash, h: Flash, s: nat, i: nat)
    requires Swept(f, h, |f|) && PendingAt(f, s, i) && f[s].dirty == Clean
    ensures PendingAt(h, s, i) && h[s].recs[i] == f[s].recs[i] && h[s].dirty == Clean
    ensures SettledUpTo(h, s, i) <==> CleanSettled(f, s, i)
  {
    assert f[s].recs <= h[s].recs;
    if CleanSettled(f, s, i) {
      forall t, j | 0 <= t < |h| && 0 <= j < |h[t].recs| && (t < s || (t == s && j < i))
        ensures Settled(h[t].recs[j])
      {
        if f[t].dirty == Clean && j < |f[t].recs| {
          assert h[t].recs[j] == f[t].recs[j];
        }
      }
    }
    if SettledUpTo(h, s, i) {
      forall t, j | 0 <= t < |f| && f[t].dirty == Clean && 0 <= j < |f[t].recs| && (t < s || (t == s && j < i))
        ensures Settled(f[t].recs[j])
      {
        assert h[t].recs[j] == f[t].recs[j];
      }
    }
  }

  lemma SettledSame(f: Flash, s: nat, i: nat, st: Status)
    requires s < |f| && i < |f[s].recs|
    ensures SettledUpTo(Restated(f, s, i, st), s, i) <==> SettledUpTo(f, s, i)
    ensures CleanSettled(Restated(f, s, i, st), s, i) <==> CleanSettled(f, s, i)
  {
    var g := Restated(f, s, i, st);
    if CleanSettled(g, s, i) {
      forall t, j | 0 <= t < |f| && f[t].dirty == Clean && 0 <= j < |f[t].recs| && (t < s || (t == s && j < i))
        ensures Settled(f[t].recs[j])
      {
        assert g[t].recs[j] == f[t].recs[j];
      }
    }
    if SettledUpTo(g, s, i) {
      forall t, j | 0 <= t < |f| && 0 <= j < |f[t].recs| && (t < s || (t == s && j < i))
        ensures Settled(f[t].recs[j])
      {
        assert g[t].recs[j] == f[t].recs[j];
      }
    }
  }
}
