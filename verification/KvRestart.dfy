/**
 Loading again and again: after power cuts, after loadings that ended early, and after collections
 that were cut.
 */
module KvRestart {
  import opened Basics
  import opened KvFlash
  import opened KvSteps
  import opened KvCache
  import opened KvGc
  import opened KvCollect
  import opened KvKeeps
  import opened KvCuts
  import opened KvAlike
  import opened KvLoss
  import opened KvStates
  import opened KvAgain
  import opened KvDb
  import opened KvRecovery

  // ---------- loading again and again ----------

  lemma {:induction false} FreshUnfinished(a: seq<Rec>, b: seq<Rec>)
    requires a <= b && Fresh(b, |a|)
    ensures Unfinished(b) == Unfinished(a)
    decreases |b|
  {
    if |b| > |a| {
      FreshUnfinished(a, b[..|b| - 1]);
    } else {
      assert a == b;
    }
  }

  lemma {:induction false} FewerUnfinished(f: Flash, g: Flash)
    requires |f| == |g| && forall s | 0 <= s < |f| :: Unfinished(g[s].recs) <= Unfinished(f[s].recs)
    ensures AllUnfinished(g) <= AllUnfinished(f)
  {
    hide Unfinished;
    if f != [] {
      FewerUnfinished(f[..|f| - 1], g[..|g| - 1]);
    } else {
      assert g == [];
    }
  }

  lemma ResumeUnfinished(c: Config, f: Flash)
    ensures AllUnfinished(Resume(c, f)) <= AllUnfinished(f)
  {
    hide UpTo, Empties, Unfinished, AllUnfinished;
    if SomeCollecting(f) && Empties(f) <= GC_EMPTY_THRESHOLD {
      CollectSweeps(c, f, true);
      var g := Collect(c, f, true);
      forall s | 0 <= s < |f|
        ensures Unfinished(g[s].recs) <= Unfinished(f[s].recs)
      {
        if f[s].dirty == Clean {
          FreshUnfinished(f[s].recs, g[s].recs);
        } else {
          FreshUnfinished([], g[s].recs);
          NoneUnfinished();
        }
      }
      FewerUnfinished(f, g);
    }
  }

  lemma NoneUnfinished()
    ensures Unfinished([]) == 0
  {
  }

  /** A pending record in a marked sector is never stranded, so loading does not hang. */
  lemma DirtyEnds(c: Config, f: Flash, m: map<Key, Value>, p: Option<(Key, Value)>)
    requires Shape(c, f) && Pending(f, m, p) && Survives(c, f) && PendingDirty(f) && ShortNames(m)
    ensures var h := Resume(c, f); !StrandedSomewhere(c, h) && !Hangs(c, h) && PendingDirty(h)
  {
    hide Shape, Pending, Survives, Empties, UpTo, Hangs, Fitting, PendingAt, Denotes, StrandedSomewhere, SomeCollecting;
    SurvivesFits(c, f);
    var h := Resume(c, f);
    if !Resumes(f) {
      NothingToCollect(c, f);
      DirtyNotStranded(c, f);
      HangsStranded(c, f, m, p);
    } else {
      var q := CollectKeeps(c, f, true, m, p);
      NoDirt(f, m, p);
      DenotesPending(h, m);
      DenotesNone(h, m);
      NonePendingScan(c, h);
    }
  }

  lemma DirtyNotStranded(c: Config, f: Flash)
    requires PendingDirty(f)
    ensures !StrandedSomewhere(c, f)
  {
    hide Pick, Collect;
  }

  /** Nothing dirty holds a pending record and nothing clean does: nothing is pending. */
  lemma NoDirt(f: Flash, m: map<Key, Value>, p: Option<(Key, Value)>)
    requires Pending(f, m, p) && PendingDirty(f)
    ensures !PendingDirt(f, |f|) ==> p == None
  {
    hide Pending;
    if p.Some? {
      var s, i := FindPending(f, m, p);
      assert PendingIn(f, s);
    }
  }

  predicate AnyPending(f: Flash) {
    exists s | 0 <= s < |f| :: exists i | 0 <= i < |f[s].recs| :: f[s].recs[i].good && f[s].recs[i].status == PreDelete
  }

  lemma AnyPendingMeans(f: Flash, m: map<Key, Value>, q: Option<(Key, Value)>)
    requires Pending(f, m, q)
    ensures AnyPending(f) <==> q.Some?
  {
    hide Pending;
    if q.Some? {
      var s, i := FindPending(f, m, q);
    } else {
      DenotesPending(f, m);
      DenotesNone(f, m);
      forall s, i | 0 <= s < |f| && 0 <= i < |f[s].recs|
        ensures !(f[s].recs[i].good && f[s].recs[i].status == PreDelete)
      {
        NoneAt(f, s, i);
      }
    }
  }

  /** A load that ended early has finished one record, and the next one can start.  A record that was
      stranded still is, and no other one. */
  lemma EarlyProgress(c: Config, f: Flash, g: Flash)
    requires ErrorMark(Resume(c, f), g) && Shape(c, Resume(c, f))
    ensures AllUnfinished(g) < AllUnfinished(f)
    ensures StrandedSomewhere(c, Resume(c, g)) <==> StrandedSomewhere(c, Resume(c, f))
  {
    hide Unfinished, AllUnfinished, Resume, StrandedSomewhere, Empties, Shape;
    ResumeUnfinished(c, f);
    var h := Resume(c, f);
    var s: nat, i: nat :|
      s < |h| && i < |h[s].recs| && h[s].recs[i].status == PreWrite && g == Restated(h, s, i, ErrHdr);
    AllUnfinishedUpdate(h, s, g[s]);
    UnfinishedUpdate(h[s].recs, i, g[s].recs[i]);
    EmptiesUpdate(h, s, g[s]);
    if Empties(h) > GC_EMPTY_THRESHOLD {
      RoomNotStranded(c, h);
      NothingToCollect(c, g);
      RestatedShape(c, h, s, i, ErrHdr);
      RoomNotStranded(c, g);
    } else {
      AfterResume(c, f);
      NoneCollecting(h, s, i, ErrHdr);
      NothingToCollect(c, g);
      MarkAlike(h, s, i);
      StrandedAlike(c, h, g);
    }
  }

  lemma MarkAlike(f: Flash, s: nat, i: nat)
    requires s < |f| && i < |f[s].recs| && f[s].recs[i].status == PreWrite
    ensures Alike(f, Restated(f, s, i, ErrHdr))
  {
  }

  lemma RoomNotStranded(c: Config, f: Flash)
    requires Shape(c, f) && Empties(f) > GC_EMPTY_THRESHOLD
    ensures !StrandedSomewhere(c, f)
  {
    hide Shape, Pick, Collect, Empties;
    forall s: nat, i: nat
      ensures !Stranded(c, f, s, i)
    {
      if PendingAt(f, s, i) {
        PickIsChosen(c, f, f[s].recs[i].len, false);
        var t := EmptyAllocatable(c, f, s, i);
      }
    }
  }

  /** After the collections that were cut none is left to complete, or none is needed. */
  lemma AfterResume(c: Config, f: Flash)
    ensures !Resumes(Resume(c, f))
  {
    hide UpTo, Empties;
    if Resumes(f) {
      CollectSweeps(c, f, true);
    }
  }

  lemma NoneCollecting(f: Flash, s: nat, i: nat, st: Status)
    requires s < |f| && i < |f[s].recs| && !Resumes(f)
    ensures !Resumes(Restated(f, s, i, st))
  {
    hide Empties;
    var g := Restated(f, s, i, st);
    EmptiesUpdate(f, s, g[s]);
    if SomeCollecting(g) {
      var x: nat :| x < |g| && g[x].dirty == Collecting;
      assert f[x].dirty == Collecting;
    }
  }

  /** What is stranded depends on live records and lengths only. */
  lemma StrandedAlike(c: Config, f: Flash, g: Flash)
    requires Alike(f, g)
    ensures StrandedSomewhere(c, f) <==> StrandedSomewhere(c, g)
  {
    hide Alike, Stranded;
    AlikeTurned(f, g);
    forall s: nat, i: nat
      ensures Stranded(c, f, s, i) <==> Stranded(c, g, s, i)
    {
      if Stranded(c, f, s, i) {
        StrandedToo(c, f, g, s, i);
      } else if Stranded(c, g, s, i) {
        StrandedToo(c, g, f, s, i);
      }
    }
  }

  lemma AlikeTurned(f: Flash, g: Flash)
    requires Alike(f, g)
    ensures Alike(g, f)
  {
    hide LikeRecs;
    forall s | 0 <= s < |f|
      ensures LikeSector(g[s], f[s])
    {
      LikeSymmetric(f[s].recs, g[s].recs);
    }
  }

  lemma StrandedToo(c: Config, f: Flash, g: Flash, s: nat, i: nat)
    requires Alike(f, g) && Stranded(c, f, s, i)
    ensures Stranded(c, g, s, i)
  {
    hide Alike, Pick, Collect;
    LikeAt(f, g, s, i);
    LikePick(c, f, g, f[s].recs[i].len, false);
    LikeCollect(c, f, g, true);
    LikePick(c, Collect(c, f, true), Collect(c, g, true), f[s].recs[i].len, false);
  }

  /**
   Power cuts and restarts: loading starts anew from what the last loading left, at most `loads`
   times, until nothing is pending.  With one loading more than there are unfinished records it comes to
   rest if and only if no pending record is stranded; a record in a marked sector never is.
   */
  method Restart(c: Config, crc: Key -> nat, cacheSize: nat, f: Flash, loads: nat, ghost m: map<Key, Value>)
    returns (db: Database, done: bool)
    requires ValidConfig(c) && Held(c, f, m) && Survives(c, f) && ShortNames(m)
    ensures done ==> db.AtRest(m) && !StrandedSomewhere(c, Resume(c, f))
    ensures AllUnfinished(f) < loads ==> (done <==> !StrandedSomewhere(c, Resume(c, f)))
    ensures PendingDirty(f) && AllUnfinished(f) < loads ==> done
    ensures loads >= 1 && !Hangs(c, Resume(c, f)) && !Overtaken(Resume(c, f)) ==> done
  {
    hide Pending, Shape, SecOk, Survives, AllUnfinished, PendingDirty, Hangs, Overtaken, Resume, Sound, Denotes,
      ErrorMark, StrandedSomewhere;
    var g, n := f, 0;
    done := false;
    db := new Database.PowerUp(c, crc, cacheSize, g);
    if PendingDirty(f) {
      ghost var p: Option<(Key, Value)> :| Pending(f, m, p);
      DirtyEnds(c, f, m, p);
    }
    while n < loads
      invariant n <= loads && Held(c, g, m) && Survives(c, g)
      invariant n == 0 ==> g == f
      invariant AllUnfinished(g) + n <= AllUnfinished(f)
      invariant StrandedSomewhere(c, Resume(c, g)) <==> StrandedSomewhere(c, Resume(c, f))
      invariant n > 0 ==> Hangs(c, Resume(c, f)) || Overtaken(Resume(c, f))
    {
      ghost var p: Option<(Key, Value)> :| Pending(g, m, p);
      db := new Database.PowerUp(c, crc, cacheSize, g);
      ResumeHolds(c, g, m, p);
      var ended;
      ghost var q;
      ended, q := Load(db, 2, m, p);
      if !ended {
        return;
      }
      if Overtaken(Resume(c, g)) {
        AnyPendingMeans(db.flash, m, q);
        EarlyProgress(c, g, db.flash);
        HeldSelf(c, db.flash, m, q);
        ReserveSurvives(c, db.flash);
      } else {
        DenotesPending(db.flash, m);
        AnyPendingMeans(db.flash, m, None);
      }
      if !AnyPending(db.flash) {
        done := true;
        return;
      }
      g, n := db.flash, n + 1;
    }
  }

  /** What is there after the collections that were cut; when it is stuck for ever. */
  lemma ResumeHolds(c: Config, f: Flash, m: map<Key, Value>, p: Option<(Key, Value)>)
    requires Shape(c, f) && Pending(f, m, p) && Survives(c, f) && ShortNames(m)
    ensures var h := Resume(c, f);
            && Shape(c, h) && (Hangs(c, h) ==> StrandedSomewhere(c, h))
            && (!Overtaken(h) ==> (Hangs(c, h) <==> StrandedSomewhere(c, h)))
  {
    hide Shape, Pending, Survives, Empties, UpTo, Hangs, Fitting, StrandedSomewhere, SomeCollecting, Overtaken;
    SurvivesFits(c, f);
    if Resumes(f) {
      var q := CollectKeeps(c, f, true, m, p);
      HangsStranded(c, Resume(c, f), m, q);
    } else {
      NothingToCollect(c, f);
      HangsStranded(c, f, m, p);
    }
  }

  lemma ReserveSurvives(c: Config, f: Flash)
    requires Empties(f) >= 1
    ensures Survives(c, f)
  {
  }

  /**
   An operation on a store at rest, cut after any of its flash writes, and loading from what is there
   (`cut` counts the writes).  Unless the cut fell into the writing of a copy during a collection, or
   right after the first mark of a replacement, the store comes to rest with the map from before or
   after the operation.
   */
  method CutAndRestart(db: Database, op: Op, cut: nat, loads: nat, cacheSize: nat, ghost m: map<Key, Value>)
    returns (g: Flash, next: Database, done: bool)
    requires db.AtRest(m) && db.CrcApart(m, op.key) && Sensible(op)
    modifies db`flash, db`trace, db`cache, db`lastDel, db`gcRequest
    ensures CutState(db.cfg, g, m, Aim(m, op)) || CutState(db.cfg, g, m, m)
    ensures |old(db.trace)| + cut < |db.trace| ==> g == db.trace[|old(db.trace)| + cut]
    ensures done ==> next.AtRest(m) || next.AtRest(Aim(m, op))
    ensures done ==> !StrandedSomewhere(db.cfg, Resume(db.cfg, g))
    ensures Survives(db.cfg, g) && AllUnfinished(g) < loads ==>
              (done <==> !StrandedSomewhere(db.cfg, Resume(db.cfg, g))) && (PendingDirty(g) ==> done)
    ensures var h := Resume(db.cfg, g);
            Survives(db.cfg, g) && loads >= 1 && !Hangs(db.cfg, h) && !Overtaken(h) ==> done
  {
    hide Survives, Held, PendingDirty, AllUnfinished, Interrupted, FirstMark, Shape, Sound, Denotes, FirstLive, Empties,
      Hangs, Overtaken, Resume, StrandedSomewhere;
    var c, crc, before := db.cfg, db.crc, |db.trace|;
    var ok := db.Perform(op, m);
    ghost var m' := Effect(m, op, ok);
    assert m' == m || m' == Aim(m, op);
    if before + cut < |db.trace| {
      g := db.trace[before + cut];
    } else {
      g := db.flash;
      AtRestCut(db, m');
    }
    next, done := RestartEither(c, crc, cacheSize, g, loads, m, Aim(m, op));
  }

  /** Restarting from a state that holds the one map or the other. */
  method RestartEither(c: Config, crc: Key -> nat, cacheSize: nat, f: Flash, loads: nat, ghost m: map<Key, Value>,
                       ghost m': map<Key, Value>)
    returns (db: Database, done: bool)
    requires ValidConfig(c) && (Held(c, f, m) || Held(c, f, m')) && ShortNames(m) && ShortNames(m')
    ensures done ==> db.AtRest(m) || db.AtRest(m')
    ensures done ==> !StrandedSomewhere(c, Resume(c, f))
    ensures Survives(c, f) && AllUnfinished(f) < loads ==>
              (done <==> !StrandedSomewhere(c, Resume(c, f))) && (PendingDirty(f) ==> done)
    ensures Survives(c, f) && loads >= 1 && !Hangs(c, Resume(c, f)) && !Overtaken(Resume(c, f)) ==> done
  {
    hide Survives, Held, PendingDirty, AllUnfinished, Hangs, Overtaken, Resume, StrandedSomewhere;
    done := false;
    if Survives(c, f) {
      db, done := Restart(c, crc, cacheSize, f, loads, if Held(c, f, m) then m else m');
    } else {
      db := new Database.Format(c, crc, cacheSize);
    }
  }

  lemma AtRestCut(db: Database, m: map<Key, Value>)
    requires db.AtRest(m)
    ensures CutState(db.cfg, db.flash, m, m)
  {
    hide Survives, Held, PendingDirty, Interrupted, FirstMark, Denotes, Shape;
    RestCut(db.cfg, db.flash, m);
  }

  // ---------- a collection cut anywhere: does loading keep the map? ----------

  /** On the way of a turn the sector being collected stays the first dirty one, and none of its other
      records changes. */
  lemma TurnFrame(c: Config, h: Flash, a: nat, i: nat, t: nat, g: Flash)
    requires a < |h| && i < |h[a].recs| && Live(h[a].recs[i]) && FirstDirty(h, a) && h[a].dirty == Collecting
    requires t < |h| && t != a && Target(c, h, a, i, true, false) == Some(Some(t))
    requires MoveState(c, h, a, i, true, false, g)
    ensures |g| == |h| && FirstDirty(g, a) && g[a].dirty == Collecting && |g[a].recs| == |h[a].recs|
    ensures forall j | 0 <= j < |h[a].recs| && j != i :: g[a].recs[j] == h[a].recs[j]
    ensures g[a].recs[i].key == h[a].recs[i].key
    ensures g[a].recs[i].status != Write
  {
    hide Used, Pick, KeyStored, StoreAfter, Target;
    MarkedRecord(h, a, i);
    CopiedIsMoved(c, h, a, i, t);
  }

  /** No WRITE record of the sector has the name of what is pending. */
  lemma TurnTwin(c: Config, h: Flash, a: nat, i: nat, t: nat, m: map<Key, Value>, g: Flash, p: Option<(Key, Value)>)
    requires a < |h| && i < |h[a].recs| && Live(h[a].recs[i]) && FirstDirty(h, a) && h[a].dirty == Collecting
    requires t < |h| && t != a && Target(c, h, a, i, true, false) == Some(Some(t)) && Denotes(h, m)
    requires MoveState(c, h, a, i, true, false, g) && Pending(g, m, p)
    ensures a < |g| && TwinElsewhere(g, a, p)
  {
    hide Pending, Denotes, MoveState, Target, Total;
    TurnFrame(c, h, a, i, t, g);
    DenotesPending(h, m);
    DenotesNone(h, m);
    assert !PendingAt(h, a, i) by {
      NoneAt(h, a, i);
    }
    if p.Some? {
      var s, j := FindPending(g, m, p);
      TurnPending(c, h, a, i, t, g, s, j);
      NoneAt(h, a, j);
      assert j == i;
      Present(g, a, i, PreDelete);
      PendingNone(g, m, p);
      if HasKey(g[a].recs, p.value.0) {
        var x: nat :| x < |g[a].recs| && Matches(g[a].recs[x], p.value.0);
        MatchesName(g[a].recs[x], p.value.0);
        WrittenAtOnce(h, m, None, Addr(a, x), Addr(a, i));
      }
    }
  }

  /** The states of a collection are held, and the first dirty sector is the one being collected. */
  lemma GcStateFrame(c: Config, f: Flash, m: map<Key, Value>, g: Flash) returns (d: nat, p: Option<(Key, Value)>)
    requires ValidConfig(c) && Shape(c, f) && Denotes(f, m) && Empties(f) >= 1 && GcState(c, f, false, g)
    requires ShortNames(m)
    ensures Shape(c, g) && Pending(g, m, p)
    ensures Empties(g) == 0 ==> FirstDirty(g, d) && g[d].dirty == Collecting && TwinElsewhere(g, d, p)
  {
    hide Shape, Denotes, Empties, UpTo, Pending, PendingDirt, TurnState, CollectSector, CutState, TwinElsewhere,
      SectorFits, Spill;
    GcCut(c, f, m, g);
    p := CutPending(c, g, m);
    var s: nat :| s < |f| && SectorState(c, UpTo(c, f, s, false), s, false, g);
    UpToReserve(c, f, s, false);
    UpToSweeps(c, f, s, false);
    DenotesPending(f, m);
    var q := UpToKeeps(c, f, s, false, m, None);
    var h := UpTo(c, f, s, false);
    DenotesPending(h, m);
    d := s;
    if Empties(g) == 0 {
      if g == Begun(h, s) {
        BegunSame(h, s);
      } else if g == CollectSector(c, h, s, false) {
        SectorShape(c, h, s, false);
      } else {
        var i: nat :| i < |Begun(h, s)[s].recs| && TurnState(c, Begun(h, s), s, i, false, g);
        TurnStateFrame(c, h, s, i, m, g, p);
      }
    }
  }

  lemma CutPending(c: Config, g: Flash, m: map<Key, Value>) returns (p: Option<(Key, Value)>)
    requires CutState(c, g, m, m)
    ensures Shape(c, g) && Pending(g, m, p)
  {
    hide Shape, Pending, Survives, Interrupted, PendingDirty, FirstMark;
    p :| Pending(g, m, p);
  }

  lemma TurnStateFrame(c: Config, f: Flash, a: nat, i: nat, m: map<Key, Value>, g: Flash, p: Option<(Key, Value)>)
    requires ValidConfig(c) && Shape(c, f) && Denotes(f, m) && Empties(f) >= 1 && FirstDirty(f, a)
    requires i < |f[a].recs| && TurnState(c, Begun(f, a), a, i, false, g) && Pending(g, m, p)
    ensures FirstDirty(g, a) && g[a].dirty == Collecting && TwinElsewhere(g, a, p)
  {
    hide Shape, Denotes, Empties, Pending, MoveState, Target, TwinElsewhere, After, Spill, Fresh, Placed;
    var b := Begun(f, a);
    BegunCut(c, f, a, m);
    var e := SpillAfter(c, b, a, 0, None, Empties(f), i, false);
    AfterShape(c, b, a, i, false);
    AfterGrows(c, b, a, i, false);
    ReserveFits(c, f, a, false);
    DenotesPending(b, m);
    FitsBefore(c, f, a, i, false);
    var q := AfterKeeps(c, b, a, i, false, m, None);
    var h := After(c, b, a, i, false);
    DenotesPending(h, m);
    SpillSame(c, h, h, a, i, f[a].recs, e, Empties(f));
    var t, e' := TurnTarget(c, h, a, i, e, Empties(f));
    TurnFrame(c, h, a, i, t, g);
    TurnTwin(c, h, a, i, t, m, g, p);
  }

  /**
   A collection of a store at rest, cut at any flash write: what loading makes of it holds the map if
   and only if there is an EMPTY sector left, or the records of the sector being collected find their
   place without one.  By GcCut that fails at most while a copy is being written.
   */
  lemma GcCutKeepsIff(c: Config, f: Flash, m: map<Key, Value>, g: Flash)
    requires ValidConfig(c) && Shape(c, f) && Denotes(f, m) && Empties(f) >= 1 && GcState(c, f, false, g)
    requires ShortNames(m)
    ensures Held(c, Resume(c, g), m) <==> Survives(c, g)
  {
    hide Shape, Denotes, Empties, Pending, GcState, Collect, SectorFits, TwinElsewhere, Fitting;
    var d, p := GcStateFrame(c, f, m, g);
    if Empties(g) >= 1 {
      ReserveFitting(c, g);
      var q := CollectKeeps(c, g, true, m, p);
      HeldSelf(c, g, m, p);
      HeldSelf(c, Collect(c, g, true), m, q);
    } else {
      FirstOnly(g, d);
      ResumedKeepsIff(c, g, d, m, p);
    }
  }

  /** If the record whose copy was interrupted is the last one of its sector, and no EMPTY sector is
      left, all depends on the room for one more copy in the clean sectors in use. */
  lemma LastCopyKeepsIff(c: Config, f: Flash, m: map<Key, Value>, g: Flash, a: nat, i: nat)
    requires ValidConfig(c) && Shape(c, f) && Denotes(f, m) && Empties(f) >= 1 && GcState(c, f, false, g)
    requires ShortNames(m) && Empties(g) == 0 && FirstDirty(g, a) && PendingAt(g, a, i)
    requires !KeyStored(g, g[a].recs[i].key) && forall j | 0 <= j < |g[a].recs| && j != i :: !Live(g[a].recs[j])
    ensures Held(c, Resume(c, g), m) <==> RoomInUse(c, g, g[a].recs[i].len)
  {
    hide Shape, Denotes, Empties, Pending, GcState, Collect, SectorFits, TwinElsewhere, Held, RoomInUse, KeyStored;
    GcCutKeepsIff(c, f, m, g);
    var d, p := GcStateFrame(c, f, m, g);
    FirstOnly(g, d);
    LastLiveFitsIff(c, g, a, i, true);
  }

  lemma FirstOnly(f: Flash, d: nat)
    requires FirstDirty(f, d)
    ensures forall x: nat | FirstDirty(f, x) :: x == d
  {
  }
}
