/**
 The flash states on the way of a move and of a collection, so the states a power cut can leave, and
 what is true of them: the map is still held, and a collection that is taken up again keeps it unless
 the cut fell into the writing of a copy.
 */
module KvStates {
  import opened Basics
  import opened KvFlash
  import opened KvSteps
  import opened KvCache
  import opened KvGc
  import opened KvCollect
  import opened KvKeeps
  import opened KvCuts

  // ---------- the states ----------

  /** Record i of sector a with its new status, the dirty status of the sector not yet written. */
  function Restated(f: Flash, a: nat, i: nat, st: Status): Flash
    requires a < |f| && i < |f[a].recs|
  {
    f[a := Restatus(f[a], i, st)]
  }

  /** A state on the way of move_kv on record i of sector a of f. */
  ghost predicate MoveState(c: Config, f: Flash, a: nat, i: nat, gc: bool, rec: bool, g: Flash)
    requires a < |f| && i < |f[a].recs|
  {
    var f1 := MarkedFlash(f, a, i);
    || (f[a].recs[i].status == Write && g == Restated(f, a, i, PreDelete))
    || g == f1
    || g == Move(c, f, a, i, gc, rec)
    || match Target(c, f, a, i, gc, rec)
       case None => false
       case Some(None) => g == Restated(f1, a, i, Deleted)
       case Some(Some(t)) => CopyState(c, f, a, i, t, g)
  }

  /** A state on the way of its copy to sector t. */
  ghost predicate CopyState(c: Config, f: Flash, a: nat, i: nat, t: nat, g: Flash)
    requires a < |f| && i < |f[a].recs|
  {
    t < |f| &&
    var w := f[a].recs[i].(status := Write);
    var f2 := Copied(c, f, a, i, t);
    || MidAppend(c, MarkedFlash(f, a, i), t, w, g)
    || g == f2
    || (i < |f2[a].recs| && g == Restated(f2, a, i, Deleted))
  }

  /** A state on the way of do_gc on sector a of f. */
  ghost predicate SectorState(c: Config, f: Flash, a: nat, rec: bool, g: Flash)
    requires a < |f|
  {
    f[a].dirty != Clean &&
    var b := Begun(f, a);
    || g == b
    || g == CollectSector(c, f, a, rec)
    || exists i: nat :: i < |b[a].recs| && TurnState(c, b, a, i, rec, g)
  }

  /** A state on the way of the turn of record i. */
  ghost predicate TurnState(c: Config, b: Flash, a: nat, i: nat, rec: bool, g: Flash)
    requires a < |b| && i < |b[a].recs|
  {
    var h := After(c, b, a, i, rec);
    Live(h[a].recs[i]) && MoveState(c, h, a, i, true, rec, g)
  }

  /** A state on the way of gc_collect on f. */
  ghost predicate GcState(c: Config, f: Flash, rec: bool, g: Flash) {
    Empties(f) <= GC_EMPTY_THRESHOLD && exists s: nat :: s < |f| && SectorState(c, UpTo(c, f, s, rec), s, rec, g)
  }

  // ---------- what a cut leaves behind ----------

  /** Loading can complete a collection that was cut here: there is an EMPTY sector, or none is needed. */
  predicate Survives(c: Config, f: Flash) {
    Empties(f) >= 1 ||
    exists d | 0 <= d < |f| :: FirstDirty(f, d) && f[d].dirty == Collecting && SectorFits(c, f, d, true)
  }

  /** The cut fell into the writing of the copy of a pending record, to a clean sector with room for it;
      up to then loading could have completed the collection. */
  ghost predicate Interrupted(c: Config, g: Flash) {
    exists h: Flash, a: nat, i: nat, t: nat :: CopyCut(c, h, a, i, t, g) && Survives(c, h)
  }

  ghost predicate CopyCut(c: Config, h: Flash, a: nat, i: nat, t: nat, g: Flash) {
    && PendingAt(h, a, i) && h[a].dirty == Collecting
    && t < |h| && h[t].dirty == Clean && h[t].store != Full && h[a].recs[i].len < Remain(c, h[t])
    && MidAppend(c, h, t, h[a].recs[i].(status := Write), g)
  }

  /** A pending record's sector is marked, so a collection will come to it. */
  ghost predicate PendingDirty(f: Flash) {
    forall s: nat, i: nat :: PendingAt(f, s, i) ==> f[s].dirty != Clean
  }

  /** A WRITE record of a clean sector was just marked PRE_DELETE, the sector not yet. */
  ghost predicate FirstMark(c: Config, g: Flash) {
    exists f: Flash, a: Addr ::
      && Shape(c, f) && IsWrite(f, a) && f[a.sec].dirty == Clean && (forall s: nat, i: nat :: !PendingAt(f, s, i))
      && g == Restated(f, a.sec, a.rec, PreDelete)
  }

  /** What is true of every state in which a cut may find the flash, with m before and m' after. */
  ghost predicate CutState(c: Config, g: Flash, m: map<Key, Value>, m': map<Key, Value>) {
    && (Held(c, g, m) || Held(c, g, m'))
    && (Survives(c, g) || Interrupted(c, g))
    && (PendingDirty(g) || FirstMark(c, g))
  }

  /** All states from t0 to t1 are such states. */
  ghost predicate Cuts(c: Config, t0: seq<Flash>, t1: seq<Flash>, m: map<Key, Value>, m': map<Key, Value>) {
    t0 <= t1 && forall j | |t0| <= j < |t1| :: CutState(c, t1[j], m, m')
  }

  lemma CutsStart(c: Config, t: seq<Flash>, m: map<Key, Value>, m': map<Key, Value>)
    ensures Cuts(c, t, t, m, m')
  {
  }

  lemma CutsChain(c: Config, t0: seq<Flash>, t1: seq<Flash>, t2: seq<Flash>, m: map<Key, Value>, m': map<Key, Value>)
    requires Cuts(c, t0, t1, m, m') && Cuts(c, t1, t2, m, m')
    ensures Cuts(c, t0, t2, m, m')
  {
    hide CutState;
    forall j | |t0| <= j < |t2|
      ensures CutState(c, t2[j], m, m')
    {
      if j < |t1| {
        assert t2[j] == t1[j];
      }
    }
  }

  /** A wider choice of maps. */
  lemma CutsWiden(c: Config, t0: seq<Flash>, t1: seq<Flash>, n: map<Key, Value>, m: map<Key, Value>, m': map<Key,
                  Value>)
    requires Cuts(c, t0, t1, n, n) && (n == m || n == m')
    ensures Cuts(c, t0, t1, m, m')
  {
    hide Held, Survives, Interrupted, PendingDirty, FirstMark;
  }

  // ---------- the map is held ----------

  lemma HeldAs(c: Config, g: Flash, f: Flash, m: map<Key, Value>, p: Option<(Key, Value)>)
    requires Shape(c, g) && SameLive(g, f) && Pending(f, m, p)
    ensures Held(c, g, m)
  {
    hide Shape, SameLive, Pending;
    SamePending(g, f, m, p);
  }

  /** Whatever is done to the dirty status, the records are the same. */
  lemma SoilSame(f: Flash, a: nat, i: nat, st: Status)
    requires a < |f| && i < |f[a].recs|
    ensures SameLive(Restated(f, a, i, st), f[a := Soil(Restatus(f[a], i, st))])
  {
    hide Total;
    var g := Restated(f, a, i, st);
    SameRecs(g, a, Soil(g[a]), Write);
    SameRecs(g, a, Soil(g[a]), PreDelete);
    assert g[a := Soil(g[a])] == f[a := Soil(Restatus(f[a], i, st))];
  }

  lemma RestatedShape(c: Config, f: Flash, a: nat, i: nat, st: Status)
    requires Shape(c, f) && a < |f| && i < |f[a].recs|
    ensures Shape(c, Restated(f, a, i, st))
  {
    hide SecOk;
    RestatusOk(c, f[a], i, st);
    ShapeUpdate(c, f, a, Restatus(f[a], i, st));
  }

  /** A record of a store at rest, or the pending one, is marked. */
  lemma MarkedPending(c: Config, f: Flash, a: nat, i: nat, m: map<Key, Value>, p: Option<(Key, Value)>)
    requires Shape(c, f) && a < |f| && i < |f[a].recs| && Live(f[a].recs[i]) && Pending(f, m, p)
    requires p == None || f[a].recs[i].status == PreDelete
    ensures Pending(MarkedFlash(f, a, i), m, Some((f[a].recs[i].key, f[a].recs[i].value)))
  {
    hide Shape, Total, Pending, Denotes;
    var r := f[a].recs[i];
    Present(f, a, i, r.status);
    PendingNone(f, m, p);
    if r.status == Write {
      DenotesPending(f, m);
      Prepared(f, m, a, i, MarkedFlash(f, a, i)[a]);
    }
  }

  lemma CopyStateHeld(c: Config, f: Flash, a: nat, i: nat, gc: bool, rec: bool, t: nat, m: map<Key, Value>,
                      p: Option<(Key, Value)>, g: Flash)
    requires ValidConfig(c) && Shape(c, f) && a < |f| && i < |f[a].recs| && Live(f[a].recs[i]) && Pending(f, m, p)
    requires Movable(m, p, rec) && (p == None || f[a].recs[i].status == PreDelete)
    requires Target(c, f, a, i, gc, rec) == Some(Some(t)) && CopyState(c, f, a, i, t, g)
    ensures Held(c, g, m)
  {
    hide Shape, Total, Pending, Denotes, SameLive, Pick, KeyStored, Used, StoreAfter, MidAppend, MarkedFlash, Moved,
      Chosen;
    var r := f[a].recs[i];
    var pair := Some((r.key, r.value));
    var f1 := MarkedFlash(f, a, i);
    var w := r.(status := Write);
    var f2 := Copied(c, f, a, i, t);
    MarkedRecord(f, a, i);
    MarkedOk(c, f, a, i);
    MarkedPending(c, f, a, i, m, p);
    PickIsChosen(c, f1, r.len, gc);
    RoomFor(c, f1, t, r.len, gc);
    GoodLength(c, f, a, i);
    PositiveLen(c, f, a, i);
    CopiedMeans(c, f, a, i, t);
    AdmitHere(c, f1, t, w);
    if MidAppend(c, f1, t, w, g) {
      MidAppendSame(c, f1, t, w, g);
      HeldAs(c, g, f1, m, pair);
    } else if g == f2 {
      MarkedMeans(f, a, i, m, p);
      if rec {
        NameKnown(f, m, p, a, i);
        NotStoredMeans(f1, r.key);
      }
      CopiedPending(f, f1, f2, a, i, m, p);
      HeldSelf(c, g, m, pair);
    } else {
      RestatedShape(c, f2, a, i, Deleted);
      MoveKeeps(c, f, a, i, gc, rec, m, p);
      CopiedMoved(c, f, a, i, t);
      DenotesPending(Move(c, f, a, i, gc, rec), m);
      HeldAs(c, g, Moved(c, f, a, i, Some(t)), m, if r.status == Write then p else None);
    }
  }

  lemma CopiedMoved(c: Config, f: Flash, a: nat, i: nat, t: nat)
    requires a < |f| && i < |f[a].recs| && Live(f[a].recs[i]) && t < |f|
    ensures var f2 := Copied(c, f, a, i, t);
            i < |f2[a].recs| && SameLive(Restated(f2, a, i, Deleted), Moved(c, f, a, i, Some(t)))
  {
    hide SameLive, Used, StoreAfter;
    var f1 := MarkedFlash(f, a, i);
    var f2 := Copied(c, f, a, i, t);
    MarkedRecord(f, a, i);
    SoilSame(f2, a, i, Deleted);
    MovedSteps(c, f, f1, f2, f2[a := Soil(Restatus(f2[a], i, Deleted))], a, i, t);
  }

  lemma CopiedPending(f: Flash, f1: Flash, f2: Flash, a: nat, i: nat, m: map<Key, Value>, p: Option<(Key, Value)>)
    requires a < |f| && i < |f[a].recs|
    requires var one := multiset{(f[a].recs[i].key, f[a].recs[i].value)};
             Total(f2, Write) == Total(f1, Write) + one && Total(f2, PreDelete) == Total(f1, PreDelete)
    requires Pending(f1, m, Some((f[a].recs[i].key, f[a].recs[i].value)))
    requires forall w :: (f[a].recs[i].key, w) !in Total(f1, Write)
    ensures Pending(f2, m, Some((f[a].recs[i].key, f[a].recs[i].value)))
  {
    hide Total;
    var k, v := f[a].recs[i].key, f[a].recs[i].value;
    assert (k, m[k]) in Items(m);
    assert Items(m) - multiset{(k, v)} + multiset{(k, v)} == Items(m) by {
      assert v == m[k];
    }
  }

  /** Every state on the way of a move still holds the map. */
  lemma MoveStateHeld(c: Config, f: Flash, a: nat, i: nat, gc: bool, rec: bool, m: map<Key, Value>,
                      p: Option<(Key, Value)>, g: Flash)
    requires ValidConfig(c) && Shape(c, f) && a < |f| && i < |f[a].recs| && Live(f[a].recs[i]) && Pending(f, m, p)
    requires Movable(m, p, rec) && (p == None || f[a].recs[i].status == PreDelete)
    requires MoveState(c, f, a, i, gc, rec, g)
    ensures Held(c, g, m)
  {
    hide Shape, Total, Pending, Denotes, SameLive, Pick, KeyStored, Used, StoreAfter, CopyState, Held, Target, Move;
    var r := f[a].recs[i];
    var pair := Some((r.key, r.value));
    var f1 := MarkedFlash(f, a, i);
    var t := Target(c, f, a, i, gc, rec);
    MarkedOk(c, f, a, i);
    MarkedPending(c, f, a, i, m, p);
    HeldSelf(c, f1, m, pair);
    if r.status == Write && g == Restated(f, a, i, PreDelete) {
      RestatedShape(c, f, a, i, PreDelete);
      SoilSame(f, a, i, PreDelete);
      HeldAs(c, g, f1, m, pair);
    } else if g == Move(c, f, a, i, gc, rec) {
      MovedHeld(c, f, a, i, gc, rec, m, p);
    } else if g != f1 {
      if t.value.None? {
        MarkedRecord(f, a, i);
        RestatedShape(c, f1, a, i, Deleted);
        DroppedHeld(c, f, a, i, gc, rec, m, p, g);
      } else {
        CopyStateHeld(c, f, a, i, gc, rec, t.value.value, m, p, g);
      }
    }
  }

  lemma HeldSelf(c: Config, f: Flash, m: map<Key, Value>, p: Option<(Key, Value)>)
    requires Shape(c, f) && Pending(f, m, p)
    ensures Held(c, f, m)
  {
    hide Shape, Pending;
  }

  lemma MovedHeld(c: Config, f: Flash, a: nat, i: nat, gc: bool, rec: bool, m: map<Key, Value>, p: Option<(Key, Value)>)
    requires Shape(c, f) && a < |f| && i < |f[a].recs| && Live(f[a].recs[i]) && Pending(f, m, p)
    requires Movable(m, p, rec) && (p == None || f[a].recs[i].status == PreDelete)
    ensures Held(c, Move(c, f, a, i, gc, rec), m)
  {
    hide Shape, Pending, Denotes, Held, Target, MarkedFlash, Moved;
    var g := Move(c, f, a, i, gc, rec);
    MoveShape(c, f, a, i, gc, rec);
    if Target(c, f, a, i, gc, rec).Some? {
      MoveKeeps(c, f, a, i, gc, rec, m, p);
      DenotesPending(g, m);
      HeldSelf(c, g, m, if f[a].recs[i].status == Write then p else None);
    } else {
      MarkedPending(c, f, a, i, m, p);
      HeldSelf(c, g, m, Some((f[a].recs[i].key, f[a].recs[i].value)));
    }
  }

  lemma DroppedIsMoved(c: Config, f: Flash, a: nat, i: nat)
    requires a < |f| && i < |f[a].recs| && Live(f[a].recs[i])
    ensures var f1 := MarkedFlash(f, a, i);
            && |f1| == |f| && i < |f1[a].recs|
            && f1[a := Soil(Restatus(f1[a], i, Deleted))] == Moved(c, f, a, i, None)
  {
    var f1 := MarkedFlash(f, a, i);
    MarkedRecord(f, a, i);
    assert Restatus(f1[a], i, Deleted).recs == Restatus(f[a], i, Deleted).recs;
  }

  /** The pending record was deleted because its name is stored, its sector not yet marked. */
  lemma DroppedHeld(c: Config, f: Flash, a: nat, i: nat, gc: bool, rec: bool, m: map<Key, Value>,
                    p: Option<(Key, Value)>, g: Flash)
    requires Shape(c, g) && a < |f| && i < |f[a].recs| && Live(f[a].recs[i]) && Pending(f, m, p)
    requires Movable(m, p, rec) && (p == None || f[a].recs[i].status == PreDelete)
    requires Target(c, f, a, i, gc, rec) == Some(None)
    requires var f1 := MarkedFlash(f, a, i); |f1| == |f| && i < |f1[a].recs| && g == Restated(f1, a, i, Deleted)
    ensures Held(c, g, m)
  {
    hide Shape, Pending, Total, Denotes, Pick, Held, SameLive;
    var f1 := MarkedFlash(f, a, i);
    MarkedRecord(f, a, i);
    MoveKeeps(c, f, a, i, gc, rec, m, p);
    DenotesPending(Move(c, f, a, i, gc, rec), m);
    SoilSame(f1, a, i, Deleted);
    assert Restatus(f1[a], i, Deleted).recs == Restatus(f[a], i, Deleted).recs;
    assert f1[a := Soil(Restatus(f1[a], i, Deleted))] == Moved(c, f, a, i, None);
    HeldAs(c, g, Moved(c, f, a, i, None), m, if f[a].recs[i].status == Write then p else None);
  }

  // ---------- loading can complete the collection ----------

  lemma SurvivesAt(c: Config, g: Flash, a: nat, i0: nat, e: Option<nat>, empties: nat)
    requires Shape(c, g) && a < |g| && Underway(g, a, g[a]) && i0 <= |g[a].recs| && empties >= 1
    requires Spill(c, g, a, g[a].recs, i0, e, empties) && forall j | 0 <= j < i0 :: Idle(g, a, j, true)
    requires FirstDirty(g, a)
    ensures Survives(c, g)
  {
    hide Shape, Spill, Idle, SectorFits;
    SpillFits(c, g, a, i0, e, empties, true);
  }

  /** The space argument looks at lengths only. */
  lemma SpillSame(c: Config, f: Flash, g: Flash, a: nat, i: nat, recs: seq<Rec>, e: Option<nat>, empties: nat)
    requires i <= |recs| && Spill(c, f, a, recs, i, e, empties) && a < |f| == |g|
    requires forall x | 0 <= x < |f| && x != a :: g[x] == f[x]
    requires g[a].store == f[a].store && |g[a].recs| == |recs|
    requires forall j | 0 <= j < |recs| :: g[a].recs[j].len == recs[j].len
    ensures Spill(c, g, a, g[a].recs, i, e, empties)
  {
    hide Used, Empties;
    UsedSameLens(g[a].recs[..i], recs[..i]);
    EmptiesUpdate(f, a, g[a]);
    assert f[a := g[a]] == g;
  }

  /** A turn of a collection in good order: where its record goes, and how the space argument goes on. */
  lemma TurnTarget(c: Config, h: Flash, a: nat, i: nat, e: Option<nat>, empties: nat) returns (t: nat, e': Option<nat>)
    requires Shape(c, h) && a < |h| && Underway(h, a, h[a]) && i < |h[a].recs| && empties >= 1 && Live(h[a].recs[i])
    requires Spill(c, h, a, h[a].recs, i, e, empties)
    ensures Target(c, h, a, i, true, false) == Some(Some(t)) && t < |h| && t != a && h[t].dirty == Clean
    ensures h[t].store != Full && h[a].recs[i].len < Remain(c, h[t])
    ensures Spill(c, Moved(c, h, a, i, Some(t)), a, h[a].recs, i + 1, e', empties)
  {
    hide Shape, Pick, Empties, Used, SecOk, Moved, Spill, Chosen;
    SecOkAt(c, h, a);
    var s := GcRoom(c, h, a, h[a], i, e, empties);
    var f1 := MarkedFlash(h, a, i);
    NotPicked(c, h, a, i, false);
    PickIsChosen(c, f1, h[a].recs[i].len, true);
    t := Target(c, h, a, i, true, false).value.value;
    RoomFor(c, f1, t, h[a].recs[i].len, true);
    e' := GcMove(c, h, a, h[a], i, e, empties, Some(t));
  }

  /** At every state of such a turn, but for those of the copy being written, loading could go on. */
  lemma TurnSurvives(c: Config, h: Flash, a: nat, i: nat, e: Option<nat>, empties: nat, g: Flash)
    requires ValidConfig(c) && Shape(c, h) && a < |h| && Underway(h, a, h[a]) && i < |h[a].recs| && empties >= 1
    requires Live(h[a].recs[i]) && Spill(c, h, a, h[a].recs, i, e, empties) && FirstDirty(h, a)
    requires (forall j | 0 <= j < i :: !Live(h[a].recs[j])) && |h[a].recs[i].key| < KV_NAME_MAX
    requires MoveState(c, h, a, i, true, false, g)
    ensures Survives(c, g) || Interrupted(c, g)
  {
    hide Shape, Pick, Empties, Used, SecOk, Moved, Spill, Chosen, Survives, KeyStored, StoreAfter, Target, MidAppend;
    var t, e' := TurnTarget(c, h, a, i, e, empties);
    var f1 := MarkedFlash(h, a, i);
    MarkedRecord(h, a, i);
    MarkedSurvives(c, h, a, i, e, empties);
    CopiedIsMoved(c, h, a, i, t);
    if g == f1 || (h[a].recs[i].status == Write && g == Restated(h, a, i, PreDelete)) {
      assert g == f1;
    } else if g == Move(c, h, a, i, true, false) {
      MovedSurvives(c, h, a, i, t, e', empties);
    } else {
      assert CopyState(c, h, a, i, t, g);
      if g == Copied(c, h, a, i, t) {
        CopiedSurvives(c, h, a, i, t, e', empties);
      } else {
        assert CopyCut(c, f1, a, i, t, g);
      }
    }
  }

  lemma MarkedSurvives(c: Config, h: Flash, a: nat, i: nat, e: Option<nat>, empties: nat)
    requires Shape(c, h) && a < |h| && Underway(h, a, h[a]) && i < |h[a].recs| && empties >= 1
    requires Live(h[a].recs[i]) && Spill(c, h, a, h[a].recs, i, e, empties) && FirstDirty(h, a)
    requires forall j | 0 <= j < i :: !Live(h[a].recs[j])
    ensures Survives(c, MarkedFlash(h, a, i))
  {
    hide Shape, Empties, Used, Spill, Survives, KeyStored;
    var f1 := MarkedFlash(h, a, i);
    MarkedOk(c, h, a, i);
    SpillSame(c, h, f1, a, i, h[a].recs, e, empties);
    SurvivesAt(c, f1, a, i, e, empties);
  }

  lemma MovedSurvives(c: Config, h: Flash, a: nat, i: nat, t: nat, e: Option<nat>, empties: nat)
    requires Shape(c, h) && a < |h| && Underway(h, a, h[a]) && i < |h[a].recs| && empties >= 1
    requires Live(h[a].recs[i]) && FirstDirty(h, a) && t < |h| && t != a && h[t].dirty == Clean
    requires forall j | 0 <= j < i :: !Live(h[a].recs[j])
    requires Target(c, h, a, i, true, false) == Some(Some(t))
    requires Spill(c, Moved(c, h, a, i, Some(t)), a, h[a].recs, i + 1, e, empties)
    ensures Survives(c, Moved(c, h, a, i, Some(t)))
  {
    hide Shape, Empties, Used, Spill, Survives, KeyStored, Target, StoreAfter;
    var g := Moved(c, h, a, i, Some(t));
    MoveShape(c, h, a, i, true, false);
    SpillSame(c, g, g, a, i + 1, h[a].recs, e, empties);
    SurvivesAt(c, g, a, i + 1, e, empties);
  }

  lemma CopiedIsMoved(c: Config, f: Flash, a: nat, i: nat, t: nat)
    requires a < |f| && i < |f[a].recs| && Live(f[a].recs[i]) && t < |f| && f[a].dirty == Collecting
    ensures var f2 := Copied(c, f, a, i, t);
            i < |f2[a].recs| && Restated(f2, a, i, Deleted) == Moved(c, f, a, i, Some(t))
  {
    hide Used, StoreAfter;
    var f1 := MarkedFlash(f, a, i);
    var f2 := Copied(c, f, a, i, t);
    MarkedRecord(f, a, i);
    MovedSteps(c, f, f1, f2, f2[a := Soil(Restatus(f2[a], i, Deleted))], a, i, t);
  }

  /** With the copy complete, its original needs no room any more. */
  lemma CopiedSurvives(c: Config, h: Flash, a: nat, i: nat, t: nat, e: Option<nat>, empties: nat)
    requires Shape(c, h) && a < |h| && Underway(h, a, h[a]) && i < |h[a].recs| && empties >= 1
    requires Live(h[a].recs[i]) && FirstDirty(h, a) && t < |h| && t != a && h[t].dirty == Clean
    requires h[t].store != Full && h[a].recs[i].len < Remain(c, h[t])
    requires forall j | 0 <= j < i :: !Live(h[a].recs[j])
    requires Spill(c, Moved(c, h, a, i, Some(t)), a, h[a].recs, i + 1, e, empties) && |h[a].recs[i].key| < KV_NAME_MAX
    ensures Survives(c, Copied(c, h, a, i, t))
  {
    hide Shape, Empties, Used, Spill, Survives, StoreAfter, KeyStored;
    var g := Copied(c, h, a, i, t);
    var f1 := MarkedFlash(h, a, i);
    MarkedOk(c, h, a, i);
    GoodLength(c, h, a, i);
    PositiveLen(c, h, a, i);
    AdmitHere(c, f1, t, h[a].recs[i].(status := Write));
    CopiedIsMoved(c, h, a, i, t);
    SpillSame(c, Moved(c, h, a, i, Some(t)), g, a, i + 1, h[a].recs, e, empties);
    CopyStored(c, h, a, i, t);
    SurvivesAt(c, g, a, i + 1, e, empties);
  }

  lemma CopyStored(c: Config, f: Flash, a: nat, i: nat, t: nat)
    requires a < |f| && i < |f[a].recs| && Live(f[a].recs[i]) && t < |f|
    requires |f[a].recs[i].key| < KV_NAME_MAX
    ensures KeyStored(Copied(c, f, a, i, t), f[a].recs[i].key)
  {
    hide Used, StoreAfter;
    var g := Copied(c, f, a, i, t);
    assert g[t].recs[|g[t].recs| - 1] == f[a].recs[i].(status := Write);
    MatchesName(f[a].recs[i].(status := Write), f[a].recs[i].key);
    assert HasKey(g[t].recs, f[a].recs[i].key);
  }

  // ---------- what is pending ----------

  ghost predicate NonePending(f: Flash) {
    forall s: nat, i: nat :: !PendingAt(f, s, i)
  }

  lemma DenotesNone(f: Flash, m: map<Key, Value>)
    requires Denotes(f, m)
    ensures NonePending(f)
  {
    hide Total;
    forall s: nat, i: nat
      ensures !PendingAt(f, s, i)
    {
      if PendingAt(f, s, i) {
        Present(f, s, i, PreDelete);
      }
    }
  }

  lemma MidAppendPending(c: Config, f: Flash, t: nat, r: Rec, g: Flash, s: nat, i: nat)
    requires MidAppend(c, f, t, r, g) && PendingAt(g, s, i)
    ensures PendingAt(f, s, i) && s < |f| == |g| && g[s].dirty == f[s].dirty
  {
    hide Used, StoreAfter;
    if g == f[t := Opened(c, f[t], r.len)] {
    } else {
      var x: Rec :| Half(c, r, x) && g == f[t := Partial(c, f[t], r, x)];
    }
  }

  lemma AdmitPending(c: Config, f: Flash, t: nat, r: Rec, s: nat, i: nat)
    requires t < |f| && r.status == Write && PendingAt(f[t := Admit(c, f[t], r)], s, i)
    ensures PendingAt(f, s, i) && f[t := Admit(c, f[t], r)][s].dirty == f[s].dirty
  {
    hide Used, StoreAfter;
  }

  /** On the way of a move of a store at rest nothing but the record being moved is pending. */
  lemma TurnPending(c: Config, h: Flash, a: nat, i: nat, t: nat, g: Flash, s: nat, j: nat)
    requires a < |h| && i < |h[a].recs| && Live(h[a].recs[i]) && h[a].dirty == Collecting && t < |h| && t != a
    requires NonePending(h) && Target(c, h, a, i, true, false) == Some(Some(t))
    requires MoveState(c, h, a, i, true, false, g) && PendingAt(g, s, j)
    ensures s == a && |g| == |h| && g[a].dirty == Collecting
  {
    hide Used, StoreAfter, Target, Moved, NonePending, MidAppend;
    var f1 := MarkedFlash(h, a, i);
    var w := h[a].recs[i].(status := Write);
    assert !PendingAt(h, s, j) by {
      assert NonePending(h) ==> !PendingAt(h, s, j) by {
        NoneAt(h, s, j);
      }
    }
    CopiedIsMoved(c, h, a, i, t);
    if g != f1 && !(h[a].recs[i].status == Write && g == Restated(h, a, i, PreDelete)) {
      if MidAppend(c, f1, t, w, g) {
        MidAppendPending(c, f1, t, w, g, s, j);
      } else if g == Copied(c, h, a, i, t) {
        AdmitPending(c, f1, t, w, s, j);
      } else {
        assert g == Restated(Copied(c, h, a, i, t), a, i, Deleted);
        if s != a || j != i {
          assert PendingAt(Copied(c, h, a, i, t), s, j);
          AdmitPending(c, f1, t, w, s, j);
        }
      }
    }
  }

  lemma NoneAt(f: Flash, s: nat, i: nat)
    ensures NonePending(f) ==> !PendingAt(f, s, i)
  {
  }

  lemma TurnPendingDirty(c: Config, h: Flash, a: nat, i: nat, t: nat, g: Flash)
    requires a < |h| && i < |h[a].recs| && Live(h[a].recs[i]) && h[a].dirty == Collecting && t < |h| && t != a
    requires NonePending(h) && Target(c, h, a, i, true, false) == Some(Some(t))
    requires MoveState(c, h, a, i, true, false, g)
    ensures PendingDirty(g)
  {
    hide MoveState, NonePending, PendingAt, Target;
    forall s: nat, j: nat | PendingAt(g, s, j)
      ensures s < |g| && g[s].dirty != Clean
    {
      TurnPending(c, h, a, i, t, g, s, j);
    }
  }

  // ---------- a collection of a store at rest ----------

  lemma RestCut(c: Config, g: Flash, m: map<Key, Value>)
    requires Shape(c, g) && Denotes(g, m) && Empties(g) >= 1
    ensures CutState(c, g, m, m)
  {
    hide Shape, Total, Denotes, Empties;
    DenotesPending(g, m);
    HeldSelf(c, g, m, None);
    DenotesNone(g, m);
  }

  lemma BegunCut(c: Config, f: Flash, a: nat, m: map<Key, Value>)
    requires Shape(c, f) && Denotes(f, m) && Empties(f) >= 1 && a < |f| && f[a].dirty != Clean
    ensures Shape(c, Begun(f, a)) && Denotes(Begun(f, a), m) && Empties(Begun(f, a)) == Empties(f)
    ensures Underway(Begun(f, a), a, f[a]) && Spill(c, Begun(f, a), a, f[a].recs, 0, None, Empties(f))
  {
    hide Shape, Total, Empties;
    BegunShape(c, f, a);
    BegunSame(f, a);
  }

  /** A turn of a collection of a store at rest. */
  lemma TurnCut(c: Config, f: Flash, a: nat, i: nat, m: map<Key, Value>, g: Flash)
    requires ValidConfig(c) && Shape(c, f) && Denotes(f, m) && Empties(f) >= 1 && FirstDirty(f, a)
    requires i < |f[a].recs| && TurnState(c, Begun(f, a), a, i, false, g) && ShortNames(m)
    ensures CutState(c, g, m, m)
  {
    hide Shape, Total, Denotes, Empties, MoveState, Spill, Survives, Interrupted, After, Fresh, Held, Pending,
      FirstMark,
      Placed, Step;
    var b := Begun(f, a);
    BegunCut(c, f, a, m);
    var e := SpillAfter(c, b, a, 0, None, Empties(f), i, false);
    AfterShape(c, b, a, i, false);
    AfterGrows(c, b, a, i, false);
    ReserveFits(c, f, a, false);
    DenotesPending(b, m);
    var q := AfterKeeps(c, b, a, i, false, m, None);
    var h := After(c, b, a, i, false);
    MoveStateHeld(c, h, a, i, true, false, m, None, g);
    DenotesPending(h, m);
    DenotesNone(h, m);
    DeadBefore(h, a, i);
    NameKnown(h, m, None, a, i);
    assert FirstDirty(h, a);
    SpillSame(c, h, h, a, i, f[a].recs, e, Empties(f));
    TurnSurvives(c, h, a, i, e, Empties(f), g);
    var t, e' := TurnTarget(c, h, a, i, e, Empties(f));
    TurnPendingDirty(c, h, a, i, t, g);
  }

  lemma DeadBefore(f: Flash, a: nat, i: nat)
    requires a < |f| && i <= |f[a].recs| && NonePending(f)
    requires forall j | 0 <= j < i :: !(f[a].recs[j].good && f[a].recs[j].status == Write)
    ensures forall j | 0 <= j < i :: !Live(f[a].recs[j])
  {
    forall j | 0 <= j < i
      ensures !Live(f[a].recs[j])
    {
      assert !PendingAt(f, a, j);
    }
  }

  lemma SectorCut(c: Config, f: Flash, a: nat, m: map<Key, Value>, g: Flash)
    requires ValidConfig(c) && Shape(c, f) && Denotes(f, m) && Empties(f) >= 1 && FirstDirty(f, a)
    requires SectorState(c, f, a, false, g) && ShortNames(m)
    ensures CutState(c, g, m, m)
  {
    hide Shape, Total, Denotes, Empties, TurnState, CutState, CollectSector, Pending;
    if g == Begun(f, a) {
      BegunCut(c, f, a, m);
      RestCut(c, g, m);
    } else if g == CollectSector(c, f, a, false) {
      ReserveFits(c, f, a, false);
      SectorShape(c, f, a, false);
      DenotesPending(f, m);
      var q := SectorKeeps(c, f, a, false, m, None);
      DenotesPending(g, m);
      RestCut(c, g, m);
    } else {
      var i: nat :| i < |Begun(f, a)[a].recs| && TurnState(c, Begun(f, a), a, i, false, g);
      TurnCut(c, f, a, i, m, g);
    }
  }

  /**
   A collection of a store at rest, cut anywhere: the map is still held, what is pending is in a
   marked sector, and loading can complete the collection unless the cut fell into the writing of a
   copy.
   */
  lemma GcCut(c: Config, f: Flash, m: map<Key, Value>, g: Flash)
    requires ValidConfig(c) && Shape(c, f) && Denotes(f, m) && Empties(f) >= 1 && GcState(c, f, false, g)
    requires ShortNames(m)
    ensures CutState(c, g, m, m)
  {
    hide Shape, Total, Denotes, Empties, SectorState, CutState, UpTo, Pending, PendingDirt;
    var s: nat :| s < |f| && SectorState(c, UpTo(c, f, s, false), s, false, g);
    UpToReserve(c, f, s, false);
    UpToSweeps(c, f, s, false);
    DenotesPending(f, m);
    var q := UpToKeeps(c, f, s, false, m, None);
    var h := UpTo(c, f, s, false);
    DenotesPending(h, m);
    assert FirstDirty(h, s) by {
      SectorDirty(c, h, s, g);
    }
    SectorCut(c, h, s, m, g);
  }

  lemma SectorDirty(c: Config, f: Flash, a: nat, g: Flash)
    requires a < |f| && SectorState(c, f, a, false, g)
    ensures f[a].dirty != Clean
  {
  }

  // ---------- a collection with nothing pending, at rest or during recovery ----------

  lemma SectorHeld(c: Config, f: Flash, a: nat, rec: bool, m: map<Key, Value>, g: Flash)
    requires ValidConfig(c) && Shape(c, f) && Denotes(f, m) && a < |f| && SectorFits(c, f, a, rec)
    requires SectorState(c, f, a, rec, g) && Movable(m, None, rec)
    ensures Held(c, g, m)
  {
    hide Shape, Total, Denotes, Empties, CollectSector, Pending, SectorFits, MoveState, Held, After, Placed;
    var b := Begun(f, a);
    DenotesPending(f, m);
    BegunShape(c, f, a);
    BegunSame(f, a);
    SamePending(b, f, m, None);
    if g == b {
      HeldSelf(c, g, m, None);
    } else if g == CollectSector(c, f, a, rec) {
      SectorShape(c, f, a, rec);
      var q := SectorKeeps(c, f, a, rec, m, None);
      HeldSelf(c, g, m, q);
    } else {
      var i: nat :| i < |b[a].recs| && TurnState(c, b, a, i, rec, g);
      AfterShape(c, b, a, i, rec);
      FitsBefore(c, f, a, i, rec);
      var q := AfterKeeps(c, b, a, i, rec, m, None);
      MoveStateHeld(c, After(c, b, a, i, rec), a, i, true, rec, m, None, g);
    }
  }

  lemma FitsBefore(c: Config, f: Flash, a: nat, i: nat, rec: bool)
    requires a < |f| && f[a].dirty != Clean && SectorFits(c, f, a, rec) && i <= |f[a].recs|
    ensures forall j | 0 <= j < i :: Placed(c, After(c, Begun(f, a), a, j, rec), a, j, rec)
  {
    hide Placed, After;
    assert |Begun(f, a)[a].recs| == |f[a].recs|;
  }

  lemma FitsAt(c: Config, f: Flash, a: nat, i: nat, rec: bool)
    requires a < |f| && f[a].dirty != Clean && SectorFits(c, f, a, rec) && i < |f[a].recs|
    ensures Placed(c, After(c, Begun(f, a), a, i, rec), a, i, rec)
  {
    hide Placed, After;
    assert i < |Begun(f, a)[a].recs|;
  }

  /** A collection with room for all its records, with nothing pending before it: whenever it is cut
      the map is held. */
  lemma GcHeld(c: Config, f: Flash, rec: bool, m: map<Key, Value>, g: Flash)
    requires ValidConfig(c) && Shape(c, f) && Denotes(f, m) && Fitting(c, f, rec) && GcState(c, f, rec, g)
    requires Movable(m, None, rec)
    ensures Held(c, g, m)
  {
    hide Shape, Total, Denotes, Empties, SectorState, UpTo, Pending, PendingDirt, SectorFits, Fitting, Held;
    var s: nat :| s < |f| && SectorState(c, UpTo(c, f, s, rec), s, rec, g);
    UpToReserve(c, f, s, rec);
    UpToFits(c, f, s, rec);
    DenotesPending(f, m);
    var q := UpToKeeps(c, f, s, rec, m, None);
    DenotesPending(UpTo(c, f, s, rec), m);
    SectorHeld(c, UpTo(c, f, s, rec), s, rec, m, g);
  }
}
