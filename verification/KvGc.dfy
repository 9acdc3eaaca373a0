/**
 Why garbage collection never runs out of room: the live records of a sector, moved in order,
 need at most one EMPTY sector, because the allocator and the FULL threshold once placed the same
 records, and more, in the same order in the sector being collected.
 */
module KvGc {
  import opened Basics
  import opened KvFlash
  import opened KvSteps

  /** alloc_kv_cb: the sector has more room than asked for, and it is clean or no GC is requested. */
  predicate HasRoom(c: Config, sec: Sector, size: nat, gc: bool) {
    Remain(c, sec) > size && (sec.dirty == Clean || (sec.dirty == Soiled && !gc))
  }

  const GC_EMPTY_THRESHOLD := 1  // FDB_GC_EMPTY_SEC_THRESHOLD

  /** The allocator may give out sector s for `size` bytes. */
  ghost predicate Allocatable(c: Config, f: Flash, s: nat, size: nat, gc: bool) {
    s < |f| && HasRoom(c, f[s], size, gc) &&
    (f[s].store == Using || (f[s].store == Empty && (gc || Empties(f) > GC_EMPTY_THRESHOLD)))
  }

  ghost predicate NoAllocation(c: Config, f: Flash, size: nat, gc: bool) {
    forall s: nat :: !Allocatable(c, f, s, size, gc)
  }

  /** The choice alloc_kv makes: an EMPTY sector only when no sector in use has room. */
  ghost predicate Chosen(c: Config, f: Flash, t: nat, size: nat, gc: bool) {
    Allocatable(c, f, t, size, gc) &&
    (f[t].store == Empty ==>
       forall s | 0 <= s < |f| && f[s].store == Using :: !HasRoom(c, f[s], size, gc))
  }

  lemma ChosenRoom(c: Config, f: Flash, t: nat, size: nat, gc: bool)
    requires Chosen(c, f, t, size, gc)
    ensures t < |f| && HasRoom(c, f[t], size, gc) && f[t].store != Full
    ensures !gc && f[t].store == Empty ==> Empties(f) > GC_EMPTY_THRESHOLD
  {
  }

  // ---------- the allocator as a function ----------

  /** The first sector from i on that has the given store status and room. */
  function FirstRoom(c: Config, f: Flash, store: Store, size: nat, gc: bool, i: nat): (r: Option<nat>)
    requires i <= |f|
    ensures r.Some? ==> i <= r.value < |f| && f[r.value].store == store && HasRoom(c, f[r.value], size, gc)
    ensures r.None? ==> forall s | i <= s < |f| && f[s].store == store :: !HasRoom(c, f[s], size, gc)
    decreases |f| - i
  {
    if i == |f| then None
    else if f[i].store == store && HasRoom(c, f[i], size, gc) then Some(i)
    else FirstRoom(c, f, store, size, gc, i + 1)
  }

  /** alloc_kv: the first sector in use with room, else the first EMPTY one if it may be spent. */
  function Pick(c: Config, f: Flash, size: nat, gc: bool): Option<nat> {
    var u := FirstRoom(c, f, Using, size, gc, 0);
    if u.Some? then u
    else if Empties(f) > GC_EMPTY_THRESHOLD || (gc && Empties(f) > 0) then FirstRoom(c, f, Empty, size, gc, 0)
    else None
  }

  lemma PickIsChosen(c: Config, f: Flash, size: nat, gc: bool)
    ensures Pick(c, f, size, gc).Some? ==> Chosen(c, f, Pick(c, f, size, gc).value, size, gc)
    ensures Pick(c, f, size, gc).None? <==> NoAllocation(c, f, size, gc)
  {
    hide Used, HasRoom, Empties;
    var p := Pick(c, f, size, gc);
    if p.Some? {
      assert Allocatable(c, f, p.value, size, gc);
    } else {
      forall s: nat
        ensures !Allocatable(c, f, s, size, gc)
      {
        if s < |f| && f[s].store == Empty {
          NoEmpty(f, s);
        }
      }
    }
  }

  /** It is the lowest-numbered of them. */
  lemma PickIsFirst(c: Config, f: Flash, size: nat, gc: bool, t: nat)
    ensures Pick(c, f, size, gc) == Some(t) <==>
              Chosen(c, f, t, size, gc) &&
              forall s | 0 <= s < t && f[s].store == f[t].store :: !HasRoom(c, f[s], size, gc)
  {
    hide Used, HasRoom, Empties;
    PickIsChosen(c, f, size, gc);
    RoomIsFirst(c, f, Using, size, gc, 0);
    RoomIsFirst(c, f, Empty, size, gc, 0);
  }

  lemma {:induction false} RoomIsFirst(c: Config, f: Flash, store: Store, size: nat, gc: bool, i: nat)
    requires i <= |f|
    ensures var r := FirstRoom(c, f, store, size, gc, i);
            r.Some? ==> forall s | i <= s < r.value && f[s].store == store :: !HasRoom(c, f[s], size, gc)
    decreases |f| - i
  {
    hide HasRoom;
    if i < |f| {
      RoomIsFirst(c, f, store, size, gc, i + 1);
    }
  }

  predicate Live(r: Rec) { r.good && (r.status == Write || r.status == PreDelete) }

  /** The flash once the record to be moved is marked PRE_DELETE. */
  function MarkedFlash(f: Flash, a: nat, i: nat): Flash
    requires a < |f| && i < |f[a].recs|
  {
    if f[a].recs[i].status == Write then f[a := Soil(Restatus(f[a], i, PreDelete))] else f
  }

  /** The flash after record i of sector a went to sector t, or was only deleted. */
  function Moved(c: Config, f: Flash, a: nat, i: nat, t: Option<nat>): Flash
    requires a < |f| && i < |f[a].recs|
  {
    var g := f[a := Retire(f[a], i)];
    if t.None? || t.value >= |g| then g
    else g[t.value := Admit(c, g[t.value], f[a].recs[i].(status := Write))]
  }

  /**
   While sector a, which held recs0, is collected and its first i records are dealt with: no EMPTY
   sector was taken yet, or exactly one, e, was; e then holds no more bytes than those i records
   took, and it can only be full when nothing is left to move.
   */
  ghost predicate Spill(c: Config, f: Flash, a: nat, recs0: seq<Rec>, i: nat, e: Option<nat>, empties: nat)
    requires i <= |recs0|
  {
    match e
    case None => Empties(f) == empties
    case Some(x) =>
      && x < |f| && x != a && Empties(f) + 1 == empties
      && f[x].dirty == Clean && f[x].recs != []
      && (f[x].store == Using || (f[x].store == Full && i == |recs0|))
      && Used(f[x].recs) <= Used(recs0[..i])
  }

  /** The next live record always finds a sector. */
  lemma SpillRoom(c: Config, f: Flash, a: nat, sec0: Sector, i: nat, e: Option<nat>, empties: nat, len: nat)
    returns (s: nat)
    requires Shape(c, f) && SecOk(c, sec0) && i < |sec0.recs| && Spill(c, f, a, sec0.recs, i, e, empties)
    requires len == sec0.recs[i].len && empties >= 1 && a < |f| && f[a].store != Empty
    ensures s != a && Allocatable(c, f, s, len, true)
    ensures e.Some? ==> f[s].store == Using
  {
    if e.Some? {
      s := e.value;
    } else {
      s := SomeEmpty(f);
      assert SecOk(c, f[s]);
    }
  }

  /** Passing over a record, or placing it in a sector that was in use already, changes nothing
      about the spill sector except how much may be in it. */
  lemma SpillSkip(c: Config, f: Flash, g: Flash, a: nat, sec0: Sector, i: nat, e: Option<nat>, empties: nat)
    requires i < |sec0.recs| && Spill(c, f, a, sec0.recs, i, e, empties)
    requires |g| == |f| && Empties(g) == Empties(f) && (e.Some? ==> g[e.value] == f[e.value])
    ensures Spill(c, g, a, sec0.recs, i + 1, e, empties)
  {
    UsedPrefix(sec0.recs, i);
  }

  lemma PositiveUsed(c: Config, sec: Sector, i: nat)
    requires SecOk(c, sec) && i < |sec.recs|
    ensures Used(sec.recs[..i]) < Used(sec.recs[..i + 1]) <= Used(sec.recs)
  {
    UsedPrefix(sec.recs, i);
  }

  /** The next record goes to sector t; g is the flash with t admitting it and sector a, still not
      EMPTY, otherwise changed. */
  lemma SpillStep(c: Config, f: Flash, g: Flash, a: nat, sec0: Sector, i: nat, e: Option<nat>, empties: nat,
                  t: nat, r: Rec)
    returns (e': Option<nat>)
    requires Shape(c, f) && SecOk(c, sec0) && i < |sec0.recs| && Spill(c, f, a, sec0.recs, i, e, empties)
    requires r.len == sec0.recs[i].len && empties >= 1
    requires a < |f| && t < |f| && t != a && f[a].store != Empty && Chosen(c, f, t, r.len, true)
    requires |g| == |f| && g[t] == Admit(c, f[t], r) && g[a].store == f[a].store
    requires forall s | 0 <= s < |f| && s != a && s != t :: g[s] == f[s]
    ensures Spill(c, g, a, sec0.recs, i + 1, e', empties)
  {
    hide SecOk;
    UsedAppend(f[t].recs, r);
    UsedPrefix(sec0.recs, i);
    EmptiesUpdate(f, a, g[a]);
    var h := f[a := g[a]];
    EmptiesUpdate(h, t, g[t]);
    assert g == h[t := g[t]];
    if f[t].store == Empty {
      assert e.None? by {
        if e.Some? {
          var s := SpillRoom(c, f, a, sec0, i, e, empties, r.len);
        }
      }
      e' := Some(t);
      assert f[t].recs == [] by {
        EmptySector(c, f, t);
      }
    } else {
      e' := e;
      if e == Some(t) {
        FullIsLast(c, f[t], sec0, i, r);
      }
    }
  }

  /** If the spill sector becomes full with this record, the collected sector had become full with
      it too, so it was that sector's last record. */
  lemma FullIsLast(c: Config, spill: Sector, sec0: Sector, i: nat, r: Rec)
    requires SecOk(c, spill) && SecOk(c, sec0) && i < |sec0.recs| && r.len == sec0.recs[i].len
    requires spill.store == Using && spill.recs != [] && Used(spill.recs) <= Used(sec0.recs[..i])
    ensures StoreAfter(c, spill, r.len) == Using || i + 1 == |sec0.recs|
  {
    UsedPrefix(sec0.recs, i);
    PositiveUsed(c, spill, 0);
    assert i >= 1;
    if i + 1 < |sec0.recs| {
      assert Threshold(c) <= c.usable - Used(sec0.recs[..i + 1]);
    }
  }

  /** Sector a is being collected; its lengths are those of sec0. */
  ghost predicate Underway(f: Flash, a: nat, sec0: Sector) {
    && a < |f| && f[a].dirty == Collecting && f[a].store != Empty && |f[a].recs| == |sec0.recs|
    && forall j | 0 <= j < |sec0.recs| :: f[a].recs[j].len == sec0.recs[j].len
  }

  lemma MarkedOk(c: Config, f: Flash, a: nat, i: nat)
    requires Shape(c, f) && a < |f| && i < |f[a].recs|
    ensures Shape(c, MarkedFlash(f, a, i)) && Empties(MarkedFlash(f, a, i)) == Empties(f)
  {
    hide Used;
    if f[a].recs[i].status == Write {
      RestatusOk(c, f[a], i, PreDelete);
      ShapeUpdate(c, f, a, Soil(Restatus(f[a], i, PreDelete)));
      EmptiesUpdate(f, a, Soil(Restatus(f[a], i, PreDelete)));
    }
  }

  /** Collecting a sector, every live record finds room. */
  lemma GcRoom(c: Config, f: Flash, a: nat, sec0: Sector, i: nat, e: Option<nat>, empties: nat) returns (s: nat)
    requires Shape(c, f) && SecOk(c, sec0) && i < |sec0.recs| && Spill(c, f, a, sec0.recs, i, e, empties)
    requires Underway(f, a, sec0) && empties >= 1
    ensures Allocatable(c, MarkedFlash(f, a, i), s, sec0.recs[i].len, true)
  {
    hide SecOk, Used;
    s := SpillRoom(c, f, a, sec0, i, e, empties, sec0.recs[i].len);
    MarkedOk(c, f, a, i);
  }

  lemma GcMove(c: Config, f: Flash, a: nat, sec0: Sector, i: nat, e: Option<nat>, empties: nat, t: Option<nat>)
    returns (e': Option<nat>)
    requires Shape(c, f) && SecOk(c, sec0) && i < |sec0.recs| && Spill(c, f, a, sec0.recs, i, e, empties)
    requires Underway(f, a, sec0) && empties >= 1
    requires t.Some? ==> Chosen(c, MarkedFlash(f, a, i), t.value, sec0.recs[i].len, true)
    ensures var g := Moved(c, f, a, i, t);
            && |g| == |f| && Spill(c, g, a, sec0.recs, i + 1, e', empties) && Underway(g, a, sec0)
            && forall s | 0 <= s < |f| && s != a :: g[s].dirty == f[s].dirty
  {
    hide SecOk, Used;
    MarkedOk(c, f, a, i);
    var f' := MarkedFlash(f, a, i);
    var g := Moved(c, f, a, i, t);
    if t.Some? {
      e' := SpillStep(c, f', g, a, sec0, i, e, empties, t.value, f[a].recs[i].(status := Write));
    } else {
      EmptiesUpdate(f, a, Retire(f[a], i));
      SpillSkip(c, f, g, a, sec0, i, e, empties);
      e' := e;
    }
  }
}
