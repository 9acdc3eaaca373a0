/** FlashDB's key-value database: the flash, the caches and the operations of fdb_kvdb.c. */
module KvDb {
  import opened Basics
  import opened KvFlash
  import opened KvSteps
  import opened KvCache
  import opened KvGc
  import opened KvCollect
  import opened KvKeeps
  import opened KvCuts
  import opened KvStates
  import opened KvCapacity

  /** The name under which del_kv looks for the cache slot. */
  function SlotName(key: Option<Key>, r: Rec): Key {
    if key.Some? then key.value else NameBytes(r.key)
  }

  /** FDB_NO_ERR, FDB_SAVED_FULL and FDB_KV_NAME_ERR. */
  datatype Code = NoErr | SavedFull | NameErr

  class Database {
    const cfg: Config
    const crc: Key -> nat
    var flash: Flash
    var gcRequest: bool
    var inRecovery: bool
    var lastDel: bool
    var cache: seq<Node>
    /** Every state the flash went through, one per flash operation. */
    var trace: seq<Flash>

    ghost predicate Base()
      reads this
    {
      ValidConfig(cfg) && Shape(cfg, flash) && FirstLive(cache)
    }

    /** One flash operation: it changes one sector and leaves a new entry in the history. */
    method Program(s: nat, sec: Sector)
      requires s < |flash|
      modifies this`flash, this`trace
      ensures flash == old(flash)[s := sec] && trace == old(trace) + [flash]
    {
      flash := flash[s := sec];
      trace := trace + [flash];
    }

    /** update_sec_status: EMPTY becomes USING; USING becomes FULL when too little would remain.
        A sector in use is read from its first slot on, so that slot reads as a torn record. */
    method UpdateSecStatus(s: nat, len: nat) returns (full: bool)
      requires s < |flash|
      modifies this`flash, this`trace
      ensures var sec := old(flash)[s];
              flash == old(flash)[s := Opened(cfg, sec, len)]
      ensures trace == if flash == old(flash) then old(trace) else old(trace) + [flash]
      ensures full <==> old(flash)[s].store == Using && flash[s].store == Full
    {
      var sec := flash[s];
      full := false;
      if sec.store == Empty {
        Program(s, Sector(Using, sec.dirty, [Torn(cfg.hdr)]));
        assert flash[s] != sec;
      } else if sec.store == Using {
        if Remain(cfg, sec) < Threshold(cfg) || Remain(cfg, sec) - len < Threshold(cfg) {
          Program(s, sec.(store := Full));
          full := true;
          assert flash[s] != sec;
        }
      }
    }

    /** Rewrites the slot of the record being written, from y to x. */
    method WriteSlot(s: nat, x: Rec, ghost f0: Flash, ghost r: Rec, ghost y: Rec)
      requires s < |f0| && flash == f0[s := Partial(cfg, f0[s], r, y)]
      modifies this`flash, this`trace
      ensures flash == f0[s := Partial(cfg, f0[s], r, x)] && trace == old(trace) + [flash]
    {
      hide StoreAfter;
      var recs := flash[s].recs;
      Program(s, flash[s].(recs := recs[|recs| - 1 := x]));
      assert flash[s].recs == f0[s].recs + [x];
    }

    /**
     The flash writes by which create_kv_blob and move_kv add a record: the sector's status, the
     record's PRE_WRITE status, its header, its name and value, and last its WRITE status.
     */
    method AppendRecord(s: nat, r: Rec) returns (full: bool)
      requires ValidConfig(cfg) && Shape(cfg, flash) && s < |flash| && flash[s].store != Full
      requires cfg.hdr <= r.len < Remain(cfg, flash[s]) && r.good && r.status == Write
      modifies this`flash, this`trace
      ensures flash == old(flash)[s := Admit(cfg, old(flash)[s], r)] && Shape(cfg, flash)
      ensures full <==> old(flash)[s].store == Using && flash[s].store == Full
      ensures Appending(cfg, old(flash), s, r, old(trace), trace)
    {
      hide Used, Shape, StoreAfter, Appending, MidAppend;
      ghost var f0, t0 := flash, trace;
      var first := flash[s].store == Empty;
      EmptySector(cfg, f0, s);
      AdmitHere(cfg, f0, s, r);
      AppendingStart(cfg, f0, s, r, t0);
      full := UpdateSecStatus(s, r.len);
      if flash != f0 {
        OpenedMid(cfg, f0, s, r);
        AppendingStep(cfg, f0, s, r, t0, t0, flash);
      }
      ghost var t1 := trace;
      var slot := Torn(if first then cfg.hdr else cfg.unit);
      if first {
        assert flash[s].recs == f0[s].recs + [slot];
        WriteSlot(s, slot, f0, r, slot);
      } else {
        Program(s, flash[s].(recs := flash[s].recs + [slot]));
        assert flash == f0[s := Partial(cfg, f0[s], r, slot)];
      }
      PartialMid(cfg, f0, s, r, slot);
      AppendingStep(cfg, f0, s, r, t0, t1, flash);
      ghost var t2 := trace;
      var begun := r.(status := PreWrite, good := false);
      WriteSlot(s, begun, f0, r, slot);
      PartialMid(cfg, f0, s, r, begun);
      AppendingStep(cfg, f0, s, r, t0, t2, flash);
      ghost var t3 := trace;
      WriteSlot(s, r.(status := PreWrite), f0, r, begun);
      PartialMid(cfg, f0, s, r, r.(status := PreWrite));
      AppendingStep(cfg, f0, s, r, t0, t3, flash);
      ghost var t4 := trace;
      WriteSlot(s, r, f0, r, r.(status := PreWrite));
      AppendingStep(cfg, f0, s, r, t0, t4, flash);
    }

    /** alloc_kv: sectors in use first, then an EMPTY one unless it is the last; otherwise a GC is
        requested. */
    method AllocKv(size: nat) returns (r: Option<nat>)
      modifies this`gcRequest
      ensures r == Pick(cfg, flash, size, old(gcRequest))
      ensures gcRequest == (old(gcRequest) || (r.None? && Empties(flash) == GC_EMPTY_THRESHOLD))
    {
      hide Empties, HasRoom;
      var empty := CountEmpty();
      r := SearchRoom(Using, size);
      if empty > 0 && r.None? {
        if empty > GC_EMPTY_THRESHOLD || gcRequest {
          r := SearchRoom(Empty, size);
        } else {
          gcRequest := true;
        }
      }
    }

    /** sector_iterator with alloc_kv_cb: the first sector of that store status with room. */
    method SearchRoom(store: Store, size: nat) returns (r: Option<nat>)
      ensures r == FirstRoom(cfg, flash, store, size, gcRequest, 0)
    {
      hide HasRoom;
      var i := 0;
      while i < |flash|
        invariant i <= |flash|
        invariant FirstRoom(cfg, flash, store, size, gcRequest, 0) == FirstRoom(cfg, flash, store, size, gcRequest, i)
      {
        if flash[i].store == store && HasRoom(cfg, flash[i], size, gcRequest) {
          return Some(i);
        }
        i := i + 1;
      }
      r := None;
    }

    /** find_kv_no_cache: the first CRC-good WRITE record with this name, as read_kv reads it.  A name
        that fills the buffer is never found. */
    method FindNoCache(key: Key) returns (found: bool, a: Addr)
      ensures found ==> IsWrite(flash, a) && flash[a.sec].recs[a.rec].key == key
      ensures found <==> KeyStored(flash, key)
      ensures found <==>
                |key| < KV_NAME_MAX && exists b: Addr :: IsWrite(flash, b) && flash[b.sec].recs[b.rec].key == key
    {
      hide KeyStored;
      StoredIff(flash, key);
      NotStored(flash, key);
      a := Addr(0, 0);
      var s := 0;
      while s < |flash|
        invariant s <= |flash| && forall s' | 0 <= s' < s :: !HasKey(flash[s'].recs, key)
      {
        var i := 0;
        while i < |flash[s].recs|
          invariant i <= |flash[s].recs|
          invariant forall i' | 0 <= i' < i :: !Matches(flash[s].recs[i'], key)
        {
          if Matches(flash[s].recs[i], key) {
            MatchesName(flash[s].recs[i], key);
            assert HasKey(flash[s].recs, key);
            return true, Addr(s, i);
          }
          i := i + 1;
        }
        s := s + 1;
      }
      found := false;
    }

    /** No other stored key shares the CRC of this one. */
    ghost predicate CrcApart(m: map<Key, Value>, key: Key) {
      forall k | k in m && crc(k) == crc(key) :: k == key
    }

    /** find_kv: through the cache, else by a scan that refreshes the cache; either way it finds
        the map's entry, or finds out that there is none. */
    method Find(key: Key, ghost m: map<Key, Value>) returns (found: bool, a: Addr)
      requires Base() && Sound(cache, flash, crc) && Denotes(flash, m) && ShortNames(m) && CrcApart(m, key)
      modifies this`cache
      ensures Base() && Sound(cache, flash, crc)
      ensures found <==> key in m
      ensures found ==> IsWrite(flash, a) && flash[a.sec].recs[a.rec].key == key
                        && flash[a.sec].recs[a.rec].value == m[key]
    {
      hide Total, Pairs, SecOk, Used, KeyStored;
      found, a, cache := Lookup(cfg, cache, flash, crc, key);
      if found {
        Present(flash, a.sec, a.rec, Write);
        DenotedEntry(m, flash[a.sec].recs[a.rec].key, flash[a.sec].recs[a.rec].value);
        return;
      }
      found, a := FindNoCache(key);
      if found {
        Present(flash, a.sec, a.rec, Write);
        DenotedEntry(m, key, flash[a.sec].recs[a.rec].value);
        ghost var before := cache;
        cache := Update(cache, crc(key), Some(a));
        SoundUpdated(before, cache, flash, flash, crc, key, Some(a));
      } else {
        if key in m {
          NotStoredMeans(flash, key);
          ItemsRemove(m, key);
          assert false;
        }
      }
    }

    /** del_kv for a known record: its status, then, unless a PRE_DELETE came before, the cache,
        then the dirty status of its sector.  move_kv gives no key; then the slot of the name read is
        cleared. */
    method DelKv(key: Option<Key>, a: Addr, complete: bool)
      requires Base() && a.sec < |flash| && a.rec < |flash[a.sec].recs|
      modifies this`flash, this`trace, this`cache, this`lastDel
      ensures Base()
      ensures var st := if complete then Deleted else PreDelete;
              && flash == old(flash)[a.sec := Soil(Restatus(old(flash)[a.sec], a.rec, st))]
              && trace == old(trace) + [Restated(old(flash), a.sec, a.rec, st)]
                          + if old(flash)[a.sec].dirty == Clean then [flash] else []
      ensures lastDel == !complete
      ensures !complete || old(lastDel) ==> cache == old(cache)
      ensures |cache| == |old(cache)| && (complete && !old(lastDel) ==>
                forall j | 0 <= j < |cache| ::
                  SlotAfter(old(cache)[j], cache[j], crc(SlotName(key, old(flash)[a.sec].recs[a.rec])), None))
    {
      hide Shape, Restatus;
      var sec := flash[a.sec];
      ghost var f0, st := flash, if complete then Deleted else PreDelete;
      RestatedShape(cfg, flash, a.sec, a.rec, st);
      SoiledShape(cfg, flash, a.sec, a.rec, st);
      if !complete {
        Program(a.sec, Restatus(sec, a.rec, PreDelete));
        lastDel := true;
      } else {
        Program(a.sec, Restatus(sec, a.rec, Deleted));
        if !lastDel {
          cache := Update(cache, crc(SlotName(key, sec.recs[a.rec])), None);
        }
        lastDel := false;
      }
      RestatusDirty(sec, a.rec, st);
      if flash[a.sec].dirty == Clean {
        Program(a.sec, flash[a.sec].(dirty := Soiled));
        assert flash == f0[a.sec := Soil(Restatus(sec, a.rec, st))];
      }
    }

    /** The copy half of move_kv: the record appears as WRITE in sector t and in the cache, and
        the old one is DELETED. */
    method CopyAndDelete(a: nat, i: nat, t: nat, ghost f0: Flash, ghost c0: seq<Node>)
      requires Base() && a < |flash| && i < |flash[a].recs| && t < |flash|
      requires flash[a].recs[i].good && flash[a].recs[i].status == PreDelete
      requires flash[a].recs[i].len < Remain(cfg, flash[t]) && flash[t].store != Full
      requires a < |f0| && i < |f0[a].recs| && Live(f0[a].recs[i]) && cache == c0
      requires flash == MarkedFlash(f0, a, i)
      modifies this`flash, this`trace, this`cache, this`lastDel
      ensures Base() && flash == Moved(cfg, f0, a, i, Some(t)) && !lastDel
      ensures Sound(c0, f0, crc) && |f0[a].recs[i].key| < KV_NAME_MAX ==> Sound(cache, flash, crc)
      ensures old(trace) <= trace
      ensures forall j | |old(trace)| <= j < |trace| ::
                trace[j] == flash || CopyState(cfg, f0, a, i, t, trace[j])
    {
      hide Used, SecOk, StoreAfter, MidAppend, Sound;
      ghost var f1, tr0 := flash, trace;
      var r := flash[a].recs[i];
      assert cfg.hdr <= r.len by {
        GoodLength(cfg, flash, a, i);
      }
      MarkedRecord(f0, a, i);
      assert r.(status := Write) == f0[a].recs[i].(status := Write);
      var full := AppendRecord(t, r.(status := Write));
      ghost var f2, tr1 := flash, trace;
      assert f2 == Copied(cfg, f0, a, i, t);
      var dest := Addr(t, |flash[t].recs| - 1);
      cache := Update(cache, crc(NameBytes(r.key)), Some(dest));
      ghost var c1 := cache;
      DelKv(None, Addr(a, i), true);
      MovedSteps(cfg, f0, f1, f2, flash, a, i, t);
      MovedWrites(cfg, f0, a, i, t);
      assert forall j | |tr0| <= j < |tr1| :: trace[j] == tr1[j];
      if Sound(c0, f0, crc) && |r.key| < KV_NAME_MAX {
        assert NameBytes(r.key) == r.key && SlotName(None, f2[a].recs[i]) == r.key;
        MovedSound(c0, c1, f0, flash, a, i, t, crc, dest);
        if cache != c1 {
          SoundUpdated(c1, cache, flash, flash, crc, r.key, None);
        }
      }
    }

    /** The end of move_kv for a record whose name is stored: it is only deleted. */
    method Drop(a: nat, i: nat, ghost f0: Flash, ghost c0: seq<Node>)
      requires Base() && a < |f0| && i < |f0[a].recs| && Live(f0[a].recs[i]) && cache == c0
      requires flash == MarkedFlash(f0, a, i) && KeyStored(flash, NameRead(f0[a].recs[i].key))
      modifies this`flash, this`trace, this`cache, this`lastDel
      ensures Base() && flash == Moved(cfg, f0, a, i, None) && !lastDel
      ensures Sound(c0, f0, crc) && Consistent(f0, inRecovery) ==> Sound(cache, flash, crc)
      ensures old(trace) <= trace
      ensures forall j | |old(trace)| <= j < |trace| ::
                trace[j] == flash || trace[j] == Restated(old(flash), a, i, Deleted)
    {
      hide Used, SecOk, Moved, KeyStored, Sound, Consistent, MarkedFlash, Shape;
      ghost var f1 := flash;
      MarkedRecord(f0, a, i);
      ShortName(f0, a, i, inRecovery);
      DelKv(None, Addr(a, i), true);
      DroppedIsMoved(cfg, f0, a, i);
      if Sound(c0, f0, crc) && Consistent(f0, inRecovery) {
        if f0[a].recs[i].status == Write {
          NoTwin(f0, a, i, inRecovery);
          assert false;
        } else {
          DroppedSound(c0, cache, f0, flash, a, i, crc);
        }
      }
    }

    /** The end of move_kv once room is found. */
    method Relocate(a: nat, i: nat, t: nat, ghost gc: bool, ghost f0: Flash, ghost c0: seq<Node>)
      requires Base() && a < |f0| && i < |f0[a].recs| && Live(f0[a].recs[i]) && cache == c0
      requires flash == MarkedFlash(f0, a, i) && Pick(cfg, flash, f0[a].recs[i].len, gc) == Some(t)
      modifies this`flash, this`trace, this`cache, this`lastDel
      ensures Base() && flash == Move(cfg, f0, a, i, gc, inRecovery) && !lastDel
      ensures Sound(c0, f0, crc) && Consistent(f0, inRecovery) ==> Sound(cache, flash, crc)
      ensures old(trace) <= trace
      ensures forall j | |old(trace)| <= j < |trace| :: MoveState(cfg, f0, a, i, gc, inRecovery, trace[j])
    {
      hide Used, SecOk, Moved, Chosen, Pick, KeyStored, Empties, Sound, CopyState, Consistent, MarkedFlash, Shape;
      MarkedRecord(f0, a, i);
      PickIsChosen(cfg, flash, f0[a].recs[i].len, gc);
      RoomFor(cfg, flash, t, f0[a].recs[i].len, gc);
      var found := false;
      if inRecovery {
        var b;
        found, b := FindNoCache(NameRead(flash[a].recs[i].key));
      }
      if found {
        Drop(a, i, f0, c0);
      } else {
        CopyAndDelete(a, i, t, f0, c0);
        ShortName(f0, a, i, inRecovery);
      }
    }

    /**
     move_kv: PRE_DELETE the old record, copy it to new space as WRITE, DELETE the old one.  During
     recovery a record whose name, as read, is already stored is only deleted.  When there is no room for it the
     record is left PRE_DELETE.
     */
    method MoveKv(a: nat, i: nat) returns (ok: bool)
      requires Base() && a < |flash| && i < |flash[a].recs| && Live(flash[a].recs[i])
      modifies this`flash, this`trace, this`cache, this`lastDel, this`gcRequest
      ensures Base() && flash == Move(cfg, old(flash), a, i, old(gcRequest), inRecovery)
      ensures ok <==> Target(cfg, old(flash), a, i, old(gcRequest), inRecovery).Some?
      ensures ok && Sound(old(cache), old(flash), crc) && Consistent(old(flash), inRecovery) ==>
                Sound(cache, flash, crc)
      ensures gcRequest == (old(gcRequest) || (!ok && Empties(flash) == GC_EMPTY_THRESHOLD))
      ensures ok ==> !lastDel
      ensures !ok && old(flash)[a].recs[i].status == PreDelete ==>
                flash == old(flash) && cache == old(cache) && trace == old(trace) && lastDel == old(lastDel)
      ensures old(trace) <= trace
      ensures forall j | |old(trace)| <= j < |trace| ::
                MoveState(cfg, old(flash), a, i, old(gcRequest), inRecovery, trace[j])
    {
      hide Used, SecOk, Moved, Pick, KeyStored, Empties, Sound, CopyState, Consistent, Shape;
      ghost var f0, c0 := flash, cache;
      var r := flash[a].recs[i];
      MarkedRecord(f0, a, i);
      if r.status == Write {
        DelKv(None, Addr(a, i), false);
      }
      var dst := AllocKv(r.len);
      if dst.None? {
        ok := false;
        return;
      }
      Relocate(a, i, dst.value, old(gcRequest), f0, c0);
      ok := true;
    }

    /**
     do_gc on one sector: its live records are moved, those for which there is no room are given up,
     and the sector is formatted.
     */
    method DoGc(a: nat)
      requires Base() && a < |flash| && gcRequest
      modifies this`flash, this`trace, this`cache, this`lastDel, this`gcRequest
      ensures Base() && gcRequest && flash == CollectSector(cfg, old(flash), a, inRecovery)
      ensures Sound(old(cache), old(flash), crc) && Consistent(old(flash), inRecovery) ==>
                SectorFits(cfg, old(flash), a, inRecovery) ==> Sound(cache, flash, crc)
      ensures SectorFits(cfg, old(flash), a, inRecovery) && !old(lastDel) ==> !lastDel
      ensures old(trace) <= trace
      ensures forall j | |old(trace)| <= j < |trace| :: SectorState(cfg, old(flash), a, inRecovery, trace[j])
    {
      hide Used, SecOk, Empties, Sound, Shape, After, SectorFits, Fresh, Consistent, TurnState;
      if flash[a].dirty == Clean {
        return;
      }
      ghost var f0, c0, t0 := flash, cache, trace;
      BegunShape(cfg, f0, a);
      Program(a, flash[a].(dirty := Collecting));
      AfterNothing(cfg, f0, a, inRecovery);
      if Sound(c0, f0, crc) {
        BegunSound(c0, f0, a, crc);
      }
      ghost var sure := SectorFits(cfg, f0, a, inRecovery) && Consistent(f0, inRecovery) && Sound(c0, f0, crc);
      var i := 0;
      while i < |flash[a].recs|
        invariant |flash| == |f0| && i <= |f0[a].recs| == |flash[a].recs|
        invariant Base() && gcRequest && flash == After(cfg, Begun(f0, a), a, i, inRecovery)
        invariant sure ==> Sound(cache, flash, crc)
        invariant SectorFits(cfg, f0, a, inRecovery) && !old(lastDel) ==> !lastDel
        invariant t0 <= trace && forall j | |t0| <= j < |trace| :: SectorState(cfg, f0, a, inRecovery, trace[j])
      {
        GcTurn(a, i, f0, t0);
        i := i + 1;
      }
      AfterGrows(cfg, Begun(f0, a), a, i, inRecovery);
      ghost var h := flash;
      FormattedOk(cfg);
      ShapeUpdate(cfg, h, a, FORMATTED);
      Program(a, FORMATTED);
      if sure {
        ErasedSound(cache, h, a, crc);
      }
    }

    /** One turn of the loop of do_gc. */
    method GcTurn(a: nat, i: nat, ghost f0: Flash, ghost t0: seq<Flash>)
      requires Base() && gcRequest && a < |f0| && f0[a].dirty != Clean && i < |f0[a].recs|
      requires flash == After(cfg, Begun(f0, a), a, i, inRecovery)
      requires t0 <= trace && forall j | |t0| <= j < |trace| :: SectorState(cfg, f0, a, inRecovery, trace[j])
      modifies this`flash, this`trace, this`cache, this`lastDel, this`gcRequest
      ensures Base() && gcRequest && flash == After(cfg, Begun(f0, a), a, i + 1, inRecovery)
      ensures |flash| == |f0| && |flash[a].recs| == |f0[a].recs|
      ensures SectorFits(cfg, f0, a, inRecovery) && Consistent(f0, inRecovery) && Sound(old(cache), old(flash), crc) ==>
                Sound(cache, flash, crc)
      ensures SectorFits(cfg, f0, a, inRecovery) && !old(lastDel) ==> !lastDel
      ensures t0 <= trace && forall j | |t0| <= j < |trace| :: SectorState(cfg, f0, a, inRecovery, trace[j])
    {
      hide Used, SecOk, Empties, Sound, Shape, Move, Target, Fresh, Consistent, SectorState, MoveState, KeyStored;
      ghost var h, t1 := flash, trace;
      AfterGrows(cfg, Begun(f0, a), a, i, inRecovery);
      AfterGrows(cfg, Begun(f0, a), a, i + 1, inRecovery);
      if SectorFits(cfg, f0, a, inRecovery) {
        FitsAt(cfg, f0, a, i, inRecovery);
        if Consistent(f0, inRecovery) {
          ConsistentAfter(cfg, f0, a, i, inRecovery);
        }
      }
      if Live(flash[a].recs[i]) {
        var ok := MoveKv(a, i);
        TurnStates(cfg, f0, a, i, inRecovery, t0, t1, trace);
      }
    }

    /** gc_collect: with at most one EMPTY sector left, every dirty sector is collected. */
    method GcCollect()
      requires Base() && gcRequest
      modifies this`flash, this`trace, this`cache, this`lastDel, this`gcRequest
      ensures Base() && !gcRequest && flash == Collect(cfg, old(flash), inRecovery)
      ensures Sound(old(cache), old(flash), crc) && Consistent(old(flash), inRecovery) ==>
                Fitting(cfg, old(flash), inRecovery) ==> Sound(cache, flash, crc)
      ensures Fitting(cfg, old(flash), inRecovery) && !old(lastDel) ==> !lastDel
      ensures old(trace) <= trace
      ensures forall j | |old(trace)| <= j < |trace| :: GcState(cfg, old(flash), inRecovery, trace[j])
    {
      hide Used, SecOk, Sound, CollectSector, SectorFits, SectorState, Fitting, Shape, Consistent;
      ghost var f0, c0, t0 := flash, cache, trace;
      ghost var fits := Fitting(cfg, f0, inRecovery);
      var empty := CountEmpty();
      if empty <= GC_EMPTY_THRESHOLD {
        var s := 0;
        while s < |flash|
          invariant s <= |flash| == |f0|
          invariant Base() && gcRequest && flash == UpTo(cfg, f0, s, inRecovery)
          invariant fits && Consistent(f0, inRecovery) && Sound(c0, f0, crc) ==> Sound(cache, flash, crc)
          invariant fits && !old(lastDel) ==> !lastDel
          invariant t0 <= trace
          invariant forall j | |t0| <= j < |trace| :: GcState(cfg, f0, inRecovery, trace[j])
        {
          ghost var t1 := trace;
          if fits {
            UpToFits(cfg, f0, s, inRecovery);
            if Consistent(f0, inRecovery) {
              ConsistentUpTo(cfg, f0, s, inRecovery);
            }
          }
          DoGc(s);
          SectorStates(cfg, f0, s, inRecovery, t0, t1, trace);
          s := s + 1;
        }
      }
      gcRequest := false;
    }

    /** sector_statistics_cb and gc_check_cb: how many sectors are EMPTY. */
    method CountEmpty() returns (n: nat)
      ensures n == Empties(flash)
    {
      n := 0;
      var i := 0;
      while i < |flash|
        invariant i <= |flash| && n == Empties(flash[..i])
      {
        assert flash[..i + 1][..i] == flash[..i];
        if flash[i].store == Empty {
          n := n + 1;
        }
        i := i + 1;
      }
      assert flash[..|flash|] == flash;
    }

    /** The flash between two operations: it denotes the map, one EMPTY sector is in reserve. */
    ghost predicate Resting(m: map<Key, Value>)
      reads this
    {
      Base() && Denotes(flash, m) && Empties(flash) >= 1 && !gcRequest && !inRecovery && !lastDel
    }

    /** The store between two operations: the names are as short as they should be, and the cache is
        sound. */
    ghost predicate AtRest(m: map<Key, Value>)
      reads this
    {
      Resting(m) && ShortNames(m) && Sound(cache, flash, crc)
    }

    /** A collection of a store at rest: the map and an EMPTY sector stay, no sector stays dirty. */
    method CollectAtRest(ghost m: map<Key, Value>)
      requires Base() && Denotes(flash, m) && Empties(flash) >= 1
      requires gcRequest && !inRecovery && !lastDel
      modifies this`flash, this`trace, this`cache, this`lastDel, this`gcRequest
      ensures Resting(m) && flash == Collect(cfg, old(flash), false)
      ensures ShortNames(m) && Sound(old(cache), old(flash), crc) ==> AtRest(m)
      ensures ShortNames(m) ==> Cuts(cfg, old(trace), trace, m, m)
      ensures Empties(old(flash)) <= GC_EMPTY_THRESHOLD ==> forall s | 0 <= s < |flash| :: flash[s].dirty == Clean
    {
      hide Used, SecOk, Sound, Denotes, Pending, Empties, PendingDirt, Shape, GcState, CutState, Collect, Consistent;
      ghost var f0 := flash;
      DenotesPending(f0, m);
      if ShortNames(m) {
        DenotesConsistent(f0, m, false);
      }
      GcCollect();
      ghost var q := CollectKeeps(cfg, f0, false, m, None);
      DenotesPending(flash, m);
      if Empties(f0) <= GC_EMPTY_THRESHOLD {
        CollectSweeps(cfg, f0, false);
      }
      if ShortNames(m) {
        forall j | |old(trace)| <= j < |trace|
          ensures CutState(cfg, trace[j], m, m)
        {
          GcCut(cfg, f0, m, trace[j]);
        }
      }
    }

    /** No sector can take `size` bytes: those in use have no room, an EMPTY one may not be spent. */
    ghost predicate NoRoom(size: nat)
      reads this
    {
      NoAllocation(cfg, flash, size, false)
    }

    /** new_kv: allocate; if that asks for a GC, collect once and try again. */
    method NewKv(size: nat, ghost m: map<Key, Value>) returns (r: Option<nat>)
      requires AtRest(m)
      modifies this`flash, this`trace, this`cache, this`lastDel, this`gcRequest
      ensures AtRest(m) && Cuts(cfg, old(trace), trace, m, m)
      ensures r == Pick(cfg, flash, size, false)
      ensures Pick(cfg, old(flash), size, false).Some? ==> flash == old(flash)
      ensures flash == old(flash) || flash == Collect(cfg, old(flash), false)
      ensures r.None? && Empties(flash) <= 1 ==> forall s | 0 <= s < |flash| :: flash[s].dirty == Clean
    {
      hide Used, SecOk, Pick, Cuts, Denotes, Sound, Shape;
      CutsStart(cfg, trace, m, m);
      r := AllocKv(size);
      if r.None? && gcRequest {
        CollectAtRest(m);
        r := AllocKv(size);
        if r.None? {
          gcRequest := false;
        }
      }
    }

    /** create_kv_blob for an allocated sector: the record, the cache, and a GC request when the
        sector became full. */
    method CreateKv(t: nat, key: Key, value: Value)
      requires Base() && |key| <= KV_NAME_MAX
      requires t < |flash| && flash[t].store != Full && KvLen(cfg, key, value) < Remain(cfg, flash[t])
      modifies this`flash, this`trace, this`cache, this`gcRequest
      ensures Base()
      ensures var r := Rec(key, value, KvLen(cfg, key, value), Write, true);
              && flash == old(flash)[t := Admit(cfg, old(flash)[t], r)]
              && Appending(cfg, old(flash), t, r, old(trace), trace)
      ensures |cache| == |old(cache)|
      ensures forall j | 0 <= j < |cache| ::
                SlotAfter(old(cache)[j], cache[j], crc(key), Some(Addr(t, |old(flash)[t].recs|)))
      ensures gcRequest == (old(gcRequest) || (old(flash)[t].store == Using && flash[t].store == Full))
    {
      hide Used, SecOk, Appending;
      var full := AppendRecord(t, Rec(key, value, KvLen(cfg, key, value), Write, true));
      cache := Update(cache, crc(key), Some(Addr(t, |flash[t].recs| - 1)));
      if full {
        gcRequest := true;
      }
    }

    /**
     set_kv with a value.  On success the store denotes the map with that one entry set; when there
     is no room even after collecting garbage, or the name is too long, the map is what it was.  From
     every flash state on the way the old map or the new one is held.  A name of exactly KV_NAME_MAX
     bytes is taken, and a scan does not find it afterwards.  What the store says is too much is too
     much: in a store formatted and not cut since, the live records then leave no room for it.
     */
    method SetKv(key: Key, value: Value, ghost m: map<Key, Value>) returns (r: Code)
      requires AtRest(m) && CrcApart(m, key)
      modifies this`flash, this`trace, this`cache, this`lastDel, this`gcRequest
      ensures r == NoErr && |key| == KV_NAME_MAX ==> Resting(m[key := value]) && !KeyStored(flash, key)
      ensures r != NoErr || |key| != KV_NAME_MAX ==> AtRest(if r == NoErr then m[key := value] else m)
      ensures r == SavedFull ==> NoRoom(KvLen(cfg, key, value))
      ensures Pick(cfg, old(flash), KvLen(cfg, key, value), false).Some? ==> r != SavedFull
      ensures r == NoErr ==> cfg.hdr + |key| + |value| < cfg.usable
      ensures Empties(old(flash)) > 1 && |key| <= KV_NAME_MAX ==>
                (cfg.hdr + |key| + |value| + 2 * (cfg.unit - 1) < cfg.usable ==> r == NoErr)
      ensures Tidy(cfg, old(flash)) ==>
                Tidy(cfg, flash) &&
                (r == SavedFull ==> Exhausted(cfg, flash, cfg.hdr + |key| + |value| + 2 * (cfg.unit - 1)))
      ensures r != SavedFull ==> (r == NameErr <==> |key| > KV_NAME_MAX)
      ensures |key| != KV_NAME_MAX ==>
                Cuts(cfg, old(trace), trace, m, if |key| < KV_NAME_MAX then m[key := value] else m)
    {
      hide Used, SecOk, Pick, Cuts, Denotes, Sound, Shape, Reserve, Chosen, KvLen, Tidy, Exhausted, Collect, Empties;
      ghost var m', f0 := m[key := value], flash;
      var size := KvLen(cfg, key, value);
      Sizes(cfg, f0, key, value);
      var dst := NewKv(size, m);
      Sizes(cfg, flash, key, value);
      CollectKeepsTidy(cfg, f0);
      CutsWiden(cfg, old(trace), trace, m, m, m');
      PickIsChosen(cfg, flash, size, false);
      NotStored(flash, key);
      if dst.None? {
        return SavedFull;
      }
      if |key| > KV_NAME_MAX {
        var found, _ := Find(key, m);
        return NameErr;
      }
      ghost var t0 := trace;
      ReplaceKv(dst.value, key, value, m);
      CutsChain(cfg, old(trace), t0, trace, m, m');
      if gcRequest {
        ghost var t1 := trace;
        CollectKeepsTidy(cfg, flash);
        CollectAtRest(m');
        if |key| < KV_NAME_MAX {
          CutsWiden(cfg, t1, trace, m', m, m');
          CutsChain(cfg, old(trace), t1, trace, m, m');
        }
      }
      NotStored(flash, key);
      r := NoErr;
    }

    /** The middle of set_kv: the old record to PRE_DELETE, the new one written, the old one DELETED.
        There is an EMPTY sector all the time. */
    method ReplaceKv(t: nat, key: Key, value: Value, ghost m: map<Key, Value>)
      requires AtRest(m) && |key| <= KV_NAME_MAX && CrcApart(m, key)
      requires Chosen(cfg, flash, t, KvLen(cfg, key, value), false)
      modifies this`flash, this`trace, this`cache, this`lastDel, this`gcRequest
      ensures Base() && Sound(cache, flash, crc) && Denotes(flash, m[key := value])
      ensures Empties(flash) >= 1 && !lastDel
      ensures Cuts(cfg, old(trace), trace, m, m[key := value]) && Reserve(old(trace), trace)
      ensures Tidy(cfg, old(flash)) ==> Tidy(cfg, flash)
    {
      hide Used, SecOk, Shape, Denotes, Sound, Empties, Chosen, CutState, Tidy, KvLen;
      ghost var r := Rec(key, value, KvLen(cfg, key, value), Write, true);
      ghost var f0, t0 := flash, trace;
      ChosenRoom(cfg, flash, t, r.len, false);
      var found, a := Find(key, m);
      ghost var c0 := cache;
      if !found {
        CreateKv(t, key, value);
        AddedStates(f0, flash, t, flash[t], m, r);
        AdmitFrame(cfg, f0, t, r);
        SoundUpdated(c0, cache, f0, flash, crc, key, Some(Addr(t, |f0[t].recs|)));
        WrittenTidy(cfg, f0, t, key, value);
        LengthBounds(cfg, key, value);
        forall j | |t0| <= j < |trace|
          ensures CutState(cfg, trace[j], m, m[key := value]) && Empties(trace[j]) >= 1
        {
          AddCut(cfg, f0, t, r, m, trace[j]);
        }
        return;
      }
      ReplaceOld(a, t, key, value, m);
    }

    /** The case of a key that is stored, at address a. */
    method ReplaceOld(a: Addr, t: nat, key: Key, value: Value, ghost m: map<Key, Value>)
      requires Base() && Sound(cache, flash, crc) && Denotes(flash, m) && |key| <= KV_NAME_MAX
      requires t < |flash| && flash[t].store != Full && KvLen(cfg, key, value) < Remain(cfg, flash[t])
      requires Empties(flash) >= 1 && (flash[t].store == Empty ==> Empties(flash) > GC_EMPTY_THRESHOLD)
      requires key in m && IsWrite(flash, a) && flash[a.sec].recs[a.rec].key == key
                        && flash[a.sec].recs[a.rec].value == m[key]
      modifies this`flash, this`trace, this`cache, this`lastDel, this`gcRequest
      ensures Base() && Sound(cache, flash, crc) && Denotes(flash, m[key := value])
      ensures Empties(flash) >= 1 && !lastDel
      ensures Cuts(cfg, old(trace), trace, m, m[key := value]) && Reserve(old(trace), trace)
      ensures Tidy(cfg, old(flash)) ==> Tidy(cfg, flash)
    {
      hide Used, SecOk, Shape, Total, Pending, Denotes, Sound, Empties, CutState, MidAppend, StoreAfter, Tidy, KvLen;
      ghost var m' := m[key := value];
      ghost var r := Rec(key, value, KvLen(cfg, key, value), Write, true);
      ghost var f0, t0, c0 := flash, trace, cache;
      DelKv(Some(key), a, false);
      ghost var f1, t1 := flash, trace;
      PreparedHere(cfg, f0, f1, m, a, t);
      CreateKv(t, key, value);
      ghost var f2, t2 := flash, trace;
      DelKv(Some(key), a, true);
      ReplacedFlash(cfg, f0, f1, f2, flash, a, t, r);
      ReplacedMap(cfg, f0, f1, f2, flash, a, t, r, m);
      SoundUpdated(c0, cache, f0, flash, crc, key, Some(Addr(t, |f1[t].recs|)));
      MarkedTidy(cfg, f0, a, PreDelete);
      WrittenTidy(cfg, f1, t, key, value);
      LengthBounds(cfg, key, value);
      MarkedTidy(cfg, f2, a, Deleted);
      forall j | |t0| <= j < |trace|
        ensures CutState(cfg, trace[j], m, m') && Empties(trace[j]) >= 1
      {
        assert j < |t1| ==> trace[j] == t1[j];
        assert |t1| <= j < |t2| ==> trace[j] == t2[j];
        ReplaceCut(cfg, f0, f1, f2, flash, a, t, r, m, trace[j]);
      }
    }

    /** fdb_kv_del: the entry is gone; an unknown name is an error and changes nothing. */
    method DeleteKey(key: Key, ghost m: map<Key, Value>) returns (ok: bool)
      requires AtRest(m) && CrcApart(m, key)
      modifies this`flash, this`trace, this`cache, this`lastDel
      ensures AtRest(m - {key}) && (ok <==> key in m)
      ensures Cuts(cfg, old(trace), trace, m, m - {key}) && Reserve(old(trace), trace)
      ensures Tidy(cfg, old(flash)) ==> Tidy(cfg, flash)
    {
      hide Used, SecOk, Shape, Total, Sound, Empties, Denotes, CutState, Tidy;
      var a;
      ghost var f0 := flash;
      ok, a := Find(key, m);
      ghost var c0 := cache;
      if !ok {
        assert m - {key} == m;
        return;
      }
      DelKv(Some(key), a, true);
      MarkedTidy(cfg, f0, a, Deleted);
      DeletedDone(f0, flash, a, m);
      EmptiesUpdate(f0, a.sec, flash[a.sec]);
      StatusFrame(f0, flash, a, Deleted);
      SoundUpdated(c0, cache, f0, flash, crc, key, None);
      DeleteCut(cfg, f0, a, m, m - {key}, Restated(f0, a.sec, a.rec, Deleted));
      DeleteCut(cfg, f0, a, m, m - {key}, flash);
    }

    /** get_kv: as much of the stored value as the buffer takes, and its full length. */
    method GetKv(key: Key, bufLen: nat, ghost m: map<Key, Value>) returns (data: Value, valueLen: nat)
      requires AtRest(m) && CrcApart(m, key)
      modifies this`cache
      ensures AtRest(m)
      ensures key in m ==> valueLen == |m[key]| && data == m[key][..if bufLen > valueLen then valueLen else bufLen]
      ensures key !in m ==> valueLen == 0 && data == []
    {
      var found, a := Find(key, m);
      if !found {
        return [], 0;
      }
      var value := flash[a.sec].recs[a.rec].value;
      valueLen := |value|;
      data := value[..if bufLen > valueLen then valueLen else bufLen];
    }

    /** fdb_kv_set_default without defaults: every sector is formatted. */
    constructor Format(c: Config, crc: Key -> nat, cacheSize: nat)
      requires ValidConfig(c)
      ensures cfg == c && this.crc == crc && AtRest(map[])
      ensures flash == seq(c.sectors, _ => FORMATTED) && Tidy(c, flash) && Empties(flash) == c.sectors
    {
      cfg, this.crc := c, crc;
      flash, trace := seq(c.sectors, _ => FORMATTED), [];
      gcRequest, inRecovery, lastDel := false, false, false;
      cache := seq(cacheSize, _ => Node(0, 0, None));
      new;
      FormattedEmpty(flash);
    }

    /** What the database knows when it is opened on flash left behind by an earlier run. */
    constructor PowerUp(c: Config, crc: Key -> nat, cacheSize: nat, f: Flash)
      requires ValidConfig(c) && Shape(c, f)
      ensures cfg == c && this.crc == crc && flash == f && Base() && Sound(cache, flash, crc)
      ensures !gcRequest && inRecovery && !lastDel && trace == []
    {
      cfg, this.crc := c, crc;
      flash, trace := f, [];
      gcRequest, inRecovery, lastDel := false, true, false;
      cache := seq(cacheSize, _ => Node(0, 0, None));
    }

    /** One operation of a run. */
    method Perform(op: Op, ghost m: map<Key, Value>) returns (ok: bool)
      requires AtRest(m) && CrcApart(m, op.key) && Sensible(op)
      modifies this`flash, this`trace, this`cache, this`lastDel, this`gcRequest
      ensures AtRest(Effect(m, op, ok)) && (Tidy(cfg, old(flash)) ==> Tidy(cfg, flash))
      ensures Cuts(cfg, old(trace), trace, m, Aim(m, op))
      ensures match op
              case Set(k, v) =>
                && (ok ==> |k| < KV_NAME_MAX && cfg.hdr + |k| + |v| < cfg.usable)
                && (!ok ==> |k| > KV_NAME_MAX || NoRoom(KvLen(cfg, k, v)))
                && (!ok && Tidy(cfg, old(flash)) ==>
                      |k| > KV_NAME_MAX || Exhausted(cfg, flash, cfg.hdr + |k| + |v| + 2 * (cfg.unit - 1)))
              case Delete(k) => ok <==> k in m
    {
      hide AtRest, Cuts, NoRoom, Reserve, Tidy, Exhausted;
      match op {
        case Set(k, v) =>
          var r := SetKv(k, v, m);
          ok := r == NoErr;
        case Delete(k) =>
          ok := DeleteKey(k, m);
      }
    }

    /**
     Any run of operations.  Starting from what the store denotes, each successful set or delete
     acts on the map, a failed one does not; that is what the store denotes at the end.
     */
    method Run(ops: seq<Op>, ghost m0: map<Key, Value>) returns (oks: seq<bool>)
      requires AtRest(m0) && forall op | op in ops :: Sensible(op)
      requires forall k, k' | k in Keys(m0, ops) && k' in Keys(m0, ops) && crc(k) == crc(k') :: k == k'
      modifies this`flash, this`trace, this`cache, this`lastDel, this`gcRequest
      ensures |oks| == |ops| && AtRest(Replay(m0, ops, oks))
      ensures Tidy(cfg, old(flash)) ==> Tidy(cfg, flash)
    {
      hide AtRest, Cuts, Replay, Effect, Keys, NoRoom, Tidy;
      oks := [];
      ghost var m := m0;
      var i := 0;
      ReplayNone(m0);
      KeysOf(m0, ops);
      while i < |ops|
        invariant i <= |ops| && |oks| == i
        invariant m == Replay(m0, ops[..i], oks) && AtRest(m)
        invariant Stored(m, m0, ops)
        invariant Tidy(cfg, old(flash)) ==> Tidy(cfg, flash)
      {
        var op := ops[i];
        assert op in ops;
        StoredApart(m, m0, ops, op, crc);
        var ok := Perform(op, m);
        ReplayOneMore(m0, ops, oks, i, ok);
        EffectKeys(m, m0, ops, op, ok);
        m := Effect(m, op, ok);
        oks, i := oks + [ok], i + 1;
      }
      assert ops[..i] == ops;
    }
  }

  // ---------- space in a run without cuts ----------

  /** What the length of a record has to do with whether it finds room. */
  lemma Sizes(c: Config, f: Flash, k: Key, v: Value)
    requires ValidConfig(c) && Shape(c, f)
    ensures var p := Pick(c, f, KvLen(c, k, v), false);
            var most := c.hdr + |k| + |v| + 2 * (c.unit - 1);
            && (p.Some? ==> c.hdr + |k| + |v| < c.usable)
            && (Empties(f) > 1 && most < c.usable ==> p.Some?)
            && (Tidy(c, f) && Empties(f) >= 1 && p.None?
                && (Empties(f) <= 1 ==> forall s | 0 <= s < |f| :: f[s].dirty == Clean) ==>
                  Exhausted(c, f, most))
  {
    hide Pick, Tidy, Exhausted, Empties, KvLen, Shape;
    var len := KvLen(c, k, v);
    LengthBounds(c, k, v);
    if Pick(c, f, len, false).Some? {
      PickFits(c, f, len);
    } else {
      if Empties(f) > 1 && len < c.usable {
        TwoEmpties(c, f, len);
        assert false;
      }
      if Tidy(c, f) && Empties(f) >= 1
         && (Empties(f) <= 1 ==> forall s | 0 <= s < |f| :: f[s].dirty == Clean) {
        NoRoomMeans(c, f, len);
        ExhaustedWider(c, f, len, c.hdr + |k| + |v| + 2 * (c.unit - 1));
      }
    }
  }

  lemma CollectKeepsTidy(c: Config, f: Flash)
    ensures Tidy(c, f) ==> Tidy(c, Collect(c, f, false))
  {
    hide Tidy, Collect;
    if Tidy(c, f) {
      CollectTidy(c, f, false);
    }
  }

  lemma WrittenTidy(c: Config, f: Flash, t: nat, k: Key, v: Value)
    requires t < |f| && c.unit >= 1
    ensures Tidy(c, f) ==> Tidy(c, f[t := Admit(c, f[t], Rec(k, v, KvLen(c, k, v), Write, true))])
  {
    hide Tidy, Admit, KvLen;
    if Tidy(c, f) {
      AdmitTidy(c, f, t, Rec(k, v, KvLen(c, k, v), Write, true));
    }
  }

  lemma MarkedTidy(c: Config, f: Flash, a: Addr, st: Status)
    requires a.sec < |f| && a.rec < |f[a.sec].recs|
    ensures Tidy(c, f) ==> Tidy(c, f[a.sec := Soil(Restatus(f[a.sec], a.rec, st))])
  {
    hide Tidy, Soil, Restatus;
    if Tidy(c, f) {
      SoilTidy(c, f, a.sec, a.rec, st);
    }
  }

  lemma ReplayNone(m: map<Key, Value>)
    ensures Replay(m, [], []) == m
  {
  }

  lemma ReplayOneMore(m: map<Key, Value>, ops: seq<Op>, oks: seq<bool>, i: nat, ok: bool)
    requires |oks| == i < |ops|
    ensures Replay(m, ops[..i + 1], oks + [ok]) == Effect(Replay(m, ops[..i], oks), ops[i], ok)
  {
    hide Effect;
    var done, oks1 := ops[..i + 1], oks + [ok];
    assert done[..i] == ops[..i] && oks1[..i] == oks && done[i] == ops[i] && oks1[i] == ok;
  }

  /** The keys of m are among those of the run. */
  ghost predicate Stored(m: map<Key, Value>, m0: map<Key, Value>, ops: seq<Op>) {
    forall k | k in m :: k in Keys(m0, ops)
  }

  lemma KeysOf(m0: map<Key, Value>, ops: seq<Op>)
    ensures Stored(m0, m0, ops)
  {
  }

  lemma StoredApart(m: map<Key, Value>, m0: map<Key, Value>, ops: seq<Op>, op: Op, crc: Key -> nat)
    requires Stored(m, m0, ops) && op in ops
    requires forall k, k' | k in Keys(m0, ops) && k' in Keys(m0, ops) && crc(k) == crc(k') :: k == k'
    ensures forall k | k in m && crc(k) == crc(op.key) :: k == op.key
  {
    assert op.key in Keys(m0, ops);
  }

  lemma EffectKeys(m: map<Key, Value>, m0: map<Key, Value>, ops: seq<Op>, op: Op, ok: bool)
    requires Stored(m, m0, ops) && op in ops
    ensures Stored(Effect(m, op, ok), m0, ops)
  {
  }

  datatype Op = Set(key: Key, value: Value) | Delete(key: Key)

  /** No name to be set has exactly KV_NAME_MAX bytes; longer ones are refused. */
  ghost predicate Sensible(op: Op) {
    op.Set? ==> |op.key| != KV_NAME_MAX
  }

  function Effect(m: map<Key, Value>, op: Op, ok: bool): map<Key, Value> {
    match op
    case Set(k, v) => if ok then m[k := v] else m
    case Delete(k) => m - {k}
  }

  /** The map an operation is to bring about. */
  ghost function Aim(m: map<Key, Value>, op: Op): map<Key, Value> {
    Effect(m, op, op.Set? ==> |op.key| < KV_NAME_MAX)
  }

  /** The map after the operations, given which of them reported success. */
  function Replay(m: map<Key, Value>, ops: seq<Op>, oks: seq<bool>): map<Key, Value>
    requires |oks| == |ops|
  {
    if ops == [] then m
    else Effect(Replay(m, ops[..|ops| - 1], oks[..|ops| - 1]), ops[|ops| - 1], oks[|ops| - 1])
  }

  ghost function Keys(m: map<Key, Value>, ops: seq<Op>): set<Key> {
    m.Keys + set op | op in ops :: op.key
  }

  lemma {:induction false} FormattedEmpty(f: Flash)
    requires forall s | 0 <= s < |f| :: f[s] == FORMATTED
    ensures Empties(f) == |f| && Total(f, Write) == multiset{} && Total(f, PreDelete) == multiset{}
  {
    if f != [] {
      FormattedEmpty(f[..|f| - 1]);
    }
  }

  /** The old record is marked; the allocated sector is as roomy as before. */
  lemma PreparedHere(c: Config, f0: Flash, f1: Flash, m: map<Key, Value>, a: Addr, t: nat)
    requires Shape(c, f0) && Denotes(f0, m) && IsWrite(f0, a) && t < |f0|
    requires f1 == f0[a.sec := Soil(Restatus(f0[a.sec], a.rec, PreDelete))]
    ensures var r := f0[a.sec].recs[a.rec];
            var pair := (r.key, r.value);
            && r.key in m && m[r.key] == r.value && Pending(f1, m, Some(pair))
            && Total(f1, Write) == Items(m) - multiset{pair} && Total(f1, PreDelete) == multiset{pair}
    ensures Remain(c, f1[t]) == Remain(c, f0[t]) && f1[t].store == f0[t].store
  {
    hide Total, Used, Pending, Denotes;
    Prepared(f0, m, a.sec, a.rec, f1[a.sec]);
    RestatusOk(c, f0[a.sec], a.rec, PreDelete);
  }

  lemma ReplacedDone(f: Flash, g: Flash, m: map<Key, Value>, k: Key, old': Value)
    requires Total(f, Write) == Items(m) && Total(f, PreDelete) == multiset{(k, old')}
    requires Total(g, Write) == Total(f, Write) && Total(g, PreDelete) + multiset{(k, old')} == Total(f, PreDelete)
    ensures Denotes(g, m)
  {
    hide Total;
    MultisetCancel(Total(g, PreDelete), multiset{}, multiset{(k, old')});
  }

  /** What the three steps of a replacement do to the sectors. */
  lemma ReplacedFlash(c: Config, f0: Flash, f1: Flash, f2: Flash, f3: Flash, a: Addr, t: nat, r: Rec)
    requires a.sec < |f0| && a.rec < |f0[a.sec].recs| && t < |f0| && r.good && r.status == Write
    requires f1 == f0[a.sec := Soil(Restatus(f0[a.sec], a.rec, PreDelete))]
    requires f2 == f1[t := Admit(c, f1[t], r)]
    requires f3 == f2[a.sec := Soil(Restatus(f2[a.sec], a.rec, Deleted))]
    ensures Empties(f3) + (if f0[t].store == Empty then 1 else 0) == Empties(f0)
    ensures IsWrite(f3, Addr(t, |f1[t].recs|)) && f3[t].recs[|f1[t].recs|] == r
    ensures forall b: Addr | IsWrite(f0, b) && b != a ::
              IsWrite(f3, b) && f3[b.sec].recs[b.rec] == f0[b.sec].recs[b.rec]
  {
    hide Used, Empties, IsWrite;
    EmptiesUpdate(f0, a.sec, f1[a.sec]);
    EmptiesUpdate(f1, t, f2[t]);
    EmptiesUpdate(f2, a.sec, f3[a.sec]);
    StatusFrame(f0, f1, a, PreDelete);
    AdmitFrame(c, f1, t, r);
    StatusFrame(f2, f3, a, Deleted);
  }

  /** The map's record for a key was deleted outright. */
  lemma DeletedDone(f: Flash, g: Flash, a: Addr, m: map<Key, Value>)
    requires Denotes(f, m) && IsWrite(f, a) && g == f[a.sec := Retire(f[a.sec], a.rec)]
    ensures var k := f[a.sec].recs[a.rec].key; k in m && Denotes(g, m - {k})
  {
    hide Total, Pairs;
    var r := f[a.sec].recs[a.rec];
    Present(f, a.sec, a.rec, Write);
    DenotedEntry(m, r.key, r.value);
    Finished(f, a.sec, a.rec, g[a.sec], Write);
    ItemsRemove(m, r.key);
    var one := multiset{(r.key, r.value)};
    MultisetCancel(Total(g, Write), Items(m) - one, one);
  }

  lemma StatusFrame(f: Flash, g: Flash, a: Addr, st: Status)
    requires a.sec < |f| && a.rec < |f[a.sec].recs|
    requires g == f[a.sec := Soil(Restatus(f[a.sec], a.rec, st))]
    ensures forall b: Addr | IsWrite(f, b) && b != a ::
              IsWrite(g, b) && g[b.sec].recs[b.rec] == f[b.sec].recs[b.rec]
  {
  }

  /** Adding a record moves no other one and spends at most the sector it goes to. */
  lemma AdmitFrame(c: Config, f: Flash, t: nat, r: Rec)
    requires t < |f|
    ensures var g := f[t := Admit(c, f[t], r)];
            && Empties(g) + (if f[t].store == Empty then 1 else 0) == Empties(f)
            && g[t].recs[|f[t].recs|] == r && (r.good && r.status == Write ==> IsWrite(g, Addr(t, |f[t].recs|)))
            && forall a: Addr | IsWrite(f, a) :: IsWrite(g, a) && g[a.sec].recs[a.rec] == f[a.sec].recs[a.rec]
  {
    hide Used;
    EmptiesUpdate(f, t, Admit(c, f[t], r));
  }

  /** What the three steps of a replacement do to the map. */
  lemma ReplacedMap(c: Config, f0: Flash, f1: Flash, f2: Flash, f3: Flash, a: Addr, t: nat, r: Rec, m: map<Key, Value>)
    requires Shape(c, f0) && Denotes(f0, m) && IsWrite(f0, a) && t < |f0| && r.good && r.status == Write
    requires f0[a.sec].recs[a.rec].key == r.key
    requires f1 == f0[a.sec := Soil(Restatus(f0[a.sec], a.rec, PreDelete))]
    requires f2 == f1[t := Admit(c, f1[t], r)]
    requires f3 == f2[a.sec := Soil(Restatus(f2[a.sec], a.rec, Deleted))]
    ensures r.key in m && Pending(f1, m, Some((r.key, m[r.key])))
    ensures Pending(f2, m[r.key := r.value], Some((r.key, m[r.key]))) && Denotes(f3, m[r.key := r.value])
  {
    hide Total, Pending, Denotes, Used, StoreAfter, Shape;
    PreparedHere(c, f0, f1, m, a, t);
    ReplacedStates(f1, f2, t, f2[t], m, r);
    Finished(f2, a.sec, a.rec, f3[a.sec], PreDelete);
    ReplacedDone(f2, f3, m[r.key := r.value], r.key, m[r.key]);
  }

  // ---------- what a cut of an operation leaves ----------

  lemma CutOf(c: Config, g: Flash, m: map<Key, Value>, m': map<Key, Value>)
    requires (Held(c, g, m) || Held(c, g, m')) && Empties(g) >= 1 && (PendingDirty(g) || FirstMark(c, g))
    ensures CutState(c, g, m, m')
  {
    hide Held, Empties, PendingDirty, FirstMark;
  }

  /** The record of a new name is being added to a store at rest. */
  lemma AddCut(c: Config, f: Flash, t: nat, r: Rec, m: map<Key, Value>, g: Flash)
    requires ValidConfig(c) && Shape(c, f) && Denotes(f, m) && t < |f| && f[t].store != Full
    requires c.hdr <= r.len < Remain(c, f[t]) && r.good && r.status == Write && r.key !in m
    requires Empties(f[t := Admit(c, f[t], r)]) >= 1
    requires MidAppend(c, f, t, r, g) || g == f[t := Admit(c, f[t], r)]
    ensures CutState(c, g, m, m[r.key := r.value]) && Empties(g) >= 1
  {
    hide Shape, Denotes, Empties, Used, MidAppend, StoreAfter, Total, Held, SameLive, PendingAt, CutState;
    var m' := m[r.key := r.value];
    DenotesPending(f, m);
    DenotesNone(f, m);
    if MidAppend(c, f, t, r, g) {
      MidAppendSame(c, f, t, r, g);
      HeldAs(c, g, f, m, None);
      forall s: nat, i: nat | PendingAt(g, s, i)
        ensures false
      {
        MidAppendPending(c, f, t, r, g, s, i);
        NoneAt(f, s, i);
      }
    } else {
      AdmitHere(c, f, t, r);
      AddedStates(f, g, t, g[t], m, r);
      DenotesPending(g, m');
      HeldSelf(c, g, m', None);
      DenotesNone(g, m');
    }
    CutOf(c, g, m, m');
  }

  /** Whatever is pending is so in sector a, which is marked. */
  lemma PendingInMarked(f: Flash, a: nat)
    requires a < |f| && f[a].dirty != Clean && forall s: nat, i: nat | PendingAt(f, s, i) :: s == a
    ensures PendingDirty(f)
  {
  }

  lemma MarkedAlone(f: Flash, a: Addr, s: nat, i: nat)
    requires a.sec < |f| && a.rec < |f[a.sec].recs| && NonePending(f)
    requires PendingAt(f[a.sec := Soil(Restatus(f[a.sec], a.rec, PreDelete))], s, i)
          || PendingAt(Restated(f, a.sec, a.rec, PreDelete), s, i)
    ensures s == a.sec && i == a.rec
  {
    NoneAt(f, s, i);
  }

  /** A name's record is being replaced. */
  lemma ReplaceCut(c: Config, f0: Flash, f1: Flash, f2: Flash, f3: Flash, a: Addr, t: nat, r: Rec,
                   m: map<Key, Value>, g: Flash)
    requires ValidConfig(c) && Shape(c, f0) && Denotes(f0, m) && IsWrite(f0, a) && t < |f0| && f0[t].store != Full
    requires c.hdr <= r.len < Remain(c, f0[t]) && r.good && r.status == Write && f0[a.sec].recs[a.rec].key == r.key
    requires f1 == f0[a.sec := Soil(Restatus(f0[a.sec], a.rec, PreDelete))]
    requires f2 == f1[t := Admit(c, f1[t], r)]
    requires f3 == f2[a.sec := Soil(Restatus(f2[a.sec], a.rec, Deleted))] && Empties(f3) >= 1
    requires || g == Restated(f0, a.sec, a.rec, PreDelete) || g == f1
             || MidAppend(c, f1, t, r, g) || g == f2
             || g == f3
    ensures CutState(c, g, m, m[r.key := r.value]) && Empties(g) >= 1
  {
    hide Shape, Denotes, Empties, Used, MidAppend, StoreAfter, Total, Held, SameLive, PendingAt, CutState, Pending;
    var m' := m[r.key := r.value];
    ReplacedMap(c, f0, f1, f2, f3, a, t, r, m);
    DenotesNone(f0, m);
    ReplaceShapes(c, f0, f1, f2, a, t, r);
    EmptiesUpdate(f2, a.sec, f3[a.sec]);
    if g == f3 {
      ReplacedCut(c, f2, f3, a, m, m');
    } else if g == f2 {
      HeldSelf(c, g, m', Some((r.key, m[r.key])));
      forall s: nat, i: nat | PendingAt(g, s, i)
        ensures s == a.sec
      {
        AdmitPending(c, f1, t, r, s, i);
        MarkedAlone(f0, a, s, i);
      }
      PendingInMarked(g, a.sec);
    } else if MidAppend(c, f1, t, r, g) {
      MidAppendSame(c, f1, t, r, g);
      HeldAs(c, g, f1, m, Some((r.key, m[r.key])));
      forall s: nat, i: nat | PendingAt(g, s, i)
        ensures s == a.sec
      {
        MidAppendPending(c, f1, t, r, g, s, i);
        MarkedAlone(f0, a, s, i);
      }
      PendingInMarked(g, a.sec);
    } else {
      FirstCut(c, f0, f1, a, m, g);
      AdmitFrame(c, f1, t, r);
      EmptiesUpdate(f0, a.sec, f1[a.sec]);
    }
    CutOf(c, g, m, m');
  }

  lemma ReplaceShapes(c: Config, f0: Flash, f1: Flash, f2: Flash, a: Addr, t: nat, r: Rec)
    requires Shape(c, f0) && a.sec < |f0| && a.rec < |f0[a.sec].recs| && t < |f0| && f0[t].store != Full
    requires c.hdr <= r.len < Remain(c, f0[t]) && c.hdr >= 1
    requires f1 == f0[a.sec := Soil(Restatus(f0[a.sec], a.rec, PreDelete))]
    requires f2 == f1[t := Admit(c, f1[t], r)]
    ensures Shape(c, f1) && Shape(c, f2) && f1[t].store == f0[t].store && Remain(c, f1[t]) == Remain(c, f0[t])
    ensures f1[a.sec].dirty != Clean && f2[a.sec].dirty != Clean && |f2| == |f1| == |f0|
    ensures a.rec < |f1[a.sec].recs| && a.rec < |f2[a.sec].recs|
  {
    hide Used, StoreAfter;
    RestatusOk(c, f0[a.sec], a.rec, PreDelete);
    UsedSameLens(f1[t].recs, f0[t].recs);
    assert SecOk(c, f1[a.sec]);
    AdmitHere(c, f1, t, r);
  }

  lemma ReplacedCut(c: Config, f2: Flash, f3: Flash, a: Addr, m: map<Key, Value>, m': map<Key, Value>)
    requires Shape(c, f2) && a.sec < |f2| && a.rec < |f2[a.sec].recs|
    requires f3 == f2[a.sec := Soil(Restatus(f2[a.sec], a.rec, Deleted))] && Denotes(f3, m')
    ensures Held(c, f3, m') && PendingDirty(f3)
  {
    hide Used, Denotes, Held;
    RestatusOk(c, f2[a.sec], a.rec, Deleted);
    assert SecOk(c, f3[a.sec]);
    DenotesPending(f3, m');
    HeldSelf(c, f3, m', None);
    DenotesNone(f3, m');
  }

  /** The two states of marking the old record. */
  lemma FirstCut(c: Config, f0: Flash, f1: Flash, a: Addr, m: map<Key, Value>, g: Flash)
    requires Shape(c, f0) && Denotes(f0, m) && IsWrite(f0, a) && NonePending(f0)
    requires f1 == f0[a.sec := Soil(Restatus(f0[a.sec], a.rec, PreDelete))]
    requires g == Restated(f0, a.sec, a.rec, PreDelete) || g == f1
    ensures Held(c, g, m) && (PendingDirty(g) || FirstMark(c, g)) && Empties(g) == Empties(f0)
  {
    hide Shape, Denotes, Empties, Total, Held, SameLive, PendingAt, Pending, NonePending;
    DenotesPending(f0, m);
    RestatedShape(c, f0, a.sec, a.rec, PreDelete);
    Prepared(f0, m, a.sec, a.rec, g[a.sec]);
    SoiledShape(c, f0, a.sec, a.rec, PreDelete);
    HeldSelf(c, g, m, Some((f0[a.sec].recs[a.rec].key, f0[a.sec].recs[a.rec].value)));
    EmptiesUpdate(f0, a.sec, g[a.sec]);
    if g[a.sec].dirty != Clean {
      forall s: nat, i: nat | PendingAt(g, s, i)
        ensures s == a.sec
      {
        MarkedAlone(f0, a, s, i);
      }
      PendingInMarked(g, a.sec);
    } else {
      assert FirstMark(c, g) by {
        NoneMeans(f0);
      }
    }
  }

  lemma NoneMeans(f: Flash)
    requires NonePending(f)
    ensures forall s: nat, i: nat :: !PendingAt(f, s, i)
  {
  }

  lemma RestatusDirty(sec: Sector, i: nat, st: Status)
    requires i < |sec.recs|
    ensures Restatus(sec, i, st).dirty == sec.dirty
  {
  }

  lemma SoiledShape(c: Config, f: Flash, a: nat, i: nat, st: Status)
    requires Shape(c, f) && a < |f| && i < |f[a].recs|
    ensures Shape(c, f[a := Soil(Restatus(f[a], i, st))])
  {
    hide Used;
    RestatusOk(c, f[a], i, st);
    assert SecOk(c, Soil(Restatus(f[a], i, st)));
  }

  /** A record was deleted outright. */
  lemma DeleteCut(c: Config, f: Flash, a: Addr, m: map<Key, Value>, m': map<Key, Value>, g: Flash)
    requires Shape(c, f) && a.sec < |f| && a.rec < |f[a.sec].recs| && Empties(f) >= 1
    requires g == Restated(f, a.sec, a.rec, Deleted) || g == f[a.sec := Soil(Restatus(f[a.sec], a.rec, Deleted))]
    requires Denotes(f[a.sec := Retire(f[a.sec], a.rec)], m')
    ensures CutState(c, g, m, m') && Empties(g) >= 1
  {
    hide Shape, Denotes, Empties, Total, Held, SameLive, CutState;
    var h := f[a.sec := Retire(f[a.sec], a.rec)];
    RetireOk(c, f, a.sec, a.rec);
    RestatedShape(c, f, a.sec, a.rec, Deleted);
    SoilSame(f, a.sec, a.rec, Deleted);
    EmptiesUpdate(f, a.sec, g[a.sec]);
    DenotesPending(h, m');
    DenotesNone(h, m');
    if g == h {
      HeldSelf(c, g, m', None);
    } else {
      HeldAs(c, g, h, m', None);
      forall s: nat, i: nat
        ensures !PendingAt(g, s, i)
      {
        NoneAt(h, s, i);
      }
    }
    CutOf(c, g, m, m');
  }

  // ---------- the cache ----------

  lemma MovedSound(c0: seq<Node>, c1: seq<Node>, f: Flash, g: Flash, a: nat, i: nat, t: nat, crc: Key -> nat,
                   dest: Addr)
    requires a < |f| && i < |f[a].recs| && Live(f[a].recs[i]) && t < |f| && dest == Addr(t, |f[t].recs|)
    requires Sound(c0, f, crc) && |c1| == |c0|
    requires forall j | 0 <= j < |c0| :: SlotAfter(c0[j], c1[j], crc(f[a].recs[i].key), Some(dest))
    requires IsWrite(g, dest) && g[t].recs[dest.rec] == f[a].recs[i].(status := Write)
    requires forall b: Addr | IsWrite(f, b) && b != Addr(a, i) ::
               IsWrite(g, b) && g[b.sec].recs[b.rec] == f[b.sec].recs[b.rec]
    ensures Sound(c1, g, crc)
  {
    hide Sound;
    SoundUpdated(c0, c1, f, g, crc, f[a].recs[i].key, Some(dest));
  }

  /** During recovery a record whose name is stored is only deleted, and its slot cleared. */
  lemma DroppedSound(c0: seq<Node>, c1: seq<Node>, f: Flash, g: Flash, a: nat, i: nat, crc: Key -> nat)
    requires a < |f| && i < |f[a].recs| && g == f[a := Retire(f[a], i)] && |c1| == |c0|
    requires f[a].recs[i].status == PreDelete
    requires c1 == c0 || forall j | 0 <= j < |c0| :: SlotAfter(c0[j], c1[j], crc(f[a].recs[i].key), None)
    requires Sound(c0, f, crc)
    ensures Sound(c1, g, crc)
  {
    if c1 == c0 {
      SoundFrame(c0, f, g, crc);
    } else {
      SoundUpdated(c0, c1, f, g, crc, f[a].recs[i].key, None);
    }
  }

  /** Some map is held, with at most one pending record, and outside recovery with none. */
  ghost predicate Consistent(f: Flash, rec: bool) {
    exists m: map<Key, Value>, p: Option<(Key, Value)> :: Pending(f, m, p) && ShortNames(m) && (rec || p == None)
  }

  lemma ShortName(f: Flash, a: nat, i: nat, rec: bool)
    requires a < |f| && i < |f[a].recs| && Live(f[a].recs[i])
    ensures Consistent(f, rec) ==> |f[a].recs[i].key| < KV_NAME_MAX
  {
    hide Pending;
    if Consistent(f, rec) {
      var m: map<Key, Value>, p: Option<(Key, Value)> :| Pending(f, m, p) && ShortNames(m) && (rec || p == None);
      NameKnown(f, m, p, a, i);
    }
  }

  lemma NotStored(f: Flash, k: Key)
    ensures KeyStored(f, k) ==> |k| < KV_NAME_MAX
  {
    hide KeyStored;
    StoredIff(f, k);
  }

  /** So a WRITE record has no second one of its name. */
  lemma NoTwin(f: Flash, a: nat, i: nat, rec: bool)
    requires a < |f| && i < |f[a].recs| && Live(f[a].recs[i]) && f[a].recs[i].status == Write && Consistent(f, rec)
    ensures !KeyStored(MarkedFlash(f, a, i), NameRead(f[a].recs[i].key))
  {
    hide Pending, MarkedFlash, KeyStored, Total;
    var m: map<Key, Value>, p: Option<(Key, Value)> :| Pending(f, m, p) && ShortNames(m) && (rec || p == None);
    MarkedMeans(f, a, i, m, p);
    NameKnown(f, m, p, a, i);
    if KeyStored(MarkedFlash(f, a, i), f[a].recs[i].key) {
      StoredMeans(MarkedFlash(f, a, i), f[a].recs[i].key);
    }
  }

  lemma AfterNothing(c: Config, f: Flash, a: nat, rec: bool)
    requires a < |f|
    ensures After(c, Begun(f, a), a, 0, rec) == Begun(f, a)
  {
  }

  lemma ConsistentAfter(c: Config, f: Flash, a: nat, i: nat, rec: bool)
    requires a < |f| && f[a].dirty != Clean && i <= |f[a].recs| && Consistent(f, rec) && SectorFits(c, f, a, rec)
    ensures Consistent(After(c, Begun(f, a), a, i, rec), rec)
  {
    hide Pending, Placed, After, SameLive, Whole;
    var m: map<Key, Value>, p: Option<(Key, Value)> :| Pending(f, m, p) && ShortNames(m) && (rec || p == None);
    BegunSame(f, a);
    SamePending(Begun(f, a), f, m, p);
    var q := AfterKeeps(c, Begun(f, a), a, i, rec, m, p);
  }

  lemma ConsistentUpTo(c: Config, f: Flash, s: nat, rec: bool)
    requires Shape(c, f) && s <= |f| && Consistent(f, rec) && Fitting(c, f, rec)
    ensures Consistent(UpTo(c, f, s, rec), rec)
  {
    hide Pending, Shape, UpTo, Fitting, PendingDirt;
    var m: map<Key, Value>, p: Option<(Key, Value)> :| Pending(f, m, p) && ShortNames(m) && (rec || p == None);
    var q := UpToKeeps(c, f, s, rec, m, p);
  }

  lemma DenotesConsistent(f: Flash, m: map<Key, Value>, rec: bool)
    requires Denotes(f, m) && ShortNames(m)
    ensures Consistent(f, rec)
  {
    assert Pending(f, m, None);
  }

  lemma BegunSound(t: seq<Node>, f: Flash, a: nat, crc: Key -> nat)
    requires Sound(t, f, crc) && a < |f|
    ensures Sound(t, Begun(f, a), crc)
  {
    SoundFrame(t, f, Begun(f, a), crc);
  }

  lemma ErasedSound(t: seq<Node>, f: Flash, a: nat, crc: Key -> nat)
    requires Sound(t, f, crc) && a < |f|
    requires forall j | 0 <= j < |f[a].recs| :: !(f[a].recs[j].good && f[a].recs[j].status == Write)
    ensures Sound(t, f[a := FORMATTED], crc)
  {
    SoundFrame(t, f, f[a := FORMATTED], crc);
  }

  // ---------- the history ----------

  lemma OpenedMid(c: Config, f: Flash, s: nat, r: Rec)
    requires s < |f| && f[s := Opened(c, f[s], r.len)] != f
    ensures MidAppend(c, f, s, r, f[s := Opened(c, f[s], r.len)])
  {
  }

  lemma PartialMid(c: Config, f: Flash, s: nat, r: Rec, x: Rec)
    requires s < |f| && Half(c, r, x)
    ensures MidAppend(c, f, s, r, f[s := Partial(c, f[s], r, x)])
  {
    hide StoreAfter;
    assert f[s := Partial(c, f[s], r, x)][s] != f[s];
  }

  lemma TurnStates(c: Config, f: Flash, a: nat, i: nat, rec: bool, t0: seq<Flash>, t1: seq<Flash>, t2: seq<Flash>)
    requires a < |f| && f[a].dirty != Clean && i < |Begun(f, a)[a].recs| && t0 <= t1 <= t2
    requires forall j | |t0| <= j < |t1| :: SectorState(c, f, a, rec, t1[j])
    requires var h := After(c, Begun(f, a), a, i, rec);
             Live(h[a].recs[i]) && forall j | |t1| <= j < |t2| :: MoveState(c, h, a, i, true, rec, t2[j])
    ensures forall j | |t0| <= j < |t2| :: SectorState(c, f, a, rec, t2[j])
  {
    hide MoveState, After, CollectSector;
    forall j | |t0| <= j < |t2|
      ensures SectorState(c, f, a, rec, t2[j])
    {
      if j < |t1| {
        assert t2[j] == t1[j];
      } else {
        assert TurnState(c, Begun(f, a), a, i, rec, t2[j]);
      }
    }
  }

  lemma SectorStates(c: Config, f: Flash, s: nat, rec: bool, t0: seq<Flash>, t1: seq<Flash>, t2: seq<Flash>)
    requires s < |f| && Empties(f) <= GC_EMPTY_THRESHOLD && t0 <= t1 <= t2
    requires forall j | |t0| <= j < |t1| :: GcState(c, f, rec, t1[j])
    requires forall j | |t1| <= j < |t2| :: SectorState(c, UpTo(c, f, s, rec), s, rec, t2[j])
    ensures forall j | |t0| <= j < |t2| :: GcState(c, f, rec, t2[j])
  {
    hide SectorState, UpTo;
    forall j | |t0| <= j < |t2|
      ensures GcState(c, f, rec, t2[j])
    {
      if j < |t1| {
        assert t2[j] == t1[j];
      }
    }
  }
}
