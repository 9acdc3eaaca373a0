/**
 When moving records and collecting sectors keeps the map.  A collection loses an entry exactly if
 the only copy of it finds no place at its turn; with an EMPTY sector to start with, all find one.
 */
module KvKeeps {
  import opened Basics
  import opened KvFlash
  import opened KvSteps
  import opened KvCache
  import opened KvGc
  import opened KvCollect

  // ---------- one move ----------

  lemma MarkedRecord(f: Flash, a: nat, i: nat)
    requires a < |f| && i < |f[a].recs| && Live(f[a].recs[i])
    ensures var g := MarkedFlash(f, a, i);
            |g| == |f| && i < |g[a].recs| && g[a].recs[i] == f[a].recs[i].(status := PreDelete)
            && (f[a].recs[i].status == PreDelete ==> g == f)
  {
  }

  lemma RoomFor(c: Config, f: Flash, t: nat, size: nat, gc: bool)
    requires Chosen(c, f, t, size, gc)
    ensures t < |f| && size < Remain(c, f[t]) && f[t].store != Full
  {
    ChosenRoom(c, f, t, size, gc);
  }

  /** The live record (a, i) of f0 is PRE_DELETE in f1: by this step, or as the pending one. */
  ghost predicate MarkOutcome(f0: Flash, f1: Flash, a: nat, i: nat, p: Option<(Key, Value)>)
    requires a < |f0| && i < |f0[a].recs|
  {
    var r := f0[a].recs[i];
    var one := multiset{(r.key, r.value)};
    if r.status == Write then
      Total(f1, Write) + one == Total(f0, Write) && Total(f1, PreDelete) == Total(f0, PreDelete) + one
    else p != None && f1 == f0 && (r.key, r.value) in Total(f0, PreDelete)
  }

  /** What a completed move means for the map recovery would give. */
  lemma MoveOutcome(f0: Flash, f1: Flash, f2: Flash, f3: Flash, a: nat, i: nat,
                    m: map<Key, Value>, p: Option<(Key, Value)>)
    requires a < |f0| && i < |f0[a].recs| && Live(f0[a].recs[i]) && Pending(f0, m, p)
    requires var r := f0[a].recs[i];
             var one := multiset{(r.key, r.value)};
             && MarkOutcome(f0, f1, a, i, p)
             && (forall w :: (r.key, w) !in Total(f1, Write))
             && Total(f2, Write) == Total(f1, Write) + one == Total(f3, Write)
             && Total(f2, PreDelete) == Total(f1, PreDelete) == Total(f3, PreDelete) + one
    ensures Pending(f3, m, if f0[a].recs[i].status == Write then p else None)
    ensures p == None || f0[a].recs[i].status == PreDelete ==>
              var pair := (f0[a].recs[i].key, f0[a].recs[i].value);
              Pending(f1, m, Some(pair)) && Pending(f2, m, Some(pair)) && Pending(f3, m, None)
  {
    hide Total;
    var r := f0[a].recs[i];
    if r.status == Write {
      MultisetCancel(Total(f3, PreDelete), Total(f0, PreDelete), multiset{(r.key, r.value)});
      SamePending(f3, f0, m, p);
      if p == None {
        MoveStates(f0, f1, f2, m, r.key, r.value);
      }
    } else {
      Revived(f0, f3, m, p, r.key, r.value);
    }
  }

  /** The steps of a move add up to `Moved`, also when a record moves within its sector. */
  lemma MovedSteps(c: Config, f0: Flash, f1: Flash, f2: Flash, f3: Flash, a: nat, i: nat, t: nat)
    requires a < |f0| && i < |f0[a].recs| && Live(f0[a].recs[i]) && t < |f0|
    requires f1 == f0 || f1 == f0[a := Soil(Restatus(f0[a], i, PreDelete))]
    requires f1[a].recs[i].status == PreDelete
    requires f2 == f1[t := Admit(c, f1[t], f1[a].recs[i].(status := Write))]
    requires f3 == f2[a := Soil(Restatus(f2[a], i, Deleted))]
    ensures f3 == Moved(c, f0, a, i, Some(t))
  {
    hide Used;
    var r := f0[a].recs[i];
    var g := f0[a := Retire(f0[a], i)];
    UsedSameLens(f1[t].recs, g[t].recs);
    assert f1[a].recs[i].(status := Write) == r.(status := Write);
    if t == a {
      assert f3[a].recs == g[a].recs + [r.(status := Write)];
    } else {
      assert f3[a].recs == g[a].recs;
      assert f3[t] == Admit(c, g[t], r.(status := Write));
    }
    assert f3 == g[t := Admit(c, g[t], r.(status := Write))];
  }

  /** After a move the new record is there and no other record has gone. */
  lemma MovedWrites(c: Config, f: Flash, a: nat, i: nat, t: nat)
    requires a < |f| && i < |f[a].recs| && Live(f[a].recs[i]) && t < |f|
    ensures var f' := Moved(c, f, a, i, Some(t));
            var r := f[a].recs[i];
            var dest := Addr(t, |f[t].recs|);
            && IsWrite(f', dest) && f'[t].recs[dest.rec] == r.(status := Write)
            && forall b: Addr | IsWrite(f, b) && b != Addr(a, i) ::
                 IsWrite(f', b) && f'[b.sec].recs[b.rec] == f[b.sec].recs[b.rec]
  {
    hide Used;
  }

  lemma PendingNone(f: Flash, m: map<Key, Value>, p: Option<(Key, Value)>)
    requires Pending(f, m, p)
    ensures p == None ==> Denotes(f, m) && forall x :: x !in Total(f, PreDelete)
    ensures p.Some? ==> forall x :: x in Total(f, PreDelete) <==> x == p.value
  {
    hide Total;
  }

  lemma GoodLength(c: Config, f: Flash, s: nat, i: nat)
    requires Shape(c, f) && s < |f| && i < |f[s].recs| && f[s].recs[i].good
    ensures c.hdr <= f[s].recs[i].len
  {
  }

  lemma NameKnown(f: Flash, m: map<Key, Value>, p: Option<(Key, Value)>, s: nat, i: nat)
    requires Pending(f, m, p) && s < |f| && i < |f[s].recs| && Live(f[s].recs[i])
    ensures f[s].recs[i].key in m
  {
    hide Total, Pending;
    var r := f[s].recs[i];
    Present(f, s, i, r.status);
    if r.status == Write {
      WrittenOnce(f, m, p, r.key, r.value);
    } else {
      PendingNone(f, m, p);
      PendingName(f, m, p);
    }
  }

  lemma PendingName(f: Flash, m: map<Key, Value>, p: Option<(Key, Value)>)
    requires Pending(f, m, p)
    ensures p.Some? ==> p.value.0 in m
  {
  }

  /** A completed move keeps the map; a pending record is dealt with by its own move. */
  lemma MoveKeeps(c: Config, f: Flash, a: nat, i: nat, gc: bool, rec: bool, m: map<Key, Value>, p: Option<(Key, Value)>)
    requires a < |f| && i < |f[a].recs| && Live(f[a].recs[i]) && Pending(f, m, p) && Movable(m, p, rec)
    requires Target(c, f, a, i, gc, rec).Some?
    ensures var g := Move(c, f, a, i, gc, rec);
            if f[a].recs[i].status == Write then Pending(g, m, p) && Total(g, Write) == Total(f, Write)
            else Denotes(g, m)
  {
    hide Total, Pick, Pending, Moved, KeyStored, Denotes, MarkedFlash;
    var r := f[a].recs[i];
    var f1 := MarkedFlash(f, a, i);
    MarkedRecord(f, a, i);
    MarkedMeans(f, a, i, m, p);
    var t := Target(c, f, a, i, gc, rec).value;
    if t.None? {
      NameKnown(f, m, p, a, i);
      StoredMeans(f1, r.key);
      DropKeeps(c, f, a, i, m, p);
    } else {
      PickIsChosen(c, f1, r.len, gc);
      RoomFor(c, f1, t.value, r.len, gc);
      if rec {
        NameKnown(f, m, p, a, i);
        NotStoredMeans(f1, r.key);
      }
      CopyKeeps(c, f, a, i, t.value, m, p);
    }
  }

  lemma MarkedMeans(f: Flash, a: nat, i: nat, m: map<Key, Value>, p: Option<(Key, Value)>)
    requires a < |f| && i < |f[a].recs| && Live(f[a].recs[i]) && Pending(f, m, p)
    ensures MarkOutcome(f, MarkedFlash(f, a, i), a, i, p)
    ensures f[a].recs[i].status == Write ==> forall w :: (f[a].recs[i].key, w) !in Total(MarkedFlash(f, a, i), Write)
  {
    hide Total, Pending;
    var r := f[a].recs[i];
    var g := MarkedFlash(f, a, i);
    Present(f, a, i, r.status);
    PendingNone(f, m, p);
    if r.status == Write {
      Marked(f, a, i, g[a]);
      NoSecond(f, g, m, p, r.key, r.value);
    }
  }

  lemma StoredMeans(f: Flash, k: Key)
    requires KeyStored(f, k)
    ensures exists w :: (k, w) in Total(f, Write)
  {
    hide Total;
    var s: nat :| s < |f| && HasKey(f[s].recs, k);
    var i: nat :| i < |f[s].recs| && Matches(f[s].recs[i], k);
    MatchesName(f[s].recs[i], k);
    Present(f, s, i, Write);
  }

  lemma NotStoredMeans(f: Flash, k: Key)
    requires !KeyStored(f, k) && |k| < KV_NAME_MAX
    ensures forall w :: (k, w) !in Total(f, Write)
  {
    hide Total;
    forall w
      ensures (k, w) !in Total(f, Write)
    {
      forall s, i | 0 <= s < |f| && 0 <= i < |f[s].recs|
        ensures !(f[s].recs[i].good && f[s].recs[i].status == Write && f[s].recs[i].key == k)
      {
        assert !HasKey(f[s].recs, k);
        MatchesName(f[s].recs[i], k);
      }
      Absent(f, k, w, Write);
    }
  }

  /** A pending record whose name is stored is deleted. */
  lemma DropKeeps(c: Config, f: Flash, a: nat, i: nat, m: map<Key, Value>, p: Option<(Key, Value)>)
    requires a < |f| && i < |f[a].recs| && Live(f[a].recs[i]) && Pending(f, m, p)
    requires MarkOutcome(f, MarkedFlash(f, a, i), a, i, p) && MarkedFlash(f, a, i) == f
    requires exists w :: (f[a].recs[i].key, w) in Total(f, Write)
    requires f[a].recs[i].status == PreDelete
    ensures Denotes(Moved(c, f, a, i, None), m)
  {
    hide Total, Pending;
    var r := f[a].recs[i];
    var w :| (r.key, w) in Total(f, Write);
    var g := Moved(c, f, a, i, None);
    Present(f, a, i, PreDelete);
    Finished(f, a, i, g[a], PreDelete);
    Duplicate(f, g, m, p, r.key, r.value, w);
  }

  /** A record whose name is not stored is copied and then deleted. */
  lemma CopyKeeps(c: Config, f: Flash, a: nat, i: nat, t: nat, m: map<Key, Value>, p: Option<(Key, Value)>)
    requires a < |f| && i < |f[a].recs| && Live(f[a].recs[i]) && Pending(f, m, p) && t < |f|
    requires MarkOutcome(f, MarkedFlash(f, a, i), a, i, p)
    requires forall w :: (f[a].recs[i].key, w) !in Total(MarkedFlash(f, a, i), Write)
    ensures var g := Moved(c, f, a, i, Some(t));
            if f[a].recs[i].status == Write then Pending(g, m, p) && Total(g, Write) == Total(f, Write)
            else Denotes(g, m)
  {
    hide Total, Pending, Used, StoreAfter;
    var r := f[a].recs[i];
    var f1 := MarkedFlash(f, a, i);
    var f2 := Copied(c, f, a, i, t);
    var f3 := f2[a := Soil(Restatus(f2[a], i, Deleted))];
    CopiedMeans(c, f, a, i, t);
    Finished(f2, a, i, f3[a], PreDelete);
    MovedSteps(c, f, f1, f2, f3, a, i, t);
    MoveOutcome(f, f1, f2, f3, a, i, m, p);
    DenotesPending(f3, m);
  }

  /** The flash with the copy complete and the original still PRE_DELETE. */
  function Copied(c: Config, f: Flash, a: nat, i: nat, t: nat): Flash
    requires a < |f| && i < |f[a].recs| && t < |f|
  {
    var f1 := MarkedFlash(f, a, i);
    f1[t := Admit(c, f1[t], f[a].recs[i].(status := Write))]
  }

  lemma CopiedMeans(c: Config, f: Flash, a: nat, i: nat, t: nat)
    requires a < |f| && i < |f[a].recs| && Live(f[a].recs[i]) && t < |f|
    ensures var f1 := MarkedFlash(f, a, i);
            var f2 := Copied(c, f, a, i, t);
            var one := multiset{(f[a].recs[i].key, f[a].recs[i].value)};
            && |f2| == |f| && i < |f2[a].recs| && f2[a].recs[i] == f[a].recs[i].(status := PreDelete)
            && Total(f2, Write) == Total(f1, Write) + one && Total(f2, PreDelete) == Total(f1, PreDelete)
  {
    hide Total, Used, StoreAfter;
    var f1 := MarkedFlash(f, a, i);
    var w := f[a].recs[i].(status := Write);
    var sec := Admit(c, f1[t], w);
    RecAdded(f1, t, sec, w, Write);
    RecAdded(f1, t, sec, w, PreDelete);
    assert Total(f1, PreDelete) + multiset{} == Total(f1, PreDelete);
  }

  lemma DenotesPending(f: Flash, m: map<Key, Value>)
    ensures Denotes(f, m) <==> Pending(f, m, None)
  {
  }

  // ---------- one sector ----------

  ghost predicate PendingAt(f: Flash, s: nat, i: nat) {
    s < |f| && i < |f[s].recs| && f[s].recs[i].good && f[s].recs[i].status == PreDelete
  }

  ghost predicate PendingIn(f: Flash, s: nat) {
    exists i: nat :: PendingAt(f, s, i)
  }

  /** Every entry of m has its WRITE record. */
  ghost predicate Whole(f: Flash, m: map<Key, Value>) {
    Total(f, Write) == Items(m)
  }

  /** One turn of do_gc's loop.  q stands for what is pending afterwards. */
  lemma StepKeeps(c: Config, f: Flash, a: nat, i: nat, rec: bool, m: map<Key, Value>, p: Option<(Key, Value)>)
    returns (q: Option<(Key, Value)>)
    requires a < |f| && i < |f[a].recs| && f[a].dirty == Collecting && Pending(f, m, p) && Movable(m, p, rec)
    requires Placed(c, f, a, i, rec)
    ensures Pending(Step(c, f, a, i, rec), m, q) && (q == p || q == None)
    ensures Whole(f, m) || PendingAt(f, a, i) ==> Whole(Step(c, f, a, i, rec), m)
    ensures !PendingAt(f, a, i) ==> q == p
    ensures PendingAt(f, a, i) && q.Some? ==> PendingAt(Step(c, f, a, i, rec), a, i)
    ensures PendingAt(Step(c, f, a, i, rec), a, i) ==> PendingAt(f, a, i)
  {
    hide Total, Pick, Target, KeyStored, Denotes, Pending, Used, StoreAfter, Chosen;
    NotPicked(c, f, a, i, rec);
    var r := f[a].recs[i];
    q := p;
    if Live(r) {
      if Target(c, f, a, i, true, rec).Some? {
        MoveKeeps(c, f, a, i, true, rec, m, p);
        if r.status == PreDelete {
          q := None;
          DenotesPending(Step(c, f, a, i, rec), m);
          DenotesWhole(Step(c, f, a, i, rec), m);
        }
      } else {
        StoredWhole(f, a, i, m, p);
      }
    }
  }

  lemma DenotesWhole(f: Flash, m: map<Key, Value>)
    requires Denotes(f, m)
    ensures Whole(f, m)
  {
  }

  /** A pending record whose name is stored is not needed. */
  lemma StoredWhole(f: Flash, a: nat, i: nat, m: map<Key, Value>, p: Option<(Key, Value)>)
    requires PendingAt(f, a, i) && KeyStored(f, f[a].recs[i].key) && Pending(f, m, p)
    ensures Whole(f, m)
  {
    hide Total, KeyStored;
    var r := f[a].recs[i];
    Present(f, a, i, PreDelete);
    PendingNone(f, m, p);
    StoredMeans(f, r.key);
    var w :| (r.key, w) in Total(f, Write);
    WrittenOnce(f, m, p, r.key, w);
  }

  lemma {:induction false} AfterKeeps(c: Config, f: Flash, a: nat, i: nat, rec: bool, m: map<Key, Value>,
                                      p: Option<(Key, Value)>)
    returns (q: Option<(Key, Value)>)
    requires a < |f| && i <= |f[a].recs| && f[a].dirty == Collecting && Pending(f, m, p) && Movable(m, p, rec)
    requires forall j | 0 <= j < i :: Placed(c, After(c, f, a, j, rec), a, j, rec)
    ensures Pending(After(c, f, a, i, rec), m, q) && (q == p || q == None)
    ensures (exists j: nat :: j < i && PendingAt(f, a, j)) ==> Whole(After(c, f, a, i, rec), m)
    ensures (forall j: nat | j < i :: !PendingAt(f, a, j)) ==> q == p
    ensures q.Some? ==> forall j: nat | j < i && PendingAt(f, a, j) :: PendingAt(After(c, f, a, i, rec), a, j)
    ensures forall j: nat | j < i && PendingAt(After(c, f, a, i, rec), a, j) :: PendingAt(f, a, j)
    decreases i
  {
    hide Step, Pending, Placed, Whole, Fresh;
    if i == 0 {
      q := p;
    } else {
      q := AfterKeeps(c, f, a, i - 1, rec, m, p);
      AfterGrows(c, f, a, i - 1, rec);
      StepGrows(c, After(c, f, a, i - 1, rec), a, i - 1, rec);
      var g := After(c, f, a, i - 1, rec);
      q := StepKeeps(c, g, a, i - 1, rec, m, q);
      assert PendingAt(g, a, i - 1) <==> PendingAt(f, a, i - 1);
      forall j: nat | j < i - 1
        ensures PendingAt(After(c, f, a, i, rec), a, j) <==> PendingAt(g, a, j)
      {
      }
    }
  }

  /** Formatting a sector whose live records are not needed. */
  lemma EraseKeeps(f: Flash, a: nat, m: map<Key, Value>, p: Option<(Key, Value)>)
    requires a < |f| && Pending(f, m, p) && (PendingIn(f, a) ==> Whole(f, m))
    requires forall i | 0 <= i < |f[a].recs| :: !(f[a].recs[i].good && f[a].recs[i].status == Write)
    ensures Pending(f[a := FORMATTED], m, if PendingIn(f, a) then None else p)
    ensures Total(f[a := FORMATTED], Write) == Total(f, Write)
  {
    hide Total, Pairs;
    var g := f[a := FORMATTED];
    Erased(f, a, Write);
    if PendingIn(f, a) {
      var i: nat :| PendingAt(f, a, i);
      var r := f[a].recs[i];
      Present(f, a, i, PreDelete);
      PairsHas(f[a].recs, i, PreDelete);
      PendingNone(f, m, p);
      TotalUpdate(f, a, FORMATTED, PreDelete);
      DeadPairs(FORMATTED.recs, PreDelete);
      OnlyOne(Total(g, PreDelete), Pairs(f[a].recs, PreDelete), Total(f, PreDelete), (r.key, r.value));
    } else {
      forall i | 0 <= i < |f[a].recs|
        ensures !(f[a].recs[i].good && f[a].recs[i].status == PreDelete)
      {
        assert !PendingAt(f, a, i);
      }
      Erased(f, a, PreDelete);
      SamePending(g, f, m, p);
    }
  }

  lemma OnlyOne<T>(a: multiset<T>, b: multiset<T>, whole: multiset<T>, x: T)
    requires a + b == whole + multiset{} && whole == multiset{x} && x in b
    ensures a == multiset{}
  {
    forall y
      ensures a[y] == 0
    {
      assert (a + b)[y] == a[y] + b[y] == whole[y];
    }
  }

  /** Collecting a sector in which every record finds its place. */
  lemma SectorKeeps(c: Config, f: Flash, a: nat, rec: bool, m: map<Key, Value>, p: Option<(Key, Value)>)
    returns (q: Option<(Key, Value)>)
    requires a < |f| && Pending(f, m, p) && Movable(m, p, rec) && SectorFits(c, f, a, rec)
    ensures Pending(CollectSector(c, f, a, rec), m, q)
    ensures q == if f[a].dirty != Clean && PendingIn(f, a) then None else p
  {
    hide Pending, Placed, Whole, Total, Step, Denotes, Fresh;
    q := p;
    if f[a].dirty != Clean {
      var g := Begun(f, a);
      BegunSame(f, a);
      SamePending(g, f, m, p);
      var n := |f[a].recs|;
      AfterGrows(c, g, a, n, rec);
      q := AfterKeeps(c, g, a, n, rec, m, p);
      var h := After(c, g, a, n, rec);
      if PendingIn(h, a) {
        var i: nat :| PendingAt(h, a, i);
        assert PendingAt(g, a, i) && PendingAt(f, a, i);
      }
      EraseKeeps(h, a, m, q);
      if PendingIn(f, a) {
        var i: nat :| PendingAt(f, a, i);
        assert PendingAt(g, a, i);
        q := None;
      } else {
        assert forall j: nat :: PendingAt(g, a, j) ==> PendingAt(f, a, j);
      }
    }
  }

  lemma BegunSame(f: Flash, a: nat)
    requires a < |f|
    ensures SameLive(Begun(f, a), f) && Empties(Begun(f, a)) == Empties(f)
  {
    hide Total;
    var sec := f[a].(dirty := Collecting);
    SameRecs(f, a, sec, Write);
    SameRecs(f, a, sec, PreDelete);
    EmptiesUpdate(f, a, sec);
  }
}
