/**
 Room for a collection, also for one that was cut and is taken up again, and what a cut anywhere
 leaves behind.
 */
module KvCuts {
  import opened Basics
  import opened KvFlash
  import opened KvSteps
  import opened KvCache
  import opened KvGc
  import opened KvCollect
  import opened KvKeeps

  // ---------- the flash keeps its shape ----------

  lemma MoveShape(c: Config, f: Flash, a: nat, i: nat, gc: bool, rec: bool)
    requires Shape(c, f) && a < |f| && i < |f[a].recs| && Live(f[a].recs[i])
    ensures Shape(c, Move(c, f, a, i, gc, rec))
  {
    hide SecOk, Used, Pick, KeyStored, Chosen;
    var f1 := MarkedFlash(f, a, i);
    var w := f[a].recs[i].(status := Write);
    MarkedOk(c, f, a, i);
    RestatusOk(c, f[a], i, Deleted);
    RetireOk(c, f, a, i);
    PickIsChosen(c, f1, f[a].recs[i].len, gc);
    match Target(c, f, a, i, gc, rec)
    case None =>
    case Some(None) =>
    case Some(Some(t)) =>
      RoomFor(c, f1, t, w.len, gc);
      GoodLength(c, f, a, i);
      var g := f[a := Retire(f[a], i)];
      SameRemain(c, f, a, i, t);
      PositiveLen(c, f, a, i);
      AdmitHere(c, g, t, w);
  }

  lemma RetireOk(c: Config, f: Flash, a: nat, i: nat)
    requires Shape(c, f) && a < |f| && i < |f[a].recs|
    ensures Shape(c, f[a := Retire(f[a], i)])
  {
    hide Used;
    RestatusOk(c, f[a], i, Deleted);
    assert SecOk(c, Retire(f[a], i));
  }

  lemma PositiveLen(c: Config, f: Flash, a: nat, i: nat)
    requires Shape(c, f) && a < |f| && i < |f[a].recs|
    ensures f[a].recs[i].len > 0 && f[a].store != Empty
  {
    assert SecOk(c, f[a]);
  }

  lemma SameRemain(c: Config, f: Flash, a: nat, i: nat, t: nat)
    requires a < |f| && i < |f[a].recs| && t < |f|
    ensures var g, h := f[a := Retire(f[a], i)], MarkedFlash(f, a, i);
            Remain(c, g[t]) == Remain(c, h[t]) && g[t].store == h[t].store
  {
    hide Used;
    var g, h := f[a := Retire(f[a], i)], MarkedFlash(f, a, i);
    UsedSameLens(g[t].recs, h[t].recs);
  }

  lemma AdmitHere(c: Config, f: Flash, t: nat, r: Rec)
    requires Shape(c, f) && t < |f| && f[t].store != Full && 0 < r.len < Remain(c, f[t])
    requires r.good ==> c.hdr <= r.len
    ensures Shape(c, f[t := Admit(c, f[t], r)])
  {
    hide SecOk;
    AdmitOk(c, f[t], r);
    ShapeUpdate(c, f, t, Admit(c, f[t], r));
  }

  lemma {:induction false} AfterShape(c: Config, f: Flash, a: nat, i: nat, rec: bool)
    requires Shape(c, f) && a < |f| && i <= |f[a].recs|
    ensures Shape(c, After(c, f, a, i, rec))
    decreases i
  {
    hide Shape, Move;
    if i > 0 {
      AfterShape(c, f, a, i - 1, rec);
      var g := After(c, f, a, i - 1, rec);
      if Live(g[a].recs[i - 1]) {
        MoveShape(c, g, a, i - 1, true, rec);
      }
    }
  }

  lemma BegunShape(c: Config, f: Flash, a: nat)
    requires Shape(c, f) && a < |f| && f[a].dirty != Clean
    ensures Shape(c, Begun(f, a)) && f[a].store != Empty
  {
    assert SecOk(c, f[a]);
    assert SecOk(c, f[a].(dirty := Collecting));
  }

  lemma SectorShape(c: Config, f: Flash, a: nat, rec: bool)
    requires Shape(c, f) && a < |f|
    ensures Shape(c, CollectSector(c, f, a, rec))
    ensures f[a].dirty != Clean ==> Empties(CollectSector(c, f, a, rec)) >= 1
  {
    hide SecOk, Empties, After;
    if f[a].dirty != Clean {
      BegunShape(c, f, a);
      AfterShape(c, Begun(f, a), a, |f[a].recs|, rec);
      var g := After(c, Begun(f, a), a, |f[a].recs|, rec);
      FormattedOk(c);
      ShapeUpdate(c, g, a, FORMATTED);
      NoEmpty(g[a := FORMATTED], a);
    }
  }

  lemma FormattedOk(c: Config)
    ensures SecOk(c, FORMATTED)
  {
  }

  // ---------- room for a collection ----------

  /** Record j of the sector needs no room: it is dead, or a PRE_DELETE record whose name is stored. */
  ghost predicate Idle(f: Flash, a: nat, j: nat, rec: bool)
    requires a < |f| && j < |f[a].recs|
  {
    Live(f[a].recs[j]) ==> rec && f[a].recs[j].status == PreDelete && KeyStored(f, f[a].recs[j].key)
  }

  lemma HasKeyKept(a: seq<Rec>, b: seq<Rec>, i: nat, k: Key)
    requires HasKey(a, k) && i < |a| == |b| && a[i].status != Write && b == a[i := b[i]]
    ensures HasKey(b, k)
  {
    var j: nat :| j < |a| && Matches(a[j], k);
    assert b[j] == a[j];
  }

  lemma KeyKept(f: Flash, g: Flash, a: nat, i: nat, k: Key)
    requires KeyStored(f, k) && a < |f| == |g| && i < |f[a].recs| == |g[a].recs|
    requires f[a].recs[i].status != Write && g[a].recs == f[a].recs[i := g[a].recs[i]]
    requires forall x | 0 <= x < |f| && x != a :: g[x] == f[x]
    ensures KeyStored(g, k)
  {
    hide HasKey;
    var s: nat :| s < |f| && HasKey(f[s].recs, k);
    if s == a {
      HasKeyKept(f[a].recs, g[a].recs, i, k);
    }
    assert HasKey(g[s].recs, k);
  }

  lemma StoredShort(f: Flash, k: Key)
    ensures KeyStored(f, k) ==> NameRead(k) == k
  {
    hide KeyStored;
    StoredIff(f, k);
  }

  /** The turn of a record that needs no room. */
  lemma IdleTurn(c: Config, f: Flash, a: nat, i: nat, rec: bool)
    requires a < |f| && i < |f[a].recs| && Idle(f, a, i, rec)
    ensures var g := Step(c, f, a, i, rec);
            g == f || (f[a].recs[i].status == PreDelete && g == f[a := Retire(f[a], i)])
  {
    hide KeyStored, Pick;
    StoredShort(f, f[a].recs[i].key);
  }

  /** Going over records that need no room touches no other sector. */
  lemma {:induction false} LeadIn(c: Config, f: Flash, a: nat, i: nat, rec: bool)
    requires a < |f| && i <= |f[a].recs| && f[a].dirty == Collecting && f[a].store != Empty
    requires forall j | 0 <= j < i :: Idle(f, a, j, rec)
    ensures var g := After(c, f, a, i, rec);
            && (forall x | 0 <= x < |f| && x != a :: g[x] == f[x]) && Empties(g) == Empties(f)
            && forall k | KeyStored(f, k) :: KeyStored(g, k)
    decreases i
  {
    hide KeyStored, Empties, Step;
    if i > 0 {
      LeadIn(c, f, a, i - 1, rec);
      AfterGrows(c, f, a, i - 1, rec);
      var g := After(c, f, a, i - 1, rec);
      var h := Step(c, g, a, i - 1, rec);
      assert g[a].recs[i - 1] == f[a].recs[i - 1] && Idle(f, a, i - 1, rec);
      IdleTurn(c, g, a, i - 1, rec);
      EmptiesUpdate(g, a, h[a]);
      if h != g {
        forall k | KeyStored(f, k)
          ensures KeyStored(h, k)
        {
          KeyKept(g, h, a, i - 1, k);
        }
      }
    }
  }

  /** From record i0 on, with the spill sector e0 taken or not, the space argument carries on. */
  lemma {:induction false} SpillAfter(c: Config, f: Flash, a: nat, i0: nat, e0: Option<nat>, empties: nat, i: nat,
                                      rec: bool)
    returns (e: Option<nat>)
    requires Shape(c, f) && a < |f| && Underway(f, a, f[a]) && i0 <= i <= |f[a].recs| && empties >= 1
    requires Spill(c, f, a, f[a].recs, i0, e0, empties) && forall j | 0 <= j < i0 :: Idle(f, a, j, rec)
    ensures Spill(c, After(c, f, a, i, rec), a, f[a].recs, i, e, empties)
    ensures Underway(After(c, f, a, i, rec), a, f[a])
    decreases i
  {
    hide Shape, Step, KeyStored, Empties, Used, Idle, SecOk;
    AfterGrows(c, f, a, i, rec);
    if i == i0 {
      LeadIn(c, f, a, i0, rec);
      e := e0;
    } else {
      e := SpillAfter(c, f, a, i0, e0, empties, i - 1, rec);
      AfterShape(c, f, a, i - 1, rec);
      AfterGrows(c, f, a, i - 1, rec);
      SecOkAt(c, f, a);
      e := SpillTurn(c, After(c, f, a, i - 1, rec), a, f[a], i - 1, e, empties, rec);
    }
  }

  lemma SpillTurn(c: Config, g: Flash, a: nat, sec0: Sector, i: nat, e: Option<nat>, empties: nat, rec: bool)
    returns (e': Option<nat>)
    requires Shape(c, g) && Underway(g, a, sec0) && i < |sec0.recs| && empties >= 1 && SecOk(c, sec0)
    requires Spill(c, g, a, sec0.recs, i, e, empties)
    ensures Spill(c, Step(c, g, a, i, rec), a, sec0.recs, i + 1, e', empties)
  {
    hide Pick, KeyStored, Empties, Used, SecOk, Moved, Spill, Chosen;
    if Live(g[a].recs[i]) {
      var s := GcRoom(c, g, a, sec0, i, e, empties);
      var f1 := MarkedFlash(g, a, i);
      NotPicked(c, g, a, i, rec);
      PickIsChosen(c, f1, g[a].recs[i].len, true);
      e' := GcMove(c, g, a, sec0, i, e, empties, Target(c, g, a, i, true, rec).value);
    } else {
      SpillSkip(c, g, g, a, sec0, i, e, empties);
      e' := e;
    }
  }

  lemma SecOkAt(c: Config, f: Flash, a: nat)
    requires Shape(c, f) && a < |f|
    ensures SecOk(c, f[a])
  {
  }

  /** Where the space argument applies from record i0 on, every record finds its place. */
  lemma SpillFits(c: Config, f: Flash, a: nat, i0: nat, e0: Option<nat>, empties: nat, rec: bool)
    requires Shape(c, f) && a < |f| && Underway(f, a, f[a]) && i0 <= |f[a].recs| && empties >= 1
    requires Spill(c, f, a, f[a].recs, i0, e0, empties) && forall j | 0 <= j < i0 :: Idle(f, a, j, rec)
    ensures SectorFits(c, f, a, rec)
  {
    hide Shape, Pick, KeyStored, Empties, Used, Idle, SecOk, Spill, Placed, After;
    assert Begun(f, a) == f;
    SecOkAt(c, f, a);
    forall i | 0 <= i < |f[a].recs|
      ensures Placed(c, After(c, f, a, i, rec), a, i, rec)
    {
      AfterGrows(c, f, a, i, rec);
      var g := After(c, f, a, i, rec);
      if i < i0 {
        LeadIn(c, f, a, i, rec);
        IdlePlaced(c, f, g, a, i, rec);
      } else {
        var e := SpillAfter(c, f, a, i0, e0, empties, i, rec);
        AfterShape(c, f, a, i, rec);
        var s := GcRoom(c, g, a, f[a], i, e, empties);
        RoomPlaced(c, g, a, i, s, rec);
      }
    }
  }

  lemma IdlePlaced(c: Config, f: Flash, g: Flash, a: nat, i: nat, rec: bool)
    requires a < |f| == |g| && i < |f[a].recs| == |g[a].recs| && g[a].recs[i] == f[a].recs[i] && Idle(f, a, i, rec)
    requires forall k | KeyStored(f, k) :: KeyStored(g, k)
    ensures Placed(c, g, a, i, rec)
  {
    hide KeyStored, Target;
  }

  lemma RoomPlaced(c: Config, g: Flash, a: nat, i: nat, s: nat, rec: bool)
    requires a < |g| && i < |g[a].recs| && Allocatable(c, MarkedFlash(g, a, i), s, g[a].recs[i].len, true)
    ensures Placed(c, g, a, i, rec)
  {
    hide Pick, KeyStored, Allocatable, MarkedFlash;
    PickIsChosen(c, MarkedFlash(g, a, i), g[a].recs[i].len, true);
  }

  /** With an EMPTY sector to start with, every record finds its place. */
  lemma ReserveFits(c: Config, f: Flash, a: nat, rec: bool)
    requires Shape(c, f) && a < |f| && Empties(f) >= 1
    ensures SectorFits(c, f, a, rec)
  {
    hide SecOk, Used, Placed, After, Empties;
    if f[a].dirty != Clean {
      BegunShape(c, f, a);
      BegunSame(f, a);
      SpillFits(c, Begun(f, a), a, 0, None, Empties(f), rec);
      assert Begun(Begun(f, a), a) == Begun(f, a);
    }
  }

  // ---------- a whole collection ----------

  predicate FirstDirty(f: Flash, d: nat) {
    d < |f| && f[d].dirty != Clean && forall x | 0 <= x < d :: f[x].dirty == Clean
  }

  /** There is an EMPTY sector to start with, or the first collection does without. */
  ghost predicate Fitting(c: Config, f: Flash, rec: bool) {
    Empties(f) >= 1 || exists d: nat :: FirstDirty(f, d) && SectorFits(c, f, d, rec)
  }

  /** Once one sector was formatted there is an EMPTY one. */
  lemma {:induction false} UpToReserve(c: Config, f: Flash, s: nat, rec: bool)
    requires Shape(c, f) && s <= |f|
    ensures Shape(c, UpTo(c, f, s, rec))
    ensures Empties(f) >= 1 || (exists x | 0 <= x < s :: f[x].dirty != Clean) ==> Empties(UpTo(c, f, s, rec)) >= 1
    decreases s
  {
    hide Shape, Empties, CollectSector;
    if s > 0 {
      UpToReserve(c, f, s - 1, rec);
      UpToSweeps(c, f, s - 1, rec);
      var g := UpTo(c, f, s - 1, rec);
      SectorShape(c, g, s - 1, rec);
      if g[s - 1].dirty == Clean {
        assert UpTo(c, f, s, rec) == g by {
          CleanStays(c, g, s - 1, rec);
        }
      }
    }
  }

  lemma CleanStays(c: Config, f: Flash, a: nat, rec: bool)
    requires a < |f| && f[a].dirty == Clean
    ensures CollectSector(c, f, a, rec) == f
  {
  }

  lemma UpToFits(c: Config, f: Flash, s: nat, rec: bool)
    requires Shape(c, f) && s < |f| && Fitting(c, f, rec)
    ensures SectorFits(c, UpTo(c, f, s, rec), s, rec)
  {
    hide Shape, Empties, UpTo, SectorFits;
    UpToReserve(c, f, s, rec);
    UpToSweeps(c, f, s, rec);
    var g := UpTo(c, f, s, rec);
    if Empties(g) >= 1 {
      ReserveFits(c, g, s, rec);
    } else {
      var d: nat :| FirstDirty(f, d) && SectorFits(c, f, d, rec);
      assert s <= d;
      UpToClean(c, f, s, rec);
      if s < d {
        CleanFits(c, f, s, rec);
      }
    }
  }

  lemma CleanFits(c: Config, f: Flash, s: nat, rec: bool)
    requires s < |f| && f[s].dirty == Clean
    ensures SectorFits(c, f, s, rec)
  {
  }

  ghost predicate PendingDirt(f: Flash, s: nat) {
    exists x: nat :: x < s && x < |f| && f[x].dirty != Clean && PendingIn(f, x)
  }

  lemma {:induction false} UpToKeeps(c: Config, f: Flash, s: nat, rec: bool, m: map<Key, Value>, p: Option<(Key,
                                     Value)>)
    returns (q: Option<(Key, Value)>)
    requires Shape(c, f) && s <= |f| && Pending(f, m, p) && Movable(m, p, rec) && Fitting(c, f, rec)
    ensures Pending(UpTo(c, f, s, rec), m, q) && q == if PendingDirt(f, s) then None else p
    decreases s
  {
    hide Shape, Pending, CollectSector, SectorFits, Fitting, PendingIn;
    q := p;
    if s > 0 {
      q := UpToKeeps(c, f, s - 1, rec, m, p);
      UpToFits(c, f, s - 1, rec);
      UpToSweeps(c, f, s - 1, rec);
      var g := UpTo(c, f, s - 1, rec);
      q := SectorKeeps(c, g, s - 1, rec, m, q);
      SamePendingIn(f, g, s - 1);
      if PendingDirt(f, s) && !PendingDirt(f, s - 1) {
        var x: nat :| x < s && x < |f| && f[x].dirty != Clean && PendingIn(f, x);
        assert x == s - 1;
      }
      if PendingDirt(f, s - 1) {
        var x: nat :| x < s - 1 && x < |f| && f[x].dirty != Clean && PendingIn(f, x);
        assert PendingDirt(f, s);
      }
    }
  }

  lemma SamePendingIn(f: Flash, g: Flash, s: nat)
    requires s < |f| == |g| && f[s].recs <= g[s].recs && Fresh(g[s].recs, |f[s].recs|)
    ensures PendingIn(g, s) <==> PendingIn(f, s)
  {
    forall i: nat
      ensures PendingAt(g, s, i) <==> PendingAt(f, s, i)
    {
      if i < |f[s].recs| {
        assert g[s].recs[i] == f[s].recs[i];
      }
    }
  }

  /** gc_collect keeps the map, resolves what is pending in a dirty sector, and leaves an EMPTY sector. */
  lemma CollectKeeps(c: Config, f: Flash, rec: bool, m: map<Key, Value>, p: Option<(Key, Value)>)
    returns (q: Option<(Key, Value)>)
    requires Shape(c, f) && Pending(f, m, p) && Movable(m, p, rec) && Fitting(c, f, rec)
    ensures var g := Collect(c, f, rec); Shape(c, g) && Pending(g, m, q) && Empties(g) >= 1
    ensures q == if Empties(f) <= GC_EMPTY_THRESHOLD && PendingDirt(f, |f|) then None else p
  {
    hide Shape, Pending, Empties, UpTo, PendingDirt;
    q := p;
    if Empties(f) <= GC_EMPTY_THRESHOLD {
      UpToReserve(c, f, |f|, rec);
      q := UpToKeeps(c, f, |f|, rec, m, p);
    }
  }
}
