/**
 A collection that is cut and taken up again, as often as it may be: it ends in the very flash it would
 have ended in without the cut, unless a copy was being written.
 */
module KvAgain {
  import opened Basics
  import opened KvFlash
  import opened KvSteps
  import opened KvCache
  import opened KvGc
  import opened KvCollect
  import opened KvKeeps
  import opened KvCuts
  import opened KvAlike
  import opened KvStates

  // ---------- room only gets less ----------

  ghost predicate FullerSector(x: Sector, y: Sector) {
    && y.dirty == x.dirty && Used(x.recs) <= Used(y.recs)
    && (x.store == Full ==> y.store == Full) && (x.store == Using ==> y.store != Empty)
  }

  ghost predicate Fuller(f: Flash, g: Flash) {
    |g| == |f| && forall x | 0 <= x < |f| :: FullerSector(f[x], g[x])
  }

  lemma FullerChain(f: Flash, g: Flash, h: Flash)
    requires Fuller(f, g) && Fuller(g, h)
    ensures Fuller(f, h)
  {
    hide Used;
    forall x | 0 <= x < |f|
      ensures FullerSector(f[x], h[x])
    {
      assert FullerSector(f[x], g[x]) && FullerSector(g[x], h[x]);
    }
  }

  /** Where a record found no room it finds none later. */
  lemma NoRoomLater(c: Config, f: Flash, g: Flash, len: nat)
    requires Fuller(f, g) && Pick(c, f, len, true).None?
    ensures Pick(c, g, len, true).None?
  {
    hide Used, Pick, Empties;
    PickIsChosen(c, f, len, true);
    PickIsChosen(c, g, len, true);
    forall x: nat
      ensures Allocatable(c, g, x, len, true) ==> Allocatable(c, f, x, len, true)
    {
      assert x < |f| ==> FullerSector(f[x], g[x]);
    }
  }

  lemma RestatedFuller(f: Flash, a: nat, i: nat, st: Status)
    requires a < |f| && i < |f[a].recs|
    ensures Fuller(f, Restated(f, a, i, st)) && Fuller(Restated(f, a, i, st), f)
  {
    hide Used;
    UsedSameLens(f[a].recs, Restatus(f[a], i, st).recs);
  }

  lemma AdmitFuller(c: Config, f: Flash, t: nat, r: Rec)
    requires t < |f|
    ensures Fuller(f, f[t := Admit(c, f[t], r)])
  {
    hide Used;
    UsedAppend(f[t].recs, r);
  }

  lemma MidFuller(c: Config, f: Flash, t: nat, r: Rec, g: Flash)
    requires Shape(c, f) && MidAppend(c, f, t, r, g)
    ensures Fuller(f, g)
  {
    hide Used;
    EmptySector(c, f, t);
    if g == f[t := Opened(c, f[t], r.len)] {
      NothingUsed();
    } else {
      var x: Rec :| Half(c, r, x) && g == f[t := Partial(c, f[t], r, x)];
      UsedAppend(f[t].recs, x);
    }
  }

  lemma NothingUsed()
    ensures Used([]) == 0
  {
  }

  /** In a sector being collected the mark is all that changes. */
  lemma MarkedRestated(f: Flash, a: nat, i: nat)
    requires a < |f| && i < |f[a].recs| && f[a].dirty == Collecting && Live(f[a].recs[i])
    ensures MarkedFlash(f, a, i) == Restated(f, a, i, PreDelete)
    ensures f[a := Retire(f[a], i)] == Restated(f, a, i, Deleted)
  {
    if f[a].recs[i].status == PreDelete {
      assert f[a].recs[i := f[a].recs[i]] == f[a].recs;
      assert Restatus(f[a], i, PreDelete) == f[a];
      assert f[a := f[a]] == f;
    }
  }

  // ---------- what a collection passes over ----------

  /** The first i records of the sector are dealt with: dead, or PRE_DELETE and without room. */
  ghost predicate Passed(c: Config, f: Flash, a: nat, i: nat) {
    && a < |f| && i <= |f[a].recs| && f[a].dirty == Collecting
    && forall j | 0 <= j < i && Live(f[a].recs[j]) :: PassedAt(c, f, a, j)
  }

  ghost predicate PassedAt(c: Config, f: Flash, a: nat, j: nat)
    requires a < |f| && j < |f[a].recs|
  {
    f[a].recs[j].status == PreDelete && Pick(c, f, f[a].recs[j].len, true).None?
  }

  /** Taken up again, the collection does nothing to them. */
  lemma {:induction false} PassesOver(c: Config, f: Flash, a: nat, i: nat, j: nat)
    requires Passed(c, f, a, i) && j <= i
    ensures After(c, f, a, j, true) == f
    decreases j
  {
    hide Pick, KeyStored;
    if j > 0 {
      PassesOver(c, f, a, i, j - 1);
      assert Live(f[a].recs[j - 1]) ==> PassedAt(c, f, a, j - 1);
    }
  }

  lemma PassedLater(c: Config, f: Flash, g: Flash, a: nat, i: nat)
    requires Passed(c, f, a, i) && Fuller(f, g) && i <= |g[a].recs|
    requires forall j | 0 <= j < i :: g[a].recs[j] == f[a].recs[j]
    ensures Passed(c, g, a, i)
  {
    hide Pick, Used;
    assert FullerSector(f[a], g[a]);
    forall j | 0 <= j < i && Live(g[a].recs[j])
      ensures PassedAt(c, g, a, j)
    {
      assert PassedAt(c, f, a, j);
      NoRoomLater(c, f, g, f[a].recs[j].len);
    }
  }

  lemma StepFuller(c: Config, f: Flash, a: nat, i: nat)
    requires a < |f| && i < |f[a].recs| && f[a].dirty == Collecting
    ensures Fuller(f, Step(c, f, a, i, true))
  {
    hide Used, Pick, KeyStored, StoreAfter, Fuller, Chosen, Restatus;
    if Live(f[a].recs[i]) {
      MarkedRestated(f, a, i);
      NotPicked(c, f, a, i, true);
      RestatedFuller(f, a, i, PreDelete);
      RestatedFuller(f, a, i, Deleted);
      var g := Restated(f, a, i, Deleted);
      var t := Target(c, f, a, i, true, true);
      if t.Some? && t.value.Some? {
        AdmitFuller(c, g, t.value.value, f[a].recs[i].(status := Write));
        FullerChain(f, g, Step(c, f, a, i, true));
      }
    } else {
      SelfFuller(f);
    }
  }

  lemma SelfFuller(f: Flash)
    ensures Fuller(f, f)
  {
  }

  lemma {:induction false} PassedAfter(c: Config, f: Flash, a: nat, i: nat)
    requires a < |f| && i <= |f[a].recs| && f[a].dirty == Collecting
    ensures Passed(c, After(c, f, a, i, true), a, i)
    decreases i
  {
    hide Step, Pick, Fuller, Passed, Fresh;
    AfterGrows(c, f, a, i, true);
    if i == 0 {
      PassedNone(c, f, a);
    } else {
      PassedAfter(c, f, a, i - 1);
      AfterGrows(c, f, a, i - 1, true);
      var g := After(c, f, a, i - 1, true);
      StepGrows(c, g, a, i - 1, true);
      StepFuller(c, g, a, i - 1);
      PassedLater(c, g, Step(c, g, a, i - 1, true), a, i - 1);
      PassedOne(c, g, a, i - 1);
    }
  }

  lemma PassedNone(c: Config, f: Flash, a: nat)
    requires a < |f| && f[a].dirty == Collecting
    ensures Passed(c, f, a, 0)
  {
  }

  lemma PassedOne(c: Config, f: Flash, a: nat, i: nat)
    requires a < |f| && i < |f[a].recs| && f[a].dirty == Collecting && Passed(c, Step(c, f, a, i, true), a, i)
    ensures Passed(c, Step(c, f, a, i, true), a, i + 1)
  {
    hide Pick, KeyStored, Used, StoreAfter, Chosen;
    NotPicked(c, f, a, i, true);
    var g := Step(c, f, a, i, true);
    assert Live(g[a].recs[i]) ==> PassedAt(c, g, a, i);
  }

  // ---------- the end is the same ----------

  lemma {:induction false} JoinedAfter(c: Config, f: Flash, g: Flash, a: nat, i: nat, n: nat)
    requires a < |f| == |g| && i <= n <= |f[a].recs| == |g[a].recs|
    requires After(c, f, a, i, true) == After(c, g, a, i, true)
    ensures After(c, f, a, n, true) == After(c, g, a, n, true)
    decreases n
  {
    hide Step;
    if i < n {
      JoinedAfter(c, f, g, a, i, n - 1);
    }
  }

  /** The record was marked: its turn comes to the same. */
  lemma MarkedTurn(c: Config, f: Flash, a: nat, i: nat)
    requires Passed(c, f, a, i) && i < |f[a].recs| && Live(f[a].recs[i])
    ensures var g := MarkedFlash(f, a, i);
            && |g| == |f| && |g[a].recs| == |f[a].recs| && Passed(c, g, a, i)
            && After(c, g, a, i + 1, true) == After(c, f, a, i + 1, true)
  {
    hide Pick, KeyStored, Passed, Fuller;
    assert f[a].dirty == Collecting by {
      PassedDirty(c, f, a, i);
    }
    var g := MarkedFlash(f, a, i);
    MarkedRestated(f, a, i);
    RestatedFuller(f, a, i, PreDelete);
    PassedLater(c, f, g, a, i);
    PassesOver(c, f, a, i, i);
    PassesOver(c, g, a, i, i);
    MarkedStep(c, f, a, i);
  }

  lemma PassedDirty(c: Config, f: Flash, a: nat, i: nat)
    requires Passed(c, f, a, i)
    ensures a < |f| && f[a].dirty == Collecting
  {
  }

  lemma MarkedStep(c: Config, f: Flash, a: nat, i: nat)
    requires a < |f| && i < |f[a].recs| && f[a].dirty == Collecting && Live(f[a].recs[i])
    ensures var g := MarkedFlash(f, a, i);
            |g| == |f| && i < |g[a].recs| && Step(c, g, a, i, true) == Step(c, f, a, i, true)
  {
    hide Pick, KeyStored, Used, StoreAfter;
    var g := MarkedFlash(f, a, i);
    assert MarkedFlash(g, a, i) == g;
    assert g[a].recs[i := g[a].recs[i].(status := Deleted)] == f[a].recs[i := f[a].recs[i].(status := Deleted)];
    assert Retire(g[a], i) == Retire(f[a], i);
    assert g[a := Retire(g[a], i)] == f[a := Retire(f[a], i)];
  }

  /** y is x with record i of sector a deleted, which was pending in x. */
  ghost predicate Shadow(x: Flash, y: Flash, a: nat, i: nat) {
    && a < |x| && i < |x[a].recs| && x[a].dirty == Collecting && x[a].recs[i].status == PreDelete
    && y == Restated(x, a, i, Deleted)
  }

  lemma ShadowRoom(c: Config, x: Flash, y: Flash, a: nat, i: nat, len: nat)
    requires Shadow(x, y, a, i)
    ensures Pick(c, x, len, true) == Pick(c, y, len, true)
  {
    hide Used, Pick;
    UsedSameLens(x[a].recs, y[a].recs);
    SamePick(c, x, y, len, true);
  }

  lemma ShadowStored(x: Flash, y: Flash, a: nat, i: nat, k: Key)
    requires Shadow(x, y, a, i)
    ensures KeyStored(x, k) <==> KeyStored(y, k)
  {
    hide KeyStored;
    if KeyStored(x, k) {
      KeyKept(x, y, a, i, k);
    }
    if KeyStored(y, k) {
      KeyKept(y, x, a, i, k);
    }
  }

  lemma ShadowMarked(x: Flash, y: Flash, a: nat, i: nat, j: nat)
    requires Shadow(x, y, a, i) && j < |x[a].recs| && j != i
    ensures |y| == |x| && |y[a].recs| == |x[a].recs| && y[a].recs[j] == x[a].recs[j] && y[a].dirty == Collecting
    ensures Shadow(MarkedFlash(x, a, j), MarkedFlash(y, a, j), a, i)
  {
    assert x[a].recs[i := x[a].recs[i].(status := Deleted)][j := x[a].recs[j].(status := PreDelete)]
        == x[a].recs[j := x[a].recs[j].(status := PreDelete)][i := x[a].recs[i].(status := Deleted)];
  }

  lemma ShadowMoved(c: Config, x: Flash, y: Flash, a: nat, i: nat, j: nat, t: Option<nat>)
    requires Shadow(x, y, a, i) && j < |x[a].recs| && j != i && t != Some(a)
    ensures j < |y[a].recs| && Shadow(Moved(c, x, a, j, t), Moved(c, y, a, j, t), a, i)
  {
    hide Used, StoreAfter;
    assert x[a].recs[i := x[a].recs[i].(status := Deleted)][j := x[a].recs[j].(status := Deleted)]
        == x[a].recs[j := x[a].recs[j].(status := Deleted)][i := x[a].recs[i].(status := Deleted)];
  }

  lemma ShadowStep(c: Config, x: Flash, y: Flash, a: nat, i: nat, j: nat)
    requires Shadow(x, y, a, i) && j < |x[a].recs| && j != i
    ensures j < |y[a].recs| && Shadow(Step(c, x, a, j, true), Step(c, y, a, j, true), a, i)
  {
    hide Shadow, MarkedFlash, Moved, Pick, KeyStored;
    ShadowMarked(x, y, a, i, j);
    ShadowDirty(x, y, a, i);
    if Live(x[a].recs[j]) {
      var x1, y1 := MarkedFlash(x, a, j), MarkedFlash(y, a, j);
      ShadowRoom(c, x1, y1, a, i, x[a].recs[j].len);
      ShadowStored(x1, y1, a, i, NameRead(x[a].recs[j].key));
      NotPicked(c, x, a, j, true);
      var t := Target(c, x, a, j, true, true);
      if t.Some? {
        ShadowMoved(c, x, y, a, i, j, t.value);
      }
    }
  }

  lemma ShadowDirty(x: Flash, y: Flash, a: nat, i: nat)
    requires Shadow(x, y, a, i)
    ensures a < |x| == |y| && |y[a].recs| == |x[a].recs| && x[a].dirty == Collecting
  {
  }

  lemma {:induction false} ShadowAfter(c: Config, f: Flash, g: Flash, a: nat, i: nat, n: nat)
    requires a < |f| == |g| && i < n <= |f[a].recs| == |g[a].recs|
    requires f[a].dirty == Collecting && g[a].dirty == Collecting
    requires Shadow(After(c, g, a, i + 1, true), After(c, f, a, i + 1, true), a, i)
    ensures Shadow(After(c, g, a, n, true), After(c, f, a, n, true), a, i)
    decreases n
  {
    hide Step, Shadow, Fresh;
    if n > i + 1 {
      ShadowAfter(c, f, g, a, i, n - 1);
      AfterGrows(c, g, a, n - 1, true);
      ShadowStep(c, After(c, g, a, n - 1, true), After(c, f, a, n - 1, true), a, i, n - 1);
    }
  }

  // ---------- one sector ----------

  /** The copy of record i of sector a of h, to the sector allocated, is half written in g. */
  ghost predicate HalfCopied(c: Config, h: Flash, a: nat, i: nat, g: Flash)
    requires a < |h| && i < |h[a].recs|
  {
    var t := Target(c, h, a, i, true, true);
    t.Some? && t.value.Some? && MidAppend(c, MarkedFlash(h, a, i), t.value.value, h[a].recs[i].(status := Write), g)
  }

  /** With the copy complete: the record is dropped, or, without room, left for the end of the sector. */
  lemma CopiedTurn(c: Config, h: Flash, a: nat, i: nat, t: nat)
    requires Passed(c, h, a, i) && i < |h[a].recs| && Live(h[a].recs[i]) && t < |h| && t != a
    requires |h[a].recs[i].key| < KV_NAME_MAX && Target(c, h, a, i, true, true) == Some(Some(t))
    ensures var g := Copied(c, h, a, i, t);
            var x, y := After(c, g, a, i + 1, true), Step(c, h, a, i, true);
            |g| == |h| && |g[a].recs| == |h[a].recs| && g[a].dirty == Collecting && (x == y || Shadow(x, y, a, i))
  {
    hide Pick, KeyStored, Passed, Fuller, Used, StoreAfter, Target;
    PassedDirty(c, h, a, i);
    var f1, g := MarkedFlash(h, a, i), Copied(c, h, a, i, t);
    MarkedRestated(h, a, i);
    RestatedFuller(h, a, i, PreDelete);
    AdmitFuller(c, f1, t, h[a].recs[i].(status := Write));
    FullerChain(h, f1, g);
    PassedLater(c, h, g, a, i);
    PassesOver(c, g, a, i, i);
    CopyStored(c, h, a, i, t);
    CopiedIsMoved(c, h, a, i, t);
    CopiedStep(c, h, a, i, t);
  }

  lemma CopiedStep(c: Config, h: Flash, a: nat, i: nat, t: nat)
    requires a < |h| && i < |h[a].recs| && Live(h[a].recs[i]) && t < |h| && t != a && h[a].dirty == Collecting
    requires |h[a].recs[i].key| < KV_NAME_MAX && KeyStored(Copied(c, h, a, i, t), h[a].recs[i].key)
    ensures var g := Copied(c, h, a, i, t);
            var y := Step(c, g, a, i, true);
            && i < |g[a].recs| && g[a].dirty == Collecting
            && (y == Restated(g, a, i, Deleted) || (y == g && Shadow(g, Restated(g, a, i, Deleted), a, i)))
  {
    hide Pick, KeyStored, Used, StoreAfter;
    var g := Copied(c, h, a, i, t);
    MarkedRecord(h, a, i);
    assert g[a] == MarkedFlash(h, a, i)[a];
    MarkedRestated(g, a, i);
  }

  /** From turn k on both flashes are collected in the same way. */
  lemma SameEnd(c: Config, f: Flash, g: Flash, a: nat, k: nat)
    requires a < |f| == |g| && f[a].dirty == Collecting && g[a].dirty == Collecting && |g[a].recs| == |f[a].recs|
    requires k <= |f[a].recs| && After(c, g, a, k, true) == After(c, f, a, k, true)
    ensures CollectSector(c, g, a, true) == CollectSector(c, f, a, true)
  {
    hide After;
    JoinedAfter(c, f, g, a, k, |f[a].recs|);
    assert Begun(f, a) == f && Begun(g, a) == g;
  }

  lemma ShadowEnd(c: Config, f: Flash, g: Flash, a: nat, i: nat)
    requires a < |f| == |g| && f[a].dirty == Collecting && g[a].dirty == Collecting && |g[a].recs| == |f[a].recs|
    requires i < |f[a].recs| && Shadow(After(c, g, a, i + 1, true), After(c, f, a, i + 1, true), a, i)
    ensures CollectSector(c, g, a, true) == CollectSector(c, f, a, true)
  {
    hide After, Shadow;
    ShadowAfter(c, f, g, a, i, |f[a].recs|);
    assert Begun(f, a) == f && Begun(g, a) == g;
    ShadowFormatted(After(c, g, a, |f[a].recs|, true), After(c, f, a, |f[a].recs|, true), a, i);
  }

  lemma ShadowFormatted(x: Flash, y: Flash, a: nat, i: nat)
    requires Shadow(x, y, a, i)
    ensures a < |x| == |y| && x[a := FORMATTED] == y[a := FORMATTED]
  {
  }

  /** A state between two turns. */
  lemma BetweenTurns(c: Config, f: Flash, a: nat, i: nat)
    requires a < |f| && f[a].dirty == Collecting && i <= |f[a].recs|
    ensures var g := After(c, f, a, i, true);
            && |g| == |f| && g[a].dirty == Collecting && |g[a].recs| == |f[a].recs| && Passed(c, g, a, i)
            && After(c, g, a, i, true) == g && CollectSector(c, g, a, true) == CollectSector(c, f, a, true)
  {
    hide After, Passed, CollectSector, Fresh;
    AfterGrows(c, f, a, i, true);
    PassedAfter(c, f, a, i);
    PassesOver(c, After(c, f, a, i, true), a, i, i);
    SameEnd(c, f, After(c, f, a, i, true), a, i);
  }

  lemma NextTurn(c: Config, f: Flash, a: nat, i: nat)
    requires a < |f| && i < |f[a].recs|
    ensures |After(c, f, a, i, true)[a].recs| >= |f[a].recs|
    ensures After(c, f, a, i + 1, true) == Step(c, After(c, f, a, i, true), a, i, true)
  {
    hide Step;
  }

  /** However far the turn of a record came, but for a half-written copy: the sector ends the same. */
  lemma TurnResumed(c: Config, b: Flash, a: nat, i: nat, g: Flash)
    requires a < |b| && b[a].dirty == Collecting && i < |b[a].recs| && TurnState(c, b, a, i, true, g)
    requires |b[a].recs[i].key| < KV_NAME_MAX && !HalfCopied(c, After(c, b, a, i, true), a, i, g)
    ensures |g| == |b| && CollectSector(c, g, a, true) == CollectSector(c, b, a, true)
  {
    hide Pick, KeyStored, Passed, Used, StoreAfter, Target, MidAppend, Fresh, Step, After, Moved, MarkedFlash, Shadow,
      CollectSector, Move, Copied, CopyState;
    var h := After(c, b, a, i, true);
    AfterGrows(c, b, a, i, true);
    BetweenTurns(c, b, a, i);
    BetweenTurns(c, b, a, i + 1);
    NextTurn(c, b, a, i);
    MarkedRestated(h, a, i);
    LiveStep(c, h, a, i);
    NotPicked(c, h, a, i, true);
    if g == MarkedFlash(h, a, i) {
      MarkedTurn(c, h, a, i);
      SameEnd(c, h, g, a, i + 1);
    } else if g != Step(c, h, a, i, true) {
      var t := Target(c, h, a, i, true, true);
      if t.value.None? {
        DroppedEnd(c, h, a, i, g);
      } else {
        CopyEnd(c, b, a, i, t.value.value, g);
      }
    }
  }

  lemma LiveStep(c: Config, h: Flash, a: nat, i: nat)
    requires a < |h| && i < |h[a].recs| && Live(h[a].recs[i])
    ensures Step(c, h, a, i, true) == Move(c, h, a, i, true, true)
  {
  }

  lemma DroppedEnd(c: Config, h: Flash, a: nat, i: nat, g: Flash)
    requires a < |h| && i < |h[a].recs| && Live(h[a].recs[i]) && h[a].dirty == Collecting
    requires Target(c, h, a, i, true, true) == Some(None)
    requires i < |MarkedFlash(h, a, i)[a].recs| && g == Restated(MarkedFlash(h, a, i), a, i, Deleted)
    ensures g == Step(c, h, a, i, true)
  {
    hide Target, Used;
    DroppedIsMoved(c, h, a, i);
  }

  lemma CopyEnd(c: Config, b: Flash, a: nat, i: nat, t: nat, g: Flash)
    requires a < |b| && b[a].dirty == Collecting && i < |b[a].recs| && |b[a].recs[i].key| < KV_NAME_MAX
    requires var h := After(c, b, a, i, true);
             && |h| == |b| && i < |h[a].recs| == |b[a].recs| && h[a].recs[i] == b[a].recs[i]
             && h[a].dirty == Collecting && Live(h[a].recs[i]) && t < |h| && t != a
             && Target(c, h, a, i, true, true) == Some(Some(t)) && CopyState(c, h, a, i, t, g)
             && !HalfCopied(c, h, a, i, g)
    ensures |g| == |b| && CollectSector(c, g, a, true) == CollectSector(c, b, a, true)
  {
    hide Pick, KeyStored, Passed, Used, StoreAfter, Target, MidAppend, Step, After, Moved, MarkedFlash, Shadow,
      CollectSector, Copied;
    var h := After(c, b, a, i, true);
    BetweenTurns(c, b, a, i);
    BetweenTurns(c, b, a, i + 1);
    NextTurn(c, b, a, i);
    CopiedIsMoved(c, h, a, i, t);
    CopiedTurn(c, h, a, i, t);
    if g == Copied(c, h, a, i, t) {
      if After(c, g, a, i + 1, true) == Step(c, h, a, i, true) {
        SameEnd(c, b, g, a, i + 1);
      } else {
        ShadowEnd(c, b, g, a, i);
      }
    } else {
      assert g == Moved(c, h, a, i, Some(t));
      MovedIsStep(c, h, a, i, t);
    }
  }

  lemma MovedIsStep(c: Config, h: Flash, a: nat, i: nat, t: nat)
    requires a < |h| && i < |h[a].recs| && Live(h[a].recs[i]) && Target(c, h, a, i, true, true) == Some(Some(t))
    ensures Step(c, h, a, i, true) == Moved(c, h, a, i, Some(t))
  {
    hide Target;
  }

  // ---------- names stay short ----------

  ghost predicate ShortRec(r: Rec) { Live(r) ==> |r.key| < KV_NAME_MAX }

  ghost predicate ShortRecs(f: Flash) {
    forall s, j | 0 <= s < |f| && 0 <= j < |f[s].recs| :: ShortRec(f[s].recs[j])
  }

  lemma ShortWith(f: Flash, s: nat, sec: Sector)
    requires ShortRecs(f) && s < |f| && forall j | 0 <= j < |sec.recs| :: ShortRec(sec.recs[j])
    ensures ShortRecs(f[s := sec])
  {
  }

  lemma RestatedShort(f: Flash, a: nat, i: nat, st: Status)
    requires ShortRecs(f) && a < |f| && i < |f[a].recs| && (Live(f[a].recs[i]) || (st != Write && st != PreDelete))
    ensures ShortRecs(Restated(f, a, i, st)) && ShortRecs(f[a := Soil(Restatus(f[a], i, st))])
  {
    assert ShortRec(f[a].recs[i]);
  }

  lemma AddedShort(f: Flash, t: nat, sec: Sector, r: Rec)
    requires ShortRecs(f) && t < |f| && ShortRec(r) && sec.recs == f[t].recs + [r]
    ensures ShortRecs(f[t := sec])
  {
  }

  lemma MarkedShort(f: Flash, a: nat, i: nat)
    requires ShortRecs(f) && a < |f| && i < |f[a].recs|
    ensures ShortRecs(MarkedFlash(f, a, i))
  {
    hide ShortRecs, Soil, Restatus;
    if f[a].recs[i].status == Write {
      MarkShort(f, a, i);
    }
  }

  lemma MarkShort(f: Flash, a: nat, i: nat)
    requires ShortRecs(f) && a < |f| && i < |f[a].recs| && f[a].recs[i].status == Write
    ensures ShortRecs(f[a := Soil(Restatus(f[a], i, PreDelete))])
  {
    assert ShortRec(f[a].recs[i]);
  }

  lemma MovedShort(c: Config, f: Flash, a: nat, i: nat, t: Option<nat>)
    requires ShortRecs(f) && a < |f| && i < |f[a].recs| && Live(f[a].recs[i])
    ensures ShortRecs(Moved(c, f, a, i, t))
  {
    hide ShortRecs, Soil, Restatus, Used, StoreAfter;
    RestatedShort(f, a, i, Deleted);
    ShortAt(f, a, i);
    var g := f[a := Retire(f[a], i)];
    if t.Some? && t.value < |g| {
      var w := f[a].recs[i].(status := Write);
      AddedShort(g, t.value, Admit(c, g[t.value], w), w);
    }
  }

  lemma ShortAt(f: Flash, a: nat, i: nat)
    requires ShortRecs(f) && a < |f| && i < |f[a].recs|
    ensures ShortRec(f[a].recs[i])
  {
  }

  lemma StepShort(c: Config, f: Flash, a: nat, i: nat)
    requires ShortRecs(f) && a < |f| && i < |f[a].recs|
    ensures ShortRecs(Step(c, f, a, i, true))
  {
    hide ShortRecs, MarkedFlash, Moved, Target;
    MarkedShort(f, a, i);
    var t := Target(c, f, a, i, true, true);
    if Live(f[a].recs[i]) && t.Some? {
      MovedShort(c, f, a, i, t.value);
    }
  }

  lemma {:induction false} AfterShort(c: Config, f: Flash, a: nat, i: nat)
    requires ShortRecs(f) && a < |f| && i <= |f[a].recs|
    ensures ShortRecs(After(c, f, a, i, true))
    decreases i
  {
    hide ShortRecs, Step;
    if i > 0 {
      AfterShort(c, f, a, i - 1);
      StepShort(c, After(c, f, a, i - 1, true), a, i - 1);
    }
  }

  lemma SectorShort(c: Config, f: Flash, a: nat)
    requires ShortRecs(f) && a < |f|
    ensures ShortRecs(CollectSector(c, f, a, true)) && ShortRecs(Begun(f, a))
  {
    hide ShortRecs, After;
    BegunShort(f, a);
    if f[a].dirty != Clean {
      AfterShort(c, Begun(f, a), a, |f[a].recs|);
      ShortWith(After(c, Begun(f, a), a, |f[a].recs|, true), a, FORMATTED);
    }
  }

  lemma BegunShort(f: Flash, a: nat)
    requires ShortRecs(f) && a < |f|
    ensures ShortRecs(Begun(f, a))
  {
  }

  lemma {:induction false} UpToShort(c: Config, f: Flash, s: nat)
    requires ShortRecs(f) && s <= |f|
    ensures ShortRecs(UpTo(c, f, s, true))
    decreases s
  {
    hide ShortRecs, CollectSector;
    if s > 0 {
      UpToShort(c, f, s - 1);
      SectorShort(c, UpTo(c, f, s - 1, true), s - 1);
    }
  }

  lemma MidShort(c: Config, f: Flash, t: nat, r: Rec, g: Flash)
    requires ShortRecs(f) && MidAppend(c, f, t, r, g)
    ensures ShortRecs(g)
  {
    hide Used, StoreAfter, ShortRecs;
    if g == f[t := Opened(c, f[t], r.len)] {
      OpenedShort(c, f, t, r.len);
    } else {
      var x: Rec :| Half(c, r, x) && g == f[t := Partial(c, f[t], r, x)];
      AddedShort(f, t, Partial(c, f[t], r, x), x);
    }
  }

  lemma OpenedShort(c: Config, f: Flash, t: nat, len: nat)
    requires ShortRecs(f) && t < |f|
    ensures ShortRecs(f[t := Opened(c, f[t], len)])
  {
    hide Used, StoreAfter;
    assert ShortRec(Torn(c.hdr));
  }

  lemma MoveStateShort(c: Config, h: Flash, a: nat, i: nat, g: Flash)
    requires ShortRecs(h) && a < |h| && i < |h[a].recs| && Live(h[a].recs[i]) && MoveState(c, h, a, i, true, true, g)
    ensures ShortRecs(g)
  {
    hide ShortRecs, MarkedFlash, MidAppend, Target, Move, Copied, StoreAfter, Used;
    var f1, w := MarkedFlash(h, a, i), h[a].recs[i].(status := Write);
    MarkedShort(h, a, i);
    MarkedRecord(h, a, i);
    RestatedShort(h, a, i, PreDelete);
    RestatedShort(f1, a, i, Deleted);
    StepShort(c, h, a, i);
    LiveStep(c, h, a, i);
    var t := Target(c, h, a, i, true, true);
    if t.Some? && t.value.Some? && CopyState(c, h, a, i, t.value.value, g) {
      CopiedShort(c, h, a, i, t.value.value);
      if MidAppend(c, f1, t.value.value, w, g) {
        MidShort(c, f1, t.value.value, w, g);
      }
    }
  }

  lemma CopiedShort(c: Config, h: Flash, a: nat, i: nat, t: nat)
    requires ShortRecs(h) && a < |h| && i < |h[a].recs| && Live(h[a].recs[i]) && t < |h|
    ensures var g := Copied(c, h, a, i, t);
            ShortRecs(g) && (i < |g[a].recs| ==> ShortRecs(Restated(g, a, i, Deleted)))
  {
    hide ShortRecs, StoreAfter, Used, MarkedFlash, Restated;
    var f1, w := MarkedFlash(h, a, i), h[a].recs[i].(status := Write);
    MarkedShort(h, a, i);
    MarkedRecord(h, a, i);
    ShortAt(h, a, i);
    AddedShort(f1, t, Admit(c, f1[t], w), w);
    var g := Copied(c, h, a, i, t);
    if i < |g[a].recs| {
      RestatedShort(g, a, i, Deleted);
    }
  }

  lemma GcShort(c: Config, f: Flash, g: Flash)
    requires ShortRecs(f) && GcState(c, f, true, g)
    ensures ShortRecs(g)
  {
    hide ShortRecs, UpTo, CollectSector, After, MoveState, Empties, Fresh;
    var s: nat :| s < |f| && SectorState(c, UpTo(c, f, s, true), s, true, g);
    var h := UpTo(c, f, s, true);
    UpToShort(c, f, s);
    SectorShort(c, h, s);
    var b := Begun(h, s);
    if g != b && g != CollectSector(c, h, s, true) {
      var i: nat :| i < |b[s].recs| && TurnState(c, b, s, i, true, g);
      AfterGrows(c, b, s, i, true);
      AfterShort(c, b, s, i);
      MoveStateShort(c, After(c, b, s, i, true), s, i, g);
    }
  }

  // ---------- a whole collection ----------

  lemma {:induction false} RestSame(c: Config, f: Flash, g: Flash, k: nat, n: nat)
    requires k <= n <= |f| == |g| && UpTo(c, f, k, true) == UpTo(c, g, k, true)
    ensures UpTo(c, f, n, true) == UpTo(c, g, n, true)
    decreases n
  {
    hide CollectSector;
    if k < n {
      RestSame(c, f, g, k, n - 1);
    }
  }

  /** g has no dirty sector before s, and collecting that one makes of g what it makes of f. */
  lemma SectorThenRest(c: Config, f: Flash, g: Flash, s: nat)
    requires s < |f| == |g| && forall x | 0 <= x < s :: g[x].dirty == Clean
    requires CollectSector(c, g, s, true) == CollectSector(c, UpTo(c, f, s, true), s, true)
    requires Empties(f) <= GC_EMPTY_THRESHOLD && Empties(g) <= GC_EMPTY_THRESHOLD
    ensures Collect(c, g, true) == Collect(c, f, true)
  {
    hide CollectSector, Empties, UpTo;
    UpToClean(c, g, s, true);
    UpToNext(c, f, s);
    UpToNext(c, g, s);
    RestSame(c, f, g, s + 1, |f|);
  }

  lemma UpToNext(c: Config, f: Flash, s: nat)
    requires s < |f|
    ensures UpTo(c, f, s + 1, true) == CollectSector(c, UpTo(c, f, s, true), s, true)
  {
    hide CollectSector;
  }

  lemma MidDirty(c: Config, f: Flash, t: nat, r: Rec, g: Flash)
    requires MidAppend(c, f, t, r, g)
    ensures |g| == |f| && forall x | 0 <= x < |f| :: g[x].dirty == f[x].dirty && (x != t ==> g[x] == f[x])
  {
    hide Used, StoreAfter;
    if g == f[t := Opened(c, f[t], r.len)] {
    } else {
      var x: Rec :| Half(c, r, x) && g == f[t := Partial(c, f[t], r, x)];
    }
  }

  /** On the way of a move of a sector being collected no dirty status changes. */
  lemma MoveDirty(c: Config, h: Flash, a: nat, i: nat, g: Flash)
    requires a < |h| && i < |h[a].recs| && h[a].dirty == Collecting && Live(h[a].recs[i])
    requires MoveState(c, h, a, i, true, true, g)
    ensures |g| == |h| && forall x | 0 <= x < |h| :: g[x].dirty == h[x].dirty
  {
    hide Used, StoreAfter, Target, MidAppend;
    MarkedRestated(h, a, i);
    NotPicked(c, h, a, i, true);
    var f1, t := MarkedFlash(h, a, i), Target(c, h, a, i, true, true);
    if t.Some? && t.value.Some? {
      var w := h[a].recs[i].(status := Write);
      if MidAppend(c, f1, t.value.value, w, g) {
        MidDirty(c, f1, t.value.value, w, g);
      }
    }
  }

  lemma SectorDirtyLater(c: Config, f: Flash, a: nat, g: Flash)
    requires a < |f| && SectorState(c, f, a, true, g)
    ensures |g| == |f| && forall x | 0 <= x < |f| && x != a :: g[x].dirty == f[x].dirty
    ensures g != CollectSector(c, f, a, true) ==> g[a].dirty == Collecting
  {
    hide After, MoveState, CollectSector, Fresh;
    var b := Begun(f, a);
    if g == CollectSector(c, f, a, true) {
      SectorGrows(c, f, a, true);
    } else if g != b {
      var i: nat :| i < |b[a].recs| && TurnState(c, b, a, i, true, g);
      AfterGrows(c, b, a, i, true);
      MoveDirty(c, After(c, b, a, i, true), a, i, g);
    }
  }

  /** A copy of record i of sector s is half written in g, on the way of gc_collect on f. */
  ghost predicate CopyingAt(c: Config, f: Flash, s: nat, i: nat, g: Flash) {
    s < |f| &&
    var b := Begun(UpTo(c, f, s, true), s);
    i < |b[s].recs| && HalfCopied(c, After(c, b, s, i, true), s, i, g)
  }

  ghost predicate Copying(c: Config, f: Flash, g: Flash) {
    exists s: nat, i: nat :: CopyingAt(c, f, s, i, g)
  }

  lemma SectorResumed(c: Config, f: Flash, a: nat, g: Flash)
    requires a < |f| && ShortRecs(f) && SectorState(c, f, a, true, g)
    requires forall i: nat | i < |f[a].recs| :: !HalfCopied(c, After(c, Begun(f, a), a, i, true), a, i, g)
    ensures |g| == |f| && CollectSector(c, g, a, true) == CollectSector(c, f, a, true)
  {
    hide After, MoveState, CollectSector, Fresh, HalfCopied;
    var b := Begun(f, a);
    BegunEnd(c, f, a);
    if g == CollectSector(c, f, a, true) {
      CollectedEnd(c, f, a);
    } else if g != b {
      var i: nat :| i < |b[a].recs| && TurnState(c, b, a, i, true, g);
      AfterGrows(c, b, a, i, true);
      assert Live(f[a].recs[i]);
      TurnResumed(c, b, a, i, g);
    }
  }

  lemma BegunEnd(c: Config, f: Flash, a: nat)
    requires a < |f| && f[a].dirty != Clean
    ensures CollectSector(c, Begun(f, a), a, true) == CollectSector(c, f, a, true)
  {
    hide After;
    assert Begun(Begun(f, a), a) == Begun(f, a);
  }

  lemma CollectedEnd(c: Config, f: Flash, a: nat)
    requires a < |f| && f[a].dirty != Clean
    ensures var g := CollectSector(c, f, a, true); |g| == |f| && CollectSector(c, g, a, true) == g
  {
    hide After;
  }

  /**
   A collection made by loading, whatever the flash holds, cut anywhere but in the writing of a copy and
   taken up again: it ends in the very flash it would have ended in.
   */
  lemma CollectResumed(c: Config, f: Flash, g: Flash)
    requires ShortRecs(f) && GcState(c, f, true, g) && !Copying(c, f, g) && Empties(g) <= GC_EMPTY_THRESHOLD
    ensures Collect(c, g, true) == Collect(c, f, true)
  {
    hide Empties, UpTo, SectorState, CollectSector, HalfCopied, After, Fresh, ShortRecs;
    var s: nat :| s < |f| && SectorState(c, UpTo(c, f, s, true), s, true, g);
    UpToShort(c, f, s);
    UpToSweeps(c, f, s, true);
    var h := UpTo(c, f, s, true);
    forall i: nat | i < |h[s].recs|
      ensures !HalfCopied(c, After(c, Begun(h, s), s, i, true), s, i, g)
    {
      assert !CopyingAt(c, f, s, i, g);
    }
    SectorResumed(c, h, s, g);
    SectorDirtyLater(c, h, s, g);
    SectorThenRest(c, f, g, s);
  }

  /** And so it does however often it is cut. */
  lemma {:induction false} CutsAgain(c: Config, fs: seq<Flash>)
    requires fs != [] && ShortRecs(fs[0])
    requires forall k | 0 <= k < |fs| - 1 :: CutOnce(c, fs[k], fs[k + 1])
    ensures Collect(c, fs[|fs| - 1], true) == Collect(c, fs[0], true) && ShortRecs(fs[|fs| - 1])
  {
    hide Collect, ShortRecs, GcState, Copying, Empties;
    if |fs| > 1 {
      var n := |fs| - 1;
      CutsAgain(c, fs[..n]);
      assert CutOnce(c, fs[n - 1], fs[n]);
      CollectResumed(c, fs[n - 1], fs[n]);
      GcShort(c, fs[n - 1], fs[n]);
    }
  }

  /** A collection of f was cut in g, with no copy half written, and loading will take it up. */
  ghost predicate CutOnce(c: Config, f: Flash, g: Flash) {
    GcState(c, f, true, g) && !Copying(c, f, g) && Empties(g) <= GC_EMPTY_THRESHOLD
  }

  // ---------- a half-written copy ----------

  /** With the record put back to WRITE the half-written copy is just a dead slot. */
  lemma PutBack(c: Config, h: Flash, a: nat, i: nat, t: nat, g: Flash, m: map<Key, Value>, q: Option<(Key, Value)>)
    requires ValidConfig(c) && Shape(c, h) && Passed(c, h, a, i) && i < |h[a].recs| && IsWrite(h, Addr(a, i))
    requires t < |h| && t != a && MidAppend(c, MarkedFlash(h, a, i), t, h[a].recs[i].(status := Write), g)
    requires h[t].store != Full && h[a].recs[i].len < Remain(c, h[t]) && Pending(h, m, q)
    ensures |g| == |h| && g[a] == MarkedFlash(h, a, i)[a] && i < |g[a].recs| && Shape(c, g)
    ensures var f := Restated(g, a, i, Write);
            && Shape(c, f) && Pending(f, m, q) && Passed(c, f, a, i) && MarkedFlash(f, a, i) == g
            && Empties(f) == Empties(g) && f[a].recs[i] == h[a].recs[i]
  {
    hide Shape, Passed, Used, StoreAfter, MidAppend, Total, Pending, Fuller, SameLive, Empties;
    var f1, w := MarkedFlash(h, a, i), h[a].recs[i].(status := Write);
    PassedDirty(c, h, a, i);
    MarkedRestated(h, a, i);
    MarkedOk(c, h, a, i);
    GoodLength(c, h, a, i);
    MidAppendSame(c, f1, t, w, g);
    MidFuller(c, f1, t, w, g);
    var f := Restated(g, a, i, Write);
    assert g[a].recs[i] == h[a].recs[i].(status := PreDelete);
    assert f[a].recs[i] == h[a].recs[i];
    RestatedShape(c, g, a, i, Write);
    EmptiesUpdate(g, a, f[a]);
    BackMarked(g, a, i);
    RestatedFuller(h, a, i, PreDelete);
    RestatedFuller(g, a, i, Write);
    FullerChain(h, f1, g);
    FullerChain(h, g, f);
    PassedLater(c, h, f, a, i);
    BackSame(h, f, g, f1, a, i);
    SamePending(f, h, m, q);
  }

  lemma BackMarked(g: Flash, a: nat, i: nat)
    requires a < |g| && i < |g[a].recs| && g[a].dirty == Collecting && g[a].recs[i].status == PreDelete
    ensures MarkedFlash(Restated(g, a, i, Write), a, i) == g
  {
    var f := Restated(g, a, i, Write);
    assert f[a].recs[i := f[a].recs[i].(status := PreDelete)] == g[a].recs;
    assert Soil(Restatus(f[a], i, PreDelete)) == g[a];
    assert f[a := g[a]] == g;
  }

  lemma BackSame(h: Flash, f: Flash, g: Flash, f1: Flash, a: nat, i: nat)
    requires a < |h| && IsWrite(h, Addr(a, i)) && f1 == MarkedFlash(h, a, i) && SameLive(g, f1)
    requires a < |f| && IsWrite(f, Addr(a, i)) && g == MarkedFlash(f, a, i) && f[a].recs[i] == h[a].recs[i]
    ensures SameLive(f, h)
  {
    hide Total;
    Marked(h, a, i, f1[a]);
    Marked(f, a, i, g[a]);
    var one := multiset{(h[a].recs[i].key, h[a].recs[i].value)};
    MultisetCancel(Total(f, PreDelete), Total(h, PreDelete), one);
  }

  /** If the sector can be collected as it is, so it can with the record put back. */
  lemma PutBackFits(c: Config, f: Flash, a: nat, i: nat, m: map<Key, Value>, q: Option<(Key, Value)>)
    requires Passed(c, f, a, i) && i < |f[a].recs| && IsWrite(f, Addr(a, i)) && Pending(f, m, q)
    requires var g := MarkedFlash(f, a, i); |g| == |f| && SectorFits(c, g, a, true)
    ensures SectorFits(c, f, a, true)
  {
    hide Pick, KeyStored, Passed, Used, Placed, After, Pending, Step, Fresh;
    PassedDirty(c, f, a, i);
    var g := MarkedFlash(f, a, i);
    MarkedRestated(f, a, i);
    MarkedTurn(c, f, a, i);
    assert Begun(f, a) == f && Begun(g, a) == g;
    forall j | 0 <= j < |f[a].recs|
      ensures Placed(c, After(c, f, a, j, true), a, j, true)
    {
      assert Placed(c, After(c, g, a, j, true), a, j, true);
      if j <= i {
        PassesOver(c, f, a, i, j);
        PassesOver(c, g, a, i, j);
        PassedPlaced(c, f, a, i, j, m, q);
      } else {
        JoinedAfter(c, f, g, a, i + 1, j);
      }
    }
  }

  lemma PassedPlaced(c: Config, f: Flash, a: nat, i: nat, j: nat, m: map<Key, Value>, q: Option<(Key, Value)>)
    requires Passed(c, f, a, i) && i < |f[a].recs| && IsWrite(f, Addr(a, i)) && Pending(f, m, q) && j <= i
    requires var g := MarkedFlash(f, a, i);
             |g| == |f| && |g[a].recs| == |f[a].recs| && Passed(c, g, a, i) && Placed(c, g, a, j, true)
    ensures Placed(c, f, a, j, true)
  {
    hide Pick, KeyStored, Used, Pending;
    var g := MarkedFlash(f, a, i);
    MarkedRestated(f, a, i);
    if j < i {
      if Live(f[a].recs[j]) {
        assert g[a].recs[j] == f[a].recs[j];
        assert PassedAt(c, g, a, j);
        assert MarkedFlash(g, a, j) == g;
        KeyKept(g, f, a, i, f[a].recs[j].key);
      }
    } else {
      MarkedMeans(f, a, i, m, q);
      if KeyStored(g, g[a].recs[i].key) {
        StoredMeans(g, g[a].recs[i].key);
      }
      assert MarkedFlash(g, a, i) == g;
    }
  }

  /** Where the map is held under short names, so are the records. */
  lemma PendingShort(f: Flash, m: map<Key, Value>, p: Option<(Key, Value)>)
    requires Pending(f, m, p) && ShortNames(m)
    ensures ShortRecs(f)
  {
    hide Pending;
    forall s, j | 0 <= s < |f| && 0 <= j < |f[s].recs|
      ensures ShortRec(f[s].recs[j])
    {
      if Live(f[s].recs[j]) {
        NameKnown(f, m, p, s, j);
      }
    }
  }

  // ---------- what loading takes up ----------

  predicate SomeCollecting(f: Flash) {
    exists s | 0 <= s < |f| :: f[s].dirty == Collecting
  }

  /** The flash once the collections that were cut have been taken up again. */
  function Resume(c: Config, f: Flash): (g: Flash)
    ensures |g| == |f|
  {
    if SomeCollecting(f) then Collect(c, f, true) else f
  }

  /** Loading will complete a collection before it scans. */
  predicate Resumes(f: Flash) {
    SomeCollecting(f) && Empties(f) <= GC_EMPTY_THRESHOLD
  }

  lemma NothingToCollect(c: Config, f: Flash)
    requires !Resumes(f)
    ensures Resume(c, f) == f
  {
  }

  lemma SurvivesFits(c: Config, f: Flash)
    requires Survives(c, f)
    ensures Fitting(c, f, true) && (Empties(f) == 0 ==> SomeCollecting(f))
  {
    hide SectorFits, Empties;
  }

  lemma ReserveFitting(c: Config, f: Flash)
    requires Empties(f) >= 1
    ensures Fitting(c, f, true)
  {
  }

  // ---------- a second cut ----------

  /** A live copy of every entry is there, and every WRITE record is the map's own; two records may be
      pending at a time. */
  ghost predicate Kept(c: Config, g: Flash, m: map<Key, Value>) {
    Shape(c, g) && Total(g, Write) <= Items(m) <= Total(g, Write) + Total(g, PreDelete)
  }

  /** And if the collection can be completed from here, loading completes it with the map held. */
  ghost predicate Retrievable(c: Config, g: Flash, m: map<Key, Value>) {
    Kept(c, g, m) && (Empties(g) <= GC_EMPTY_THRESHOLD && Survives(c, g) ==> Held(c, Resume(c, g), m))
  }

  lemma PendingKept(c: Config, f: Flash, g: Flash, m: map<Key, Value>, p: Option<(Key, Value)>)
    requires Shape(c, g) && Pending(f, m, p) && Total(g, Write) <= Total(f, Write)
    requires Total(f, Write) + Total(f, PreDelete) <= Total(g, Write) + Total(g, PreDelete)
    ensures Kept(c, g, m)
  {
    hide Total, Shape;
    if p.Some? {
      assert Items(m) - multiset{p.value} + multiset{p.value} >= Items(m);
    }
  }

  lemma HeldRetrievable(c: Config, g: Flash, m: map<Key, Value>)
    requires Held(c, g, m) && ShortNames(m)
    ensures Retrievable(c, g, m)
  {
    hide Shape, Pending, Survives, Fitting, Empties, Total, SomeCollecting, PendingDirt, Collect;
    var p: Option<(Key, Value)> :| Pending(g, m, p);
    PendingKept(c, g, g, m, p);
    if Survives(c, g) {
      SurvivesFits(c, g);
      if Resumes(g) {
        var q := CollectKeeps(c, g, true, m, p);
        HeldSelf(c, Resume(c, g), m, q);
      } else {
        NothingToCollect(c, g);
      }
    }
  }

  /** On the way of a move during recovery, also with another record pending, nothing is lost. */
  lemma TurnKept(c: Config, h: Flash, a: nat, i: nat, m: map<Key, Value>, q: Option<(Key, Value)>, g: Flash)
    requires ValidConfig(c) && Shape(c, h) && a < |h| && i < |h[a].recs| && h[a].dirty == Collecting
    requires h[a].recs[i].good && h[a].recs[i].status == Write && Pending(h, m, q) && ShortNames(m)
    requires Target(c, h, a, i, true, true).Some? && MoveState(c, h, a, i, true, true, g)
    ensures Kept(c, g, m)
  {
    hide Shape, Total, Pending, Pick, KeyStored, Used, StoreAfter, MidAppend, Move, Copied, Kept, Denotes, Held;
    var f1, r := MarkedFlash(h, a, i), h[a].recs[i];
    MarkedRestated(h, a, i);
    MarkedOk(c, h, a, i);
    MarkedMeans(h, a, i, m, q);
    NameKnown(h, m, q, a, i);
    NotPicked(c, h, a, i, true);
    MarkedSums(h, f1, a, i, q);
    PendingKept(c, h, f1, m, q);
    MoveShape(c, h, a, i, true, true);
    MoveKeeps(c, h, a, i, true, true, m, q);
    PendingKept(c, Move(c, h, a, i, true, true), Move(c, h, a, i, true, true), m, q);
    if g != f1 && g != Move(c, h, a, i, true, true) {
      var t := Target(c, h, a, i, true, true).value;
      if t.None? {
        StoredMeans(f1, r.key);
        assert false;
      } else {
        CopyKept(c, h, a, i, t.value, m, q, g);
      }
    }
  }

  lemma MarkedSums(h: Flash, f1: Flash, a: nat, i: nat, q: Option<(Key, Value)>)
    requires a < |h| && i < |h[a].recs| && h[a].recs[i].status == Write && MarkOutcome(h, f1, a, i, q)
    ensures Total(f1, Write) <= Total(h, Write)
    ensures Total(f1, Write) + Total(f1, PreDelete) == Total(h, Write) + Total(h, PreDelete)
  {
    hide Total;
    var one := multiset{(h[a].recs[i].key, h[a].recs[i].value)};
    MultisetShift(Total(f1, Write), Total(h, PreDelete), one);
    assert Total(f1, Write) + Total(f1, PreDelete) == Total(f1, Write) + one + Total(h, PreDelete);
  }

  lemma CopyKept(c: Config, h: Flash, a: nat, i: nat, t: nat, m: map<Key, Value>, q: Option<(Key, Value)>, g: Flash)
    requires ValidConfig(c) && Shape(c, h) && a < |h| && i < |h[a].recs| && h[a].dirty == Collecting
    requires h[a].recs[i].good && h[a].recs[i].status == Write && Pending(h, m, q)
    requires Target(c, h, a, i, true, true) == Some(Some(t)) && CopyState(c, h, a, i, t, g)
    requires g != Move(c, h, a, i, true, true) && Kept(c, MarkedFlash(h, a, i), m)
    ensures Kept(c, g, m)
  {
    hide Shape, Total, Pending, Pick, KeyStored, Used, StoreAfter, MidAppend, Chosen;
    var f1, r := MarkedFlash(h, a, i), h[a].recs[i];
    var w := r.(status := Write);
    MarkedOk(c, h, a, i);
    PickIsChosen(c, f1, r.len, true);
    RoomFor(c, f1, t, r.len, true);
    GoodLength(c, h, a, i);
    if MidAppend(c, f1, t, w, g) {
      MidAppendSame(c, f1, t, w, g);
    } else {
      CopiedIsMoved(c, h, a, i, t);
      CopiedMeans(c, h, a, i, t);
      AdmitHere(c, f1, t, w);
      MarkedMeans(h, a, i, m, q);
      CopiedSums(c, h, a, i, t, m, q);
    }
  }

  lemma CopiedSums(c: Config, h: Flash, a: nat, i: nat, t: nat, m: map<Key, Value>, q: Option<(Key, Value)>)
    requires a < |h| && i < |h[a].recs| && h[a].recs[i].status == Write && t < |h| && Pending(h, m, q)
    requires MarkOutcome(h, MarkedFlash(h, a, i), a, i, q)
    requires var f1, f2 := MarkedFlash(h, a, i), Copied(c, h, a, i, t);
             var one := multiset{(h[a].recs[i].key, h[a].recs[i].value)};
             && Total(f2, Write) == Total(f1, Write) + one && Total(f2, PreDelete) == Total(f1, PreDelete)
             && Shape(c, f2)
    ensures Kept(c, Copied(c, h, a, i, t), m)
  {
    hide Total, Pending, Shape, Kept, Used, StoreAfter;
    PendingKept(c, h, Copied(c, h, a, i, t), m, q);
  }

  /** The copy half written: put the record back, and the collection is that of a held flash. */
  lemma CopyRetrievable(c: Config, h: Flash, a: nat, i: nat, m: map<Key, Value>, q: Option<(Key, Value)>, g: Flash)
    requires ValidConfig(c) && Shape(c, h) && Passed(c, h, a, i) && i < |h[a].recs| && IsWrite(h, Addr(a, i))
    requires Pending(h, m, q) && ShortNames(m) && HalfCopied(c, h, a, i, g) && FirstDirty(h, a)
    requires Empties(g) <= GC_EMPTY_THRESHOLD && Survives(c, g)
    ensures Held(c, Resume(c, g), m)
  {
    hide Shape, Passed, Pending, Pick, KeyStored, Used, Empties, MidAppend, Target, SectorFits, CollectSector,
      PendingDirt, Chosen, UpTo, MarkedFlash, Held;
    PassedDirty(c, h, a, i);
    var len := h[a].recs[i].len;
    TargetRoom(c, h, a, i);
    NotPicked(c, h, a, i, true);
    var t := Target(c, h, a, i, true, true).value.value;
    PutBack(c, h, a, i, t, g, m, q);
    MidDirty(c, MarkedFlash(h, a, i), t, h[a].recs[i].(status := Write), g);
    MarkedDirty(h, a, i);
    var f := Restated(g, a, i, Write);
    BackDirty(g, a, i);
    assert FirstDirty(g, a) && FirstDirty(f, a);
    MarkedTurn(c, f, a, i);
    SameEnd(c, f, g, a, i + 1);
    UpToClean(c, f, a, true);
    SectorThenRest(c, f, g, a);
    BackFitting(c, f, g, a, i, m, q);
    var p := CollectKeeps(c, f, true, m, q);
    HeldSelf(c, Collect(c, f, true), m, p);
    assert SomeCollecting(g);
  }

  lemma BackDirty(g: Flash, a: nat, i: nat)
    requires a < |g| && i < |g[a].recs|
    ensures var f := Restated(g, a, i, Write);
            |f| == |g| && |f[a].recs| == |g[a].recs| && forall x | 0 <= x < |g| :: f[x].dirty == g[x].dirty
  {
  }

  lemma MarkedDirty(h: Flash, a: nat, i: nat)
    requires a < |h| && i < |h[a].recs| && h[a].dirty == Collecting
    ensures var g := MarkedFlash(h, a, i); |g| == |h| && forall x | 0 <= x < |h| :: g[x].dirty == h[x].dirty
  {
  }

  lemma TargetRoom(c: Config, h: Flash, a: nat, i: nat)
    requires a < |h| && i < |h[a].recs| && h[a].dirty == Collecting
    ensures var t := Target(c, h, a, i, true, true);
            t.Some? && t.value.Some? ==>
              && t.value.value < |h| && t.value.value != a
              && h[t.value.value].store != Full && h[a].recs[i].len < Remain(c, h[t.value.value])
  {
    hide Used, Pick, KeyStored, Chosen;
    NotPicked(c, h, a, i, true);
    var t := Target(c, h, a, i, true, true);
    if t.Some? && t.value.Some? {
      RoomFor(c, MarkedFlash(h, a, i), t.value.value, h[a].recs[i].len, true);
    }
  }

  lemma BackFitting(c: Config, f: Flash, g: Flash, a: nat, i: nat, m: map<Key, Value>, q: Option<(Key, Value)>)
    requires Passed(c, f, a, i) && i < |f[a].recs| && IsWrite(f, Addr(a, i)) && Pending(f, m, q)
    requires g == MarkedFlash(f, a, i) && |g| == |f| && Empties(f) == Empties(g) && FirstDirty(f, a) && FirstDirty(g, a)
    requires Survives(c, g)
    ensures Fitting(c, f, true)
  {
    hide Pending, Passed, Empties, SectorFits, MarkedFlash;
    if Empties(g) == 0 {
      var d :| 0 <= d < |g| && FirstDirty(g, d) && g[d].dirty == Collecting && SectorFits(c, g, d, true);
      assert d == a;
      PutBackFits(c, f, a, i, m, q);
    }
  }

  /** A state on the way of the turn of record i, in sector s, with q pending by then. */
  lemma TurnRetrievable(c: Config, f: Flash, s: nat, i: nat, m: map<Key, Value>, q: Option<(Key, Value)>, g: Flash)
    requires ValidConfig(c) && s < |f| && Empties(f) <= GC_EMPTY_THRESHOLD && Held(c, Collect(c, f, true), m)
    requires var h := UpTo(c, f, s, true);
             && Shape(c, h) && Pending(h, m, q) && FirstDirty(h, s) && SectorFits(c, h, s, true)
             && i < |h[s].recs| && TurnState(c, Begun(h, s), s, i, true, g)
    requires ShortNames(m)
    ensures Retrievable(c, g, m)
  {
    hide Shape, Pending, UpTo, Collect, CollectSector, After, SectorFits, MoveState, Placed, Target, Held, Kept, Passed,
      HalfCopied, Survives, Empties, Fresh, SameLive, Whole;
    var h0 := UpTo(c, f, s, true);
    var b := Begun(h0, s);
    BegunShape(c, h0, s);
    BegunSame(h0, s);
    SamePending(b, h0, m, q);
    AfterShape(c, b, s, i, true);
    AfterGrows(c, b, s, i, true);
    FitsBefore(c, h0, s, i, true);
    FitsAt(c, h0, s, i, true);
    var p := AfterKeeps(c, b, s, i, true, m, q);
    var h := After(c, b, s, i, true);
    if p == None || h[s].recs[i].status == PreDelete {
      MoveStateHeld(c, h, s, i, true, true, m, p, g);
      HeldRetrievable(c, g, m);
    } else {
      PlacedWrite(c, h, s, i);
      TurnKept(c, h, s, i, m, p, g);
      PassedAfter(c, b, s, i);
      MoveDirty(c, h, s, i, g);
      if Empties(g) <= GC_EMPTY_THRESHOLD && Survives(c, g) {
        if HalfCopied(c, h, s, i, g) {
          CopyRetrievable(c, h, s, i, m, p, g);
        } else {
          NameKnown(h, m, p, s, i);
          TurnResumed(c, b, s, i, g);
          BegunEnd(c, h0, s);
          SectorThenRest(c, f, g, s);
          assert SomeCollecting(g);
        }
      }
    }
  }

  lemma PlacedWrite(c: Config, h: Flash, a: nat, i: nat)
    requires a < |h| && i < |h[a].recs| && Live(h[a].recs[i]) && h[a].recs[i].status != PreDelete
    requires Placed(c, h, a, i, true)
    ensures Target(c, h, a, i, true, true).Some?
  {
    hide Target, KeyStored;
  }

  /**
   A collection made by loading, cut at any flash write, also with a record pending before it: a live
   copy of every entry is there, and unless two sectors or more are EMPTY the next loading completes the
   collection with the map held, provided it can be completed at all.
   */
  lemma GcRetrievable(c: Config, f: Flash, m: map<Key, Value>, p: Option<(Key, Value)>, g: Flash)
    requires ValidConfig(c) && Shape(c, f) && Pending(f, m, p) && ShortNames(m) && Fitting(c, f, true)
    requires GcState(c, f, true, g)
    ensures Retrievable(c, g, m)
  {
    hide Shape, Pending, Empties, UpTo, SectorFits, CollectSector, Fitting, PendingDirt, Fresh, TurnState, Retrievable,
      SameLive, Collect, Held;
    var s: nat :| s < |f| && SectorState(c, UpTo(c, f, s, true), s, true, g);
    var q := UpToKeeps(c, f, s, true, m, p);
    UpToReserve(c, f, s, true);
    UpToFits(c, f, s, true);
    UpToSweeps(c, f, s, true);
    var h := UpTo(c, f, s, true);
    if g == Begun(h, s) {
      BegunShape(c, h, s);
      BegunSame(h, s);
      HeldAs(c, g, h, m, q);
      HeldRetrievable(c, g, m);
    } else if g == CollectSector(c, h, s, true) {
      SectorShape(c, h, s, true);
      var r := SectorKeeps(c, h, s, true, m, q);
      HeldSelf(c, g, m, r);
      HeldRetrievable(c, g, m);
    } else {
      var r := CollectKeeps(c, f, true, m, p);
      HeldSelf(c, Collect(c, f, true), m, r);
      var i: nat :| i < |Begun(h, s)[s].recs| && TurnState(c, Begun(h, s), s, i, true, g);
      TurnRetrievable(c, f, s, i, m, q, g);
    }
  }

  /** However often a collection made by loading is cut, but for the writing of copies: in the end the map
      is held and a sector is EMPTY. */
  lemma CutsAgainKeep(c: Config, fs: seq<Flash>, m: map<Key, Value>, p: Option<(Key, Value)>)
    requires fs != [] && Shape(c, fs[0]) && Pending(fs[0], m, p) && ShortNames(m) && Fitting(c, fs[0], true)
    requires forall k | 0 <= k < |fs| - 1 :: CutOnce(c, fs[k], fs[k + 1])
    ensures var g := Collect(c, fs[|fs| - 1], true); Held(c, g, m) && Empties(g) >= 1
  {
    hide Shape, Pending, Fitting, Empties, Collect, CutOnce, ShortRecs, PendingDirt;
    PendingShort(fs[0], m, p);
    CutsAgain(c, fs);
    var q := CollectKeeps(c, fs[0], true, m, p);
    HeldSelf(c, Collect(c, fs[0], true), m, q);
  }
}
