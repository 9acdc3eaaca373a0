/**
 What moving and collecting look at: live records and lengths.  Two flashes that agree in these are
 collected alike.
 */
module KvAlike {
  import opened Basics
  import opened KvFlash
  import opened KvSteps
  import opened KvGc
  import opened KvCollect

  /** The same record, or two dead ones of one length. */
  ghost predicate LikeRec(x: Rec, y: Rec) {
    x.len == y.len && (x == y || (!Live(x) && !Live(y)))
  }

  ghost predicate LikeRecs(a: seq<Rec>, b: seq<Rec>) {
    |a| == |b| && forall j | 0 <= j < |a| :: LikeRec(a[j], b[j])
  }

  ghost predicate LikeSector(a: Sector, b: Sector) {
    a.store == b.store && a.dirty == b.dirty && LikeRecs(a.recs, b.recs)
  }

  ghost predicate Alike(f: Flash, g: Flash) {
    |f| == |g| && forall s | 0 <= s < |f| :: LikeSector(f[s], g[s])
  }

  lemma LikeUsed(a: seq<Rec>, b: seq<Rec>)
    requires LikeRecs(a, b)
    ensures Used(a) == Used(b)
  {
    UsedSameLens(a, b);
  }

  /** The allocator cannot tell them apart. */
  ghost predicate SameRoom(f: Flash, g: Flash) {
    |f| == |g| && forall s | 0 <= s < |f| ::
      f[s].store == g[s].store && f[s].dirty == g[s].dirty && Used(f[s].recs) == Used(g[s].recs)
  }

  lemma {:induction false} SameFirstRoom(c: Config, f: Flash, g: Flash, store: Store, size: nat, gc: bool, i: nat)
    requires SameRoom(f, g) && i <= |f|
    ensures FirstRoom(c, f, store, size, gc, i) == FirstRoom(c, g, store, size, gc, i)
    decreases |f| - i
  {
    hide Used;
    if i < |f| {
      SameFirstRoom(c, f, g, store, size, gc, i + 1);
    }
  }

  lemma {:induction false} SameEmpties(f: Flash, g: Flash)
    requires SameRoom(f, g)
    ensures Empties(f) == Empties(g)
  {
    hide Used;
    if f != [] {
      SameEmpties(f[..|f| - 1], g[..|g| - 1]);
    } else {
      assert g == [];
    }
  }

  lemma SamePick(c: Config, f: Flash, g: Flash, size: nat, gc: bool)
    requires SameRoom(f, g)
    ensures Pick(c, f, size, gc) == Pick(c, g, size, gc)
  {
    hide Empties, FirstRoom, Used;
    SameEmpties(f, g);
    SameFirstRoom(c, f, g, Using, size, gc, 0);
    SameFirstRoom(c, f, g, Empty, size, gc, 0);
  }

  lemma LikeRoom(f: Flash, g: Flash)
    requires Alike(f, g)
    ensures SameRoom(f, g)
  {
    hide Used, LikeRecs;
    forall s | 0 <= s < |f|
      ensures Used(f[s].recs) == Used(g[s].recs)
    {
      LikeUsed(f[s].recs, g[s].recs);
    }
  }

  lemma LikePick(c: Config, f: Flash, g: Flash, size: nat, gc: bool)
    requires Alike(f, g)
    ensures Pick(c, f, size, gc) == Pick(c, g, size, gc)
  {
    hide Alike, SameRoom, Pick;
    LikeRoom(f, g);
    SamePick(c, f, g, size, gc);
  }

  lemma LikeSize(f: Flash, g: Flash)
    requires Alike(f, g)
    ensures |f| == |g|
  {
  }

  lemma LikeHasKey(a: seq<Rec>, b: seq<Rec>, k: Key)
    requires LikeRecs(a, b) && HasKey(a, k)
    ensures HasKey(b, k)
  {
    var i: nat :| i < |a| && Matches(a[i], k);
    assert LikeRec(a[i], b[i]);
    assert Matches(b[i], k);
  }

  lemma LikeStored(f: Flash, g: Flash, k: Key)
    requires Alike(f, g)
    ensures KeyStored(f, k) <==> KeyStored(g, k)
  {
    hide HasKey, LikeRecs;
    forall s | 0 <= s < |f|
      ensures HasKey(f[s].recs, k) <==> HasKey(g[s].recs, k)
    {
      LikeSymmetric(f[s].recs, g[s].recs);
      if HasKey(f[s].recs, k) {
        LikeHasKey(f[s].recs, g[s].recs, k);
      } else if HasKey(g[s].recs, k) {
        LikeHasKey(g[s].recs, f[s].recs, k);
      }
    }
  }

  lemma LikeSymmetric(a: seq<Rec>, b: seq<Rec>)
    requires LikeRecs(a, b)
    ensures LikeRecs(b, a)
  {
  }

  lemma LikeStatus(f: Flash, g: Flash, a: nat, i: nat, st: Status)
    requires Alike(f, g) && a < |f| && i < |f[a].recs| && Live(f[a].recs[i])
    ensures i < |g[a].recs| && g[a].recs[i] == f[a].recs[i]
    ensures Alike(f[a := Soil(Restatus(f[a], i, st))], g[a := Soil(Restatus(g[a], i, st))])
  {
    assert LikeRec(f[a].recs[i], g[a].recs[i]);
  }

  lemma LikeMarked(f: Flash, g: Flash, a: nat, i: nat)
    requires Alike(f, g) && a < |f| && i < |f[a].recs| && Live(f[a].recs[i])
    ensures i < |g[a].recs| && g[a].recs[i] == f[a].recs[i]
    ensures Alike(MarkedFlash(f, a, i), MarkedFlash(g, a, i))
  {
    hide Alike, Soil, Restatus;
    LikeSize(f, g);
    LikeStatus(f, g, a, i, PreDelete);
  }

  lemma LikeMoved(c: Config, f: Flash, g: Flash, a: nat, i: nat, t: Option<nat>)
    requires Alike(f, g) && a < |f| && i < |f[a].recs| && Live(f[a].recs[i])
    ensures i < |g[a].recs| && Alike(Moved(c, f, a, i, t), Moved(c, g, a, i, t))
  {
    hide Used, Soil, Restatus;
    LikeStatus(f, g, a, i, Deleted);
    var f1, g1 := f[a := Retire(f[a], i)], g[a := Retire(g[a], i)];
    if t.Some? && t.value < |f| {
      LikeUsed(f1[t.value].recs, g1[t.value].recs);
    }
  }

  lemma LikeStep(c: Config, f: Flash, g: Flash, a: nat, i: nat, rec: bool)
    requires Alike(f, g) && a < |f| && i < |f[a].recs|
    ensures i < |g[a].recs| && Alike(Step(c, f, a, i, rec), Step(c, g, a, i, rec))
  {
    hide Alike, MarkedFlash, Moved, Pick, KeyStored;
    LikeAt(f, g, a, i);
    if Live(f[a].recs[i]) {
      var f1, g1 := MarkedFlash(f, a, i), MarkedFlash(g, a, i);
      LikeMarked(f, g, a, i);
      LikePick(c, f1, g1, f[a].recs[i].len, true);
      LikeStored(f1, g1, NameRead(f[a].recs[i].key));
      var t := Target(c, f, a, i, true, rec);
      if t.Some? {
        LikeMoved(c, f, g, a, i, t.value);
      }
    }
  }

  lemma LikeAt(f: Flash, g: Flash, a: nat, i: nat)
    requires Alike(f, g) && a < |f| && i < |f[a].recs|
    ensures |g| == |f| && i < |g[a].recs| && LikeRec(f[a].recs[i], g[a].recs[i]) && |f[a].recs| == |g[a].recs|
    ensures f[a].dirty == g[a].dirty
  {
    assert LikeSector(f[a], g[a]);
  }

  lemma {:induction false} LikeAfter(c: Config, f: Flash, g: Flash, a: nat, i: nat, rec: bool)
    requires Alike(f, g) && a < |f| && i <= |f[a].recs|
    ensures i <= |g[a].recs| && Alike(After(c, f, a, i, rec), After(c, g, a, i, rec))
    decreases i
  {
    hide Alike, Step;
    LikeSize(f, g);
    if i > 0 {
      LikeAt(f, g, a, i - 1);
      LikeAfter(c, f, g, a, i - 1, rec);
      LikeStep(c, After(c, f, a, i - 1, rec), After(c, g, a, i - 1, rec), a, i - 1, rec);
    }
  }

  lemma LikeWith(f: Flash, g: Flash, a: nat, x: Sector, y: Sector)
    requires Alike(f, g) && a < |f| && LikeSector(x, y)
    ensures |g| == |f| && LikeSector(f[a], g[a]) && Alike(f[a := x], g[a := y])
  {
  }

  lemma LikeCollected(c: Config, f: Flash, g: Flash, a: nat, rec: bool)
    requires Alike(f, g) && a < |f|
    ensures |g| == |f| && Alike(CollectSector(c, f, a, rec), CollectSector(c, g, a, rec))
  {
    hide Alike, After;
    LikeWith(f, g, a, FORMATTED, FORMATTED);
    if f[a].dirty != Clean {
      var n := |f[a].recs|;
      LikeWith(f, g, a, f[a].(dirty := Collecting), g[a].(dirty := Collecting));
      LikeAfter(c, Begun(f, a), Begun(g, a), a, n, rec);
      LikeWith(After(c, Begun(f, a), a, n, rec), After(c, Begun(g, a), a, n, rec), a, FORMATTED, FORMATTED);
    }
  }

  lemma {:induction false} LikeUpTo(c: Config, f: Flash, g: Flash, s: nat, rec: bool)
    requires Alike(f, g) && s <= |f|
    ensures |g| == |f| && Alike(UpTo(c, f, s, rec), UpTo(c, g, s, rec))
    decreases s
  {
    hide Alike, CollectSector;
    LikeSize(f, g);
    if s > 0 {
      LikeUpTo(c, f, g, s - 1, rec);
      LikeCollected(c, UpTo(c, f, s - 1, rec), UpTo(c, g, s - 1, rec), s - 1, rec);
    }
  }

  /** Flashes that agree in live records and lengths do so after a collection. */
  lemma LikeCollect(c: Config, f: Flash, g: Flash, rec: bool)
    requires Alike(f, g)
    ensures Alike(Collect(c, f, rec), Collect(c, g, rec))
  {
    hide Alike, UpTo, Empties;
    LikeRoom(f, g);
    SameEmpties(f, g);
    LikeUpTo(c, f, g, |f|, rec);
  }
}
