/**
 move_kv, do_gc and gc_collect as functions of the flash, whatever it holds and whether or not every
 record finds room, and what they do to the records and to the map.
 */
module KvCollect {
  import opened Basics
  import opened KvFlash
  import opened KvSteps
  import opened KvCache
  import opened KvGc

  // ---------- the functions ----------

  /** find_kv_cb takes the record for name k: the lengths agree, and the name read agrees up to there. */
  predicate Matches(r: Rec, k: Key) {
    |k| == |r.key| && r.good && r.status == Write && NameRead(r.key) == k
  }

  predicate HasKey(recs: seq<Rec>, k: Key) {
    exists i | 0 <= i < |recs| :: Matches(recs[i], k)
  }

  /** find_kv_no_cache finds the name. */
  predicate KeyStored(f: Flash, k: Key) {
    exists s | 0 <= s < |f| :: HasKey(f[s].recs, k)
  }

  /** A record matches exactly its own name, and none that fills the buffer. */
  lemma MatchesName(r: Rec, k: Key)
    ensures Matches(r, k) <==> r.good && r.status == Write && r.key == k && |k| < KV_NAME_MAX
  {
  }

  /** The scan finds a name exactly if it is stored and shorter than KV_NAME_MAX. */
  lemma StoredIff(f: Flash, k: Key)
    ensures KeyStored(f, k) <==> |k| < KV_NAME_MAX && exists a: Addr :: IsWrite(f, a) && f[a.sec].recs[a.rec].key == k
  {
    if KeyStored(f, k) {
      var s: nat :| s < |f| && HasKey(f[s].recs, k);
      var i: nat :| i < |f[s].recs| && Matches(f[s].recs[i], k);
      assert IsWrite(f, Addr(s, i));
    } else {
      forall a: Addr | IsWrite(f, a) && f[a.sec].recs[a.rec].key == k
        ensures |k| >= KV_NAME_MAX
      {
        assert !HasKey(f[a.sec].recs, k);
        MatchesName(f[a.sec].recs[a.rec], k);
      }
    }
  }

  /** Where move_kv takes record i of sector a: nowhere, for want of room; or to a sector; or, during
      recovery and with the name, as read, stored, it is only deleted. */
  function Target(c: Config, f: Flash, a: nat, i: nat, gc: bool, rec: bool): Option<Option<nat>>
    requires a < |f| && i < |f[a].recs|
  {
    var g := MarkedFlash(f, a, i);
    var t := Pick(c, g, f[a].recs[i].len, gc);
    if t.None? then None
    else if rec && KeyStored(g, NameRead(f[a].recs[i].key)) then Some(None)
    else Some(t)
  }

  /** The flash after move_kv. */
  function Move(c: Config, f: Flash, a: nat, i: nat, gc: bool, rec: bool): (g: Flash)
    requires a < |f| && i < |f[a].recs|
    ensures |g| == |f| && |g[a].recs| >= |f[a].recs|
  {
    match Target(c, f, a, i, gc, rec)
    case None => MarkedFlash(f, a, i)
    case Some(t) => Moved(c, f, a, i, t)
  }

  /** One turn of do_gc's loop: only live records are moved. */
  function Step(c: Config, f: Flash, a: nat, i: nat, rec: bool): (g: Flash)
    requires a < |f| && i < |f[a].recs|
    ensures |g| == |f| && |g[a].recs| >= |f[a].recs|
  {
    if Live(f[a].recs[i]) then Move(c, f, a, i, true, rec) else f
  }

  /** The flash after i turns of the loop. */
  function After(c: Config, f: Flash, a: nat, i: nat, rec: bool): (g: Flash)
    requires a < |f| && i <= |f[a].recs|
    ensures |g| == |f| && |g[a].recs| >= |f[a].recs|
    decreases i
  {
    if i == 0 then f else Step(c, After(c, f, a, i - 1, rec), a, i - 1, rec)
  }

  function Begun(f: Flash, a: nat): (g: Flash)
    requires a < |f|
    ensures |g| == |f| && g[a].recs == f[a].recs
  {
    f[a := f[a].(dirty := Collecting)]
  }

  /** do_gc: the sector is formatted in any case. */
  function CollectSector(c: Config, f: Flash, a: nat, rec: bool): (g: Flash)
    requires a < |f|
    ensures |g| == |f|
  {
    if f[a].dirty == Clean then f
    else After(c, Begun(f, a), a, |f[a].recs|, rec)[a := FORMATTED]
  }

  /** The flash after do_gc on the first s sectors. */
  function UpTo(c: Config, f: Flash, s: nat, rec: bool): (g: Flash)
    requires s <= |f|
    ensures |g| == |f|
    decreases s
  {
    if s == 0 then f else CollectSector(c, UpTo(c, f, s - 1, rec), s - 1, rec)
  }

  /** gc_collect. */
  function Collect(c: Config, f: Flash, rec: bool): (g: Flash)
    ensures |g| == |f|
  {
    if Empties(f) <= GC_EMPTY_THRESHOLD then UpTo(c, f, |f|, rec) else f
  }

  // ---------- when every record finds its place ----------

  /** A live record at its turn finds room, or is a PRE_DELETE record whose name is stored. */
  predicate Placed(c: Config, f: Flash, a: nat, i: nat, rec: bool)
    requires a < |f| && i < |f[a].recs|
  {
    Live(f[a].recs[i]) ==>
      || Target(c, f, a, i, true, rec).Some?
      || (f[a].recs[i].status == PreDelete && KeyStored(f, f[a].recs[i].key))
  }

  /** No live record of the sector is lost when it is collected. */
  predicate SectorFits(c: Config, f: Flash, a: nat, rec: bool)
    requires a < |f|
  {
    f[a].dirty == Clean ||
    var g := Begun(f, a);
    forall i | 0 <= i < |g[a].recs| :: Placed(c, After(c, g, a, i, rec), a, i, rec)
  }

  // ---------- what happens to the records ----------

  /** From n on there are only complete records. */
  ghost predicate Fresh(recs: seq<Rec>, n: nat) {
    forall j | n <= j < |recs| :: recs[j].good && recs[j].status == Write
  }

  /** All sectors but a keep their dirty status and their records, and may have gained some. */
  ghost predicate Grown(f: Flash, g: Flash, a: nat) {
    |g| == |f| && forall s | 0 <= s < |f| && s != a ::
      g[s].dirty == f[s].dirty && f[s].recs <= g[s].recs && Fresh(g[s].recs, |f[s].recs|)
  }

  lemma GrownTwice(f: Flash, g: Flash, h: Flash, a: nat)
    requires Grown(f, g, a) && Grown(g, h, a)
    ensures Grown(f, h, a)
  {
    forall s | 0 <= s < |f| && s != a
      ensures h[s].dirty == f[s].dirty && f[s].recs <= h[s].recs && Fresh(h[s].recs, |f[s].recs|)
    {
      assert g[s].recs <= h[s].recs;
    }
  }

  /** The collected sector changes in record i only, which is not WRITE any more. */
  ghost predicate Dealt(f: Flash, g: Flash, a: nat, i: nat) {
    && a < |f| == |g| && i < |f[a].recs| == |g[a].recs|
    && g[a].dirty == f[a].dirty && g[a].store == f[a].store
    && (forall j | 0 <= j < |f[a].recs| && j != i :: g[a].recs[j] == f[a].recs[j])
    && g[a].recs[i] == f[a].recs[i].(status := g[a].recs[i].status)
    && !(g[a].recs[i].good && g[a].recs[i].status == Write)
    && (f[a].recs[i].status != Write ==> g[a].recs[i].status == f[a].recs[i].status || g[a].recs[i].status == Deleted)
  }

  /** A sector being collected takes in nothing itself. */
  lemma NotPicked(c: Config, f: Flash, a: nat, i: nat, rec: bool)
    requires a < |f| && i < |f[a].recs| && f[a].dirty == Collecting
    ensures var t := Target(c, f, a, i, true, rec);
            t.Some? && t.value.Some? ==>
              t.value.value < |f| && t.value.value != a && f[t.value.value].dirty == Clean &&
              Chosen(c, MarkedFlash(f, a, i), t.value.value, f[a].recs[i].len, true)
  {
    hide Used;
    PickIsChosen(c, MarkedFlash(f, a, i), f[a].recs[i].len, true);
  }

  lemma StepGrows(c: Config, f: Flash, a: nat, i: nat, rec: bool)
    requires a < |f| && i < |f[a].recs| && f[a].dirty == Collecting
    ensures var g := Step(c, f, a, i, rec); Grown(f, g, a) && Dealt(f, g, a, i)
  {
    hide Used, Pick, KeyStored, StoreAfter, Chosen;
    NotPicked(c, f, a, i, rec);
  }

  /** What i turns of the loop have done. */
  lemma {:induction false} AfterGrows(c: Config, f: Flash, a: nat, i: nat, rec: bool)
    requires a < |f| && i <= |f[a].recs| && f[a].dirty == Collecting
    ensures var g := After(c, f, a, i, rec);
            && Grown(f, g, a) && g[a].dirty == Collecting && g[a].store == f[a].store
            && |g[a].recs| == |f[a].recs|
            && (forall j | 0 <= j < |f[a].recs| :: g[a].recs[j] == f[a].recs[j].(status := g[a].recs[j].status))
            && (forall j | i <= j < |f[a].recs| :: g[a].recs[j] == f[a].recs[j])
            && forall j | 0 <= j < i :: !(g[a].recs[j].good && g[a].recs[j].status == Write)
    decreases i
  {
    hide Step, Fresh;
    if i > 0 {
      AfterGrows(c, f, a, i - 1, rec);
      StepGrows(c, After(c, f, a, i - 1, rec), a, i - 1, rec);
      GrownTwice(f, After(c, f, a, i - 1, rec), After(c, f, a, i, rec), a);
    } else {
      assert Grown(f, f, a) by {
        StaysGrown(f, a);
      }
    }
  }

  lemma StaysGrown(f: Flash, a: nat)
    ensures Grown(f, f, a)
  {
  }

  lemma SectorGrows(c: Config, f: Flash, a: nat, rec: bool)
    requires a < |f|
    ensures var g := CollectSector(c, f, a, rec);
            Grown(f, g, a) && g[a].dirty == Clean && g[a] == if f[a].dirty == Clean then f[a] else FORMATTED
  {
    hide Fresh;
    if f[a].dirty != Clean {
      AfterGrows(c, Begun(f, a), a, |f[a].recs|, rec);
    } else {
      StaysGrown(f, a);
    }
  }

  /** What a clean sector held before, and nothing of a dirty one, is followed by complete records. */
  ghost predicate Swept(f: Flash, h: Flash, s: nat) {
    && |h| == |f| && s <= |f|
    && (forall x | s <= x < |f| :: h[x].dirty == f[x].dirty)
    && (forall x | 0 <= x < s :: h[x].dirty == Clean)
    && forall x | 0 <= x < |f| ::
         if x < s && f[x].dirty != Clean then Fresh(h[x].recs, 0)
         else f[x].recs <= h[x].recs && Fresh(h[x].recs, |f[x].recs|)
  }

  lemma {:induction false} UpToSweeps(c: Config, f: Flash, s: nat, rec: bool)
    requires s <= |f|
    ensures Swept(f, UpTo(c, f, s, rec), s)
    decreases s
  {
    hide CollectSector;
    if s > 0 {
      UpToSweeps(c, f, s - 1, rec);
      SectorGrows(c, UpTo(c, f, s - 1, rec), s - 1, rec);
    }
  }

  /** After a collection no sector is dirty; what there is comes from the clean sectors, or is a
      complete copy. */
  lemma CollectSweeps(c: Config, f: Flash, rec: bool)
    requires Empties(f) <= GC_EMPTY_THRESHOLD
    ensures Swept(f, Collect(c, f, rec), |f|)
  {
    UpToSweeps(c, f, |f|, rec);
  }

  lemma {:induction false} UpToClean(c: Config, f: Flash, s: nat, rec: bool)
    requires s <= |f| && forall x | 0 <= x < s :: f[x].dirty == Clean
    ensures UpTo(c, f, s, rec) == f
    decreases s
  {
    if s > 0 {
      UpToClean(c, f, s - 1, rec);
    }
  }

  /** Where nothing is dirty there is nothing to collect. */
  lemma CollectClean(c: Config, f: Flash, rec: bool)
    requires forall x | 0 <= x < |f| :: f[x].dirty == Clean
    ensures Collect(c, f, rec) == f
  {
    UpToClean(c, f, |f|, rec);
  }
}
