/**
 When a collection that was cut without an EMPTY sector left, and is taken up again, loses data:
 exactly if some live record of the sector finds no place at its turn.
 */
module KvLoss {
  import opened Basics
  import opened KvFlash
  import opened KvSteps
  import opened KvCache
  import opened KvGc
  import opened KvCollect
  import opened KvKeeps
  import opened KvCuts

  // ---------- there is one live record of a kind ----------

  lemma Twice(f: Flash, s: nat, i: nat, t: nat, j: nat, st: Status)
    requires s < |f| && i < |f[s].recs| && t < |f| && j < |f[t].recs| && (s != t || i != j) && st != Deleted
    requires f[s].recs[i].good && f[s].recs[i].status == st && f[t].recs[j].good && f[t].recs[j].status == st
    requires f[s].recs[i].key == f[t].recs[j].key && f[s].recs[i].value == f[t].recs[j].value
    ensures Total(f, st)[(f[s].recs[i].key, f[s].recs[i].value)] >= 2
  {
    hide Total;
    var g := f[s := Restatus(f[s], i, Deleted)];
    Finished(f, s, i, g[s], st);
    assert g[t].recs[j] == f[t].recs[j];
    Present(g, t, j, st);
  }

  /** Only one record is pending. */
  lemma PendingOnce(f: Flash, m: map<Key, Value>, p: Option<(Key, Value)>, s: nat, i: nat, t: nat, j: nat)
    requires Pending(f, m, p) && PendingAt(f, s, i) && PendingAt(f, t, j)
    ensures s == t && i == j
  {
    hide Total, Pending;
    PendingNone(f, m, p);
    Present(f, s, i, PreDelete);
    Present(f, t, j, PreDelete);
    if s != t || i != j {
      Twice(f, s, i, t, j, PreDelete);
      PendingSingle(f, m, p);
      assert false;
    }
  }

  lemma PendingSingle(f: Flash, m: map<Key, Value>, p: Option<(Key, Value)>)
    requires Pending(f, m, p)
    ensures p.Some? ==> Total(f, PreDelete)[p.value] == 1
  {
    hide Total;
  }

  /** A name has one WRITE record. */
  lemma WrittenAtOnce(f: Flash, m: map<Key, Value>, p: Option<(Key, Value)>, a: Addr, b: Addr)
    requires Pending(f, m, p) && IsWrite(f, a) && IsWrite(f, b)
    requires f[a.sec].recs[a.rec].key == f[b.sec].recs[b.rec].key
    ensures a == b
  {
    hide Total, Pending;
    var r, w := f[a.sec].recs[a.rec], f[b.sec].recs[b.rec];
    Present(f, a.sec, a.rec, Write);
    Present(f, b.sec, b.rec, Write);
    WrittenOnce(f, m, p, r.key, r.value);
    WrittenOnce(f, m, p, w.key, w.value);
    if a != b {
      Twice(f, a.sec, a.rec, b.sec, b.rec, Write);
      assert false;
    }
  }

  // ---------- a name with no live record does not come back ----------

  /** Record i of sector a is the only one of name k that may be live. */
  ghost predicate OnlyAt(f: Flash, k: Key, a: nat, i: nat) {
    forall s, j | 0 <= s < |f| && 0 <= j < |f[s].recs| && Live(f[s].recs[j]) && f[s].recs[j].key == k ::
      s == a && j == i
  }

  ghost predicate NoneLive(f: Flash, k: Key) {
    forall s, j | 0 <= s < |f| && 0 <= j < |f[s].recs| && Live(f[s].recs[j]) :: f[s].recs[j].key != k
  }

  lemma StepOnly(c: Config, f: Flash, a: nat, i: nat, rec: bool, k: Key, j: nat)
    requires a < |f| && i < |f[a].recs| && f[a].dirty == Collecting && OnlyAt(f, k, a, j)
    requires i != j || Target(c, f, a, i, true, rec).None?
    ensures OnlyAt(Step(c, f, a, i, rec), k, a, j)
  {
    hide Used, Pick, KeyStored, StoreAfter, Chosen;
    NotPicked(c, f, a, i, rec);
  }

  lemma {:induction false} AfterOnly(c: Config, f: Flash, a: nat, i: nat, n: nat, rec: bool, k: Key)
    requires a < |f| && i < n <= |f[a].recs| && f[a].dirty == Collecting
    requires var g := After(c, f, a, i, rec); OnlyAt(g, k, a, i) && Target(c, g, a, i, true, rec).None?
    ensures OnlyAt(After(c, f, a, n, rec), k, a, i)
    decreases n
  {
    hide Step, Target, OnlyAt;
    if n == i + 1 {
      AfterGrows(c, f, a, i, rec);
      StepOnly(c, After(c, f, a, i, rec), a, i, rec, k, i);
    } else {
      AfterOnly(c, f, a, i, n - 1, rec, k);
      AfterGrows(c, f, a, n - 1, rec);
      StepOnly(c, After(c, f, a, n - 1, rec), a, n - 1, rec, k, i);
    }
  }

  lemma StepNone(c: Config, f: Flash, a: nat, i: nat, rec: bool, k: Key)
    requires a < |f| && i < |f[a].recs| && f[a].dirty == Collecting && NoneLive(f, k)
    ensures NoneLive(Step(c, f, a, i, rec), k)
  {
    hide Used, Pick, KeyStored, StoreAfter, Chosen;
    NotPicked(c, f, a, i, rec);
  }

  lemma {:induction false} AfterNone(c: Config, f: Flash, a: nat, i: nat, rec: bool, k: Key)
    requires a < |f| && i <= |f[a].recs| && f[a].dirty == Collecting && NoneLive(f, k)
    ensures NoneLive(After(c, f, a, i, rec), k)
    decreases i
  {
    hide Step, NoneLive;
    if i > 0 {
      AfterNone(c, f, a, i - 1, rec, k);
      AfterGrows(c, f, a, i - 1, rec);
      StepNone(c, After(c, f, a, i - 1, rec), a, i - 1, rec, k);
    }
  }

  lemma SectorNone(c: Config, f: Flash, a: nat, rec: bool, k: Key)
    requires a < |f| && NoneLive(f, k)
    ensures NoneLive(CollectSector(c, f, a, rec), k)
  {
    hide After;
    if f[a].dirty != Clean {
      AfterNone(c, Begun(f, a), a, |f[a].recs|, rec, k);
    }
  }

  lemma {:induction false} UpToNone(c: Config, f: Flash, s: nat, t: nat, rec: bool, k: Key)
    requires s <= t <= |f| && NoneLive(UpTo(c, f, s, rec), k)
    ensures NoneLive(UpTo(c, f, t, rec), k)
    decreases t
  {
    hide NoneLive, CollectSector;
    if s < t {
      UpToNone(c, f, s, t - 1, rec, k);
      SectorNone(c, UpTo(c, f, t - 1, rec), t - 1, rec, k);
    }
  }

  /** A name of m without a live record: m is not held. */
  lemma NoneLiveLost(f: Flash, k: Key, m: map<Key, Value>, q: Option<(Key, Value)>)
    requires k in m && NoneLive(f, k)
    ensures !Pending(f, m, q)
  {
    hide Total;
    assert Items(m)[(k, m[k])] == 1;
    Absent(f, k, m[k], Write);
    Absent(f, k, m[k], PreDelete);
  }

  // ---------- the exact condition ----------

  lemma FirstMisplaced(c: Config, f: Flash, a: nat, rec: bool) returns (i: nat)
    requires a < |f| && f[a].dirty != Clean && !SectorFits(c, f, a, rec)
    ensures var g := Begun(f, a);
            && i < |g[a].recs| && !Placed(c, After(c, g, a, i, rec), a, i, rec)
            && forall j | 0 <= j < i :: Placed(c, After(c, g, a, j, rec), a, j, rec)
  {
    hide Placed, After;
    var g := Begun(f, a);
    i := 0;
    while Placed(c, After(c, g, a, i, rec), a, i, rec)
      invariant i < |g[a].recs|
      invariant forall j | 0 <= j < i :: Placed(c, After(c, g, a, j, rec), a, j, rec)
      decreases |g[a].recs| - i
    {
      i := i + 1;
    }
  }

  /** The pending record's twin, if it has one, is not in sector d. */
  ghost predicate TwinElsewhere(f: Flash, d: nat, p: Option<(Key, Value)>)
    requires d < |f|
  {
    p.Some? ==> !HasKey(f[d].recs, p.value.0)
  }

  /** The misplaced record is the only live one of its name. */
  lemma MisplacedAlone(c: Config, f: Flash, g: Flash, d: nat, i: nat, rec: bool, m: map<Key, Value>,
                       p: Option<(Key, Value)>, q: Option<(Key, Value)>)
    requires d < |f| == |g| && Pending(g, m, q) && (q == p || q == None) && TwinElsewhere(f, d, p)
    requires i < |f[d].recs| == |g[d].recs| && g[d].recs[i] == f[d].recs[i] && !Placed(c, g, d, i, rec)
    requires Movable(m, p, rec)
    ensures var k := g[d].recs[i].key; k in m && OnlyAt(g, k, d, i) && Target(c, g, d, i, true, rec).None?
  {
    hide Total, Pending, Target;
    var r := g[d].recs[i];
    var k := r.key;
    Present(g, d, i, r.status);
    PendingNone(g, m, q);
    NameKnown(g, m, q, d, i);
    MatchesName(r, k);
    assert r.status == Write && |k| < KV_NAME_MAX ==> HasKey(f[d].recs, k);
    forall s, j | 0 <= s < |g| && 0 <= j < |g[s].recs| && Live(g[s].recs[j]) && g[s].recs[j].key == k
      ensures s == d && j == i
    {
      Present(g, s, j, g[s].recs[j].status);
      WriteStored(g, s, j);
      if r.status == Write {
        if g[s].recs[j].status == Write {
          WrittenAtOnce(g, m, q, Addr(s, j), Addr(d, i));
        }
      } else if g[s].recs[j].status == PreDelete {
        PendingOnce(g, m, q, s, j, d, i);
      }
    }
  }

  lemma WriteStored(f: Flash, s: nat, i: nat)
    requires s < |f| && i < |f[s].recs|
    ensures IsWrite(f, Addr(s, i)) && |f[s].recs[i].key| < KV_NAME_MAX ==> KeyStored(f, f[s].recs[i].key)
  {
    hide KeyStored;
    StoredIff(f, f[s].recs[i].key);
  }

  /** If some record of the first dirty sector is misplaced, its name is lost for good. */
  lemma MisplacedLost(c: Config, f: Flash, d: nat, rec: bool, m: map<Key, Value>, p: Option<(Key, Value)>)
    returns (k: Key)
    requires Pending(f, m, p) && Movable(m, p, rec) && Empties(f) <= GC_EMPTY_THRESHOLD
    requires FirstDirty(f, d) && !SectorFits(c, f, d, rec) && TwinElsewhere(f, d, p)
    ensures k in m && NoneLive(Collect(c, f, rec), k)
  {
    hide Total, Pending, Placed, Target, Step, Empties, SectorFits, OnlyAt, Fresh;
    UpToClean(c, f, d, rec);
    var g := Begun(f, d);
    BegunSame(f, d);
    SamePending(g, f, m, p);
    var i := FirstMisplaced(c, f, d, rec);
    var q := AfterKeeps(c, g, d, i, rec, m, p);
    AfterGrows(c, g, d, i, rec);
    var h := After(c, g, d, i, rec);
    MisplacedAlone(c, f, h, d, i, rec, m, p, q);
    k := h[d].recs[i].key;
    var n := |f[d].recs|;
    AfterOnly(c, g, d, i, n, rec, k);
    ErasedNone(After(c, g, d, n, rec), k, d, i);
    UpToNone(c, f, d + 1, |f|, rec, k);
  }

  lemma ErasedNone(f: Flash, k: Key, a: nat, i: nat)
    requires a < |f| && OnlyAt(f, k, a, i)
    ensures NoneLive(f[a := FORMATTED], k)
  {
  }

  /**
   A collection taken up again without an EMPTY sector: it keeps the map if and only if every live
   record of the first dirty sector finds room at its turn, or is a PRE_DELETE record with its name
   stored.
   */
  lemma ResumedKeepsIff(c: Config, f: Flash, d: nat, m: map<Key, Value>, p: Option<(Key, Value)>)
    requires Shape(c, f) && Pending(f, m, p) && Empties(f) == 0 && FirstDirty(f, d) && TwinElsewhere(f, d, p)
    requires ShortNames(m)
    ensures Held(c, Collect(c, f, true), m) <==> SectorFits(c, f, d, true)
  {
    hide Shape, Pending, Empties, SectorFits, Collect, TwinElsewhere;
    if SectorFits(c, f, d, true) {
      var q := CollectKeeps(c, f, true, m, p);
    } else {
      var k := MisplacedLost(c, f, d, true, m, p);
      forall q: Option<(Key, Value)>
        ensures !Pending(Collect(c, f, true), m, q)
      {
        NoneLiveLost(Collect(c, f, true), k, m, q);
      }
    }
  }

  // ---------- one record left to copy ----------

  /** Some clean sector in use has room for `len` bytes. */
  predicate RoomInUse(c: Config, f: Flash, len: nat) {
    exists x | 0 <= x < |f| :: f[x].store == Using && f[x].dirty == Clean && Remain(c, f[x]) > len
  }

  /** Without an EMPTY sector a collection can take its records nowhere else. */
  lemma RoomIff(c: Config, f: Flash, a: nat, i: nat, rec: bool)
    requires a < |f| && i < |f[a].recs| && f[a].dirty == Collecting && Empties(f) == 0
    ensures Target(c, f, a, i, true, rec).Some? <==> RoomInUse(c, f, f[a].recs[i].len)
  {
    hide Used, Pick, KeyStored, Empties, Chosen;
    var f1, len := MarkedFlash(f, a, i), f[a].recs[i].len;
    PickIsChosen(c, f1, len, true);
    EmptiesUpdate(f, a, f1[a]);
    assert f1 == f[a := f1[a]];
    forall x: nat
      ensures Allocatable(c, f1, x, len, true) <==>
                x < |f| && f[x].store == Using && f[x].dirty == Clean && Remain(c, f[x]) > len
    {
      if x < |f| && f1[x].store == Empty {
        NoEmpty(f1, x);
      }
    }
  }

  lemma {:induction false} DeadTurns(c: Config, f: Flash, a: nat, i: nat, n: nat, rec: bool)
    requires a < |f| && i <= n <= |f[a].recs| && forall j | i <= j < n :: !Live(f[a].recs[j])
    requires f[a].dirty == Collecting && i <= |f[a].recs| && After(c, f, a, i, rec) == f
    ensures After(c, f, a, n, rec) == f
    decreases n
  {
    if i < n {
      DeadTurns(c, f, a, i, n - 1, rec);
    }
  }

  /** With one live record left in the sector, not yet stored anywhere: it finds its place if and only
      if a clean sector in use has room for it. */
  lemma LastLiveFitsIff(c: Config, f: Flash, a: nat, i: nat, rec: bool)
    requires a < |f| && i < |f[a].recs| && f[a].dirty == Collecting && Empties(f) == 0
    requires Live(f[a].recs[i]) && forall j | 0 <= j < |f[a].recs| && j != i :: !Live(f[a].recs[j])
    requires f[a].recs[i].status == PreDelete ==> !KeyStored(f, f[a].recs[i].key)
    ensures SectorFits(c, f, a, rec) <==> RoomInUse(c, f, f[a].recs[i].len)
  {
    hide Used, Target, KeyStored, Empties, RoomInUse, After, Fresh;
    assert Begun(f, a) == f;
    AfterNone0(c, f, a, rec);
    DeadTurns(c, f, a, 0, i, rec);
    RoomIff(c, f, a, i, rec);
    forall j | 0 <= j < |f[a].recs| && j != i
      ensures Placed(c, After(c, f, a, j, rec), a, j, rec)
    {
      AfterGrows(c, f, a, j, rec);
    }
  }

  lemma AfterNone0(c: Config, f: Flash, a: nat, rec: bool)
    requires a < |f|
    ensures After(c, f, a, 0, rec) == f
  {
  }

  /** In any case the first live record must find room in such a sector. */
  lemma FirstLiveFits(c: Config, f: Flash, a: nat, i: nat, rec: bool)
    requires a < |f| && i < |f[a].recs| && f[a].dirty == Collecting && Empties(f) == 0 && SectorFits(c, f, a, rec)
    requires Live(f[a].recs[i]) && forall j | 0 <= j < i :: !Live(f[a].recs[j])
    requires f[a].recs[i].status == PreDelete ==> !KeyStored(f, f[a].recs[i].key)
    ensures RoomInUse(c, f, f[a].recs[i].len)
  {
    hide Used, Target, KeyStored, Empties, RoomInUse, After;
    assert Begun(f, a) == f;
    AfterNone0(c, f, a, rec);
    DeadTurns(c, f, a, 0, i, rec);
    RoomIff(c, f, a, i, rec);
    assert Placed(c, After(c, f, a, i, rec), a, i, rec);
  }

  // ---------- a sector with room for all that is left ----------

  /** The bytes of the live records. */
  function LiveBytes(recs: seq<Rec>): nat {
    if recs == [] then 0
    else LiveBytes(recs[..|recs| - 1]) + if Live(recs[|recs| - 1]) then recs[|recs| - 1].len else 0
  }

  lemma {:induction false} LiveBytesPrefix(recs: seq<Rec>, i: nat)
    requires i < |recs|
    ensures LiveBytes(recs[..i]) + (if Live(recs[i]) then recs[i].len else 0) == LiveBytes(recs[..i + 1])
    ensures LiveBytes(recs[..i + 1]) <= LiveBytes(recs)
    decreases |recs|
  {
    assert recs[..i + 1][..i] == recs[..i];
    if i + 1 < |recs| {
      LiveBytesPrefix(recs[..|recs| - 1], i);
      assert recs[..|recs| - 1][..i + 1] == recs[..i + 1] && recs[..|recs| - 1][..i] == recs[..i];
    } else {
      assert recs[..i + 1] == recs;
    }
  }

  /** Sector x is in use and clean, and has room for `need` bytes and the threshold. */
  ghost predicate Roomy(c: Config, f: Flash, x: nat, need: int) {
    x < |f| && f[x].store == Using && f[x].dirty == Clean && Remain(c, f[x]) >= Threshold(c) + need
  }

  lemma RoomyStep(c: Config, f: Flash, a: nat, i: nat, rec: bool, x: nat, need: nat)
    requires a < |f| && i < |f[a].recs| && f[a].dirty == Collecting && x != a
    requires Live(f[a].recs[i]) && Roomy(c, f, x, need) && need >= f[a].recs[i].len
    ensures Target(c, f, a, i, true, rec).Some? && Roomy(c, Step(c, f, a, i, rec), x, need - f[a].recs[i].len)
  {
    hide Used, Pick, KeyStored, Chosen, NoAllocation;
    var f1 := MarkedFlash(f, a, i);
    var len := f[a].recs[i].len;
    NotPicked(c, f, a, i, rec);
    PickIsChosen(c, f1, len, true);
    assert Allocatable(c, f1, x, len, true);
    assert !NoAllocation(c, f1, len, true) by {
      RoomExists(c, f1, x, len);
    }
    UsedAppend(f[x].recs, f[a].recs[i].(status := Write));
  }

  lemma RoomExists(c: Config, f: Flash, x: nat, len: nat)
    requires Allocatable(c, f, x, len, true)
    ensures !NoAllocation(c, f, len, true)
  {
  }

  lemma {:induction false} RoomyAfter(c: Config, f: Flash, a: nat, i: nat, rec: bool, x: nat)
    requires a < |f| && i <= |f[a].recs| && f[a].dirty == Collecting && x != a
    requires Roomy(c, f, x, LiveBytes(f[a].recs))
    ensures Roomy(c, After(c, f, a, i, rec), x, LiveBytes(f[a].recs) - LiveBytes(f[a].recs[..i]))
    decreases i
  {
    hide Step, LiveBytes, Used, Roomy, Fresh;
    if i == 0 {
      assert LiveBytes(f[a].recs[..0]) == 0 by {
        NoBytes();
      }
    } else {
      RoomyAfter(c, f, a, i - 1, rec, x);
      AfterGrows(c, f, a, i - 1, rec);
      LiveBytesPrefix(f[a].recs, i - 1);
      RoomyTurn(c, After(c, f, a, i - 1, rec), a, i - 1, rec, x, LiveBytes(f[a].recs) - LiveBytes(f[a].recs[..i - 1]));
    }
  }

  lemma NoBytes()
    ensures LiveBytes([]) == 0
  {
  }

  lemma RoomyTurn(c: Config, f: Flash, a: nat, i: nat, rec: bool, x: nat, need: nat)
    requires a < |f| && i < |f[a].recs| && f[a].dirty == Collecting && x != a && Roomy(c, f, x, need)
    requires var len := if Live(f[a].recs[i]) then f[a].recs[i].len else 0; need >= len
    ensures Roomy(c, Step(c, f, a, i, rec), x, need - if Live(f[a].recs[i]) then f[a].recs[i].len else 0)
    ensures Placed(c, f, a, i, rec)
  {
    hide Roomy, Target, KeyStored, Move;
    if Live(f[a].recs[i]) {
      RoomyStep(c, f, a, i, rec, x, need);
    }
  }

  /** A clean sector in use with room for all live records of sector a, and the threshold, is enough. */
  lemma RoomyFits(c: Config, f: Flash, a: nat, rec: bool, x: nat)
    requires a < |f| && f[a].dirty == Collecting && x != a && Roomy(c, f, x, LiveBytes(f[a].recs))
    ensures SectorFits(c, f, a, rec)
  {
    hide Step, LiveBytes, Used, Roomy, Placed, Fresh, After;
    assert Begun(f, a) == f;
    forall i | 0 <= i < |f[a].recs|
      ensures Placed(c, After(c, f, a, i, rec), a, i, rec)
    {
      RoomyAfter(c, f, a, i, rec, x);
      AfterGrows(c, f, a, i, rec);
      LiveBytesPrefix(f[a].recs, i);
      RoomyTurn(c, After(c, f, a, i, rec), a, i, rec, x, LiveBytes(f[a].recs) - LiveBytes(f[a].recs[..i]));
    }
  }
}
