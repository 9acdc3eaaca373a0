/** How single flash operations change what a key-value store holds. */
module KvSteps {
  import opened Basics
  import opened KvFlash

  // ---------- totals ----------

  lemma SameRecs(f: Flash, s: nat, sec: Sector, st: Status)
    requires s < |f| && sec.recs == f[s].recs
    ensures Total(f[s := sec], st) == Total(f, st)
  {
    TotalUpdate(f, s, sec, st);
    MultisetCancel(Total(f[s := sec], st), Total(f, st), Pairs(sec.recs, st));
  }

  lemma MultisetCancel<T>(a: multiset<T>, b: multiset<T>, c: multiset<T>)
    requires a + c == b + c
    ensures a == b
  {
    assert forall x :: (a + c)[x] == a[x] + c[x] && (b + c)[x] == b[x] + c[x];
    assert forall x :: (a + c)[x] == (b + c)[x];
  }

  lemma RecChanged(f: Flash, s: nat, sec: Sector, i: nat, r: Rec, st: Status)
    requires s < |f| && i < |f[s].recs| && sec.recs == f[s].recs[i := r]
    ensures Total(f[s := sec], st) + One(f[s].recs[i], st) == Total(f, st) + One(r, st)
  {
    hide One;
    TotalUpdate(f, s, sec, st);
    PairsUpdate(f[s].recs, i, r, st);
    var a, b, c := Pairs(f[s].recs, st), Pairs(sec.recs, st), Total(f[s := sec], st);
    var o, n := One(f[s].recs[i], st), One(r, st);
    Exchange(c, a, Total(f, st), b, o, n);
  }

  lemma Exchange<T>(c: multiset<T>, a: multiset<T>, d: multiset<T>, b: multiset<T>, o: multiset<T>, n: multiset<T>)
    requires c + a == d + b && b + o == a + n
    ensures c + o == d + n
  {
    assert (c + o) + a == (c + a) + o == (d + b) + o == d + (b + o) == d + (a + n) == (d + n) + a;
    MultisetCancel(c + o, d + n, a);
  }

  lemma RecAdded(f: Flash, s: nat, sec: Sector, r: Rec, st: Status)
    requires s < |f| && sec.recs == f[s].recs + [r]
    ensures Total(f[s := sec], st) == Total(f, st) + One(r, st)
  {
    hide One;
    TotalUpdate(f, s, sec, st);
    PairsAppend(f[s].recs, r, st);
    var a, o := Pairs(f[s].recs, st), One(r, st);
    assert Total(f[s := sec], st) + a == (Total(f, st) + o) + a;
    MultisetCancel(Total(f[s := sec], st), Total(f, st) + o, a);
  }

  lemma {:induction false} DeadPairs(recs: seq<Rec>, st: Status)
    requires forall i | 0 <= i < |recs| :: !(recs[i].good && recs[i].status == st)
    ensures Pairs(recs, st) == multiset{}
  {
    if recs != [] {
      DeadPairs(recs[..|recs| - 1], st);
    }
  }

  /** A sector none of whose records has status st takes nothing along when it is erased. */
  lemma Erased(f: Flash, s: nat, st: Status)
    requires s < |f|
    requires forall i | 0 <= i < |f[s].recs| :: !(f[s].recs[i].good && f[s].recs[i].status == st)
    ensures Total(f[s := FORMATTED], st) == Total(f, st)
  {
    TotalUpdate(f, s, FORMATTED, st);
    DeadPairs(f[s].recs, st);
    assert Pairs(FORMATTED.recs, st) == multiset{};
    MultisetCancel(Total(f[s := FORMATTED], st), Total(f, st), multiset{});
  }

  lemma Present(f: Flash, s: nat, i: nat, st: Status)
    requires s < |f| && i < |f[s].recs| && f[s].recs[i].good && f[s].recs[i].status == st
    ensures (f[s].recs[i].key, f[s].recs[i].value) in Total(f, st)
  {
    PairsHas(f[s].recs, i, st);
    TotalHas(f, s, st);
  }

  lemma {:induction false} AbsentPairs(recs: seq<Rec>, k: Key, v: Value, st: Status)
    requires forall i | 0 <= i < |recs| :: !(recs[i].good && recs[i].status == st && recs[i].key == k)
    ensures (k, v) !in Pairs(recs, st)
  {
    if recs != [] {
      AbsentPairs(recs[..|recs| - 1], k, v, st);
    }
  }

  lemma {:induction false} Absent(f: Flash, k: Key, v: Value, st: Status)
    requires forall s, i | 0 <= s < |f| && 0 <= i < |f[s].recs| ::
               !(f[s].recs[i].good && f[s].recs[i].status == st && f[s].recs[i].key == k)
    ensures (k, v) !in Total(f, st)
  {
    if f != [] {
      var g := f[..|f| - 1];
      forall s, i | 0 <= s < |g| && 0 <= i < |g[s].recs|
        ensures !(g[s].recs[i].good && g[s].recs[i].status == st && g[s].recs[i].key == k)
      {
        assert g[s] == f[s];
      }
      Absent(g, k, v, st);
      AbsentPairs(f[|f| - 1].recs, k, v, st);
    }
  }

  // ---------- maps as multisets of pairs ----------

  lemma MultisetOfUnion<T>(s: set<T>, x: T)
    requires x !in s
    ensures multiset(s + {x}) == multiset(s) + multiset{x}
  {
    assert forall y :: multiset(s + {x})[y] == (multiset(s) + multiset{x})[y];
  }

  lemma ItemsAdd(m: map<Key, Value>, k: Key, v: Value)
    requires k !in m
    ensures Items(m[k := v]) == Items(m) + multiset{(k, v)}
  {
    ItemsRemove(m[k := v], k);
    assert m[k := v] - {k} == m;
    assert Items(m) + multiset{(k, v)} == Items(m[k := v]);
  }

  lemma ItemsRemove(m: map<Key, Value>, k: Key)
    requires k in m
    ensures (k, m[k]) in m.Items && Items(m - {k}) == Items(m) - multiset{(k, m[k])}
  {
    var n := m - {k};
    assert (k, m[k]) in m.Items;
    assert n.Items == m.Items - {(k, m[k])} by {
      forall p: (Key, Value)
        ensures p in n.Items <==> p in m.Items - {(k, m[k])}
      {
        assert p in n.Items <==> p.0 in n && n[p.0] == p.1;
      }
    }
    assert m.Items == n.Items + {(k, m[k])};
    MultisetOfUnion(n.Items, (k, m[k]));
  }

  lemma ItemsReplace(m: map<Key, Value>, k: Key, v: Value)
    requires k in m
    ensures Items(m[k := v]) == Items(m) - multiset{(k, m[k])} + multiset{(k, v)}
  {
    ItemsRemove(m, k);
    ItemsAdd(m - {k}, k, v);
    assert (m - {k})[k := v] == m[k := v];
  }

  /** Whatever record a map denotes is the map's own entry. */
  lemma DenotedEntry(m: map<Key, Value>, k: Key, v: Value)
    requires (k, v) in Items(m)
    ensures k in m && m[k] == v
  {
  }

  // ---------- the protocol, step by step ----------

  /** The map's record for its key goes from WRITE to PRE_DELETE: it is the one pending copy. */
  lemma Prepared(f: Flash, m: map<Key, Value>, s: nat, i: nat, sec: Sector)
    requires Denotes(f, m) && s < |f| && i < |f[s].recs|
    requires f[s].recs[i].good && f[s].recs[i].status == Write
    requires sec.recs == f[s].recs[i := f[s].recs[i].(status := PreDelete)]
    ensures var r := f[s].recs[i];
            r.key in m && m[r.key] == r.value && Pending(f[s := sec], m, Some((r.key, r.value))) &&
            Total(f[s := sec], Write) == Items(m) - multiset{(r.key, r.value)} &&
            Total(f[s := sec], PreDelete) == multiset{(r.key, r.value)}
  {
    hide Total, Pairs;
    var r := f[s].recs[i];
    Present(f, s, i, Write);
    DenotedEntry(m, r.key, r.value);
    Marked(f, s, i, sec);
    var one := multiset{(r.key, r.value)};
    assert Items(m) == Items(m) - one + one;
    MultisetCancel(Total(f[s := sec], Write), Items(m) - one, one);
  }

  /** A WRITE record goes to PRE_DELETE: its pair changes sides. */
  lemma Marked(f: Flash, s: nat, i: nat, sec: Sector)
    requires s < |f| && i < |f[s].recs|
    requires f[s].recs[i].good && f[s].recs[i].status == Write
    requires sec.recs == f[s].recs[i := f[s].recs[i].(status := PreDelete)]
    ensures var one := multiset{(f[s].recs[i].key, f[s].recs[i].value)};
            Total(f[s := sec], Write) + one == Total(f, Write) &&
            Total(f[s := sec], PreDelete) == Total(f, PreDelete) + one
  {
    hide Total, Pairs;
    var r := f[s].recs[i];
    var p := r.(status := PreDelete);
    RecChanged(f, s, sec, i, p, Write);
    RecChanged(f, s, sec, i, p, PreDelete);
    var one := multiset{(r.key, r.value)};
    assert One(r, Write) == one && One(p, Write) == multiset{};
    assert One(r, PreDelete) == multiset{} && One(p, PreDelete) == one;
    assert Total(f, Write) + multiset{} == Total(f, Write);
    MultisetCancel(Total(f[s := sec], PreDelete), Total(f, PreDelete) + one, multiset{});
  }

  /** A record goes from `from` to DELETED. */
  lemma Finished(f: Flash, s: nat, i: nat, sec: Sector, from: Status)
    requires s < |f| && i < |f[s].recs| && from != Deleted
    requires f[s].recs[i].good && f[s].recs[i].status == from
    requires sec.recs == f[s].recs[i := f[s].recs[i].(status := Deleted)]
    ensures var r := f[s].recs[i];
            Total(f[s := sec], from) + multiset{(r.key, r.value)} == Total(f, from)
    ensures forall st | st != from && st != Deleted :: Total(f[s := sec], st) == Total(f, st)
  {
    hide Total, Pairs;
    var r := f[s].recs[i];
    var d := r.(status := Deleted);
    RecChanged(f, s, sec, i, d, from);
    assert Total(f, from) + multiset{} == Total(f, from);
    assert One(r, from) == multiset{(r.key, r.value)} && One(d, from) == multiset{};
    forall st | st != from && st != Deleted
      ensures Total(f[s := sec], st) == Total(f, st)
    {
      RecChanged(f, s, sec, i, d, st);
      assert One(r, st) == multiset{} && One(d, st) == multiset{};
      MultisetCancel(Total(f[s := sec], st), Total(f, st), multiset{});
    }
  }

  /** In every state recovery can meet, a stored pair is the map's own, stored once. */
  lemma WrittenOnce(f: Flash, m: map<Key, Value>, p: Option<(Key, Value)>, k: Key, v: Value)
    requires Pending(f, m, p) && (k, v) in Total(f, Write)
    ensures k in m && m[k] == v && Total(f, Write)[(k, v)] == 1
  {
    hide Total;
  }

  /** The pending pair, once its key is known not to be stored, is the map's missing entry. */
  lemma Revived(f: Flash, g: Flash, m: map<Key, Value>, p: Option<(Key, Value)>, k: Key, v: Value)
    requires Pending(f, m, p) && (k, v) in Total(f, PreDelete) && forall w :: (k, w) !in Total(f, Write)
    requires Total(g, Write) == Total(f, Write) + multiset{(k, v)}
    requires Total(g, PreDelete) + multiset{(k, v)} == Total(f, PreDelete)
    ensures Denotes(g, m)
  {
    hide Total;
    assert p == Some((k, v));
    ItemsRemove(m, k);
    assert (k, m[k]) in Items(m);
    assert Items(m) - multiset{(k, v)} + multiset{(k, v)} == Items(m);
    MultisetCancel(Total(g, PreDelete), multiset{}, multiset{(k, v)});
  }

  /** When the pending pair's key is stored, the pending copy is not needed. */
  lemma Duplicate(f: Flash, g: Flash, m: map<Key, Value>, p: Option<(Key, Value)>, k: Key, v: Value, w: Value)
    requires Pending(f, m, p) && (k, v) in Total(f, PreDelete) && (k, w) in Total(f, Write)
    requires Total(g, Write) == Total(f, Write)
    requires Total(g, PreDelete) + multiset{(k, v)} == Total(f, PreDelete)
    ensures Denotes(g, m) && Pending(g, m, None)
  {
    hide Total;
    assert p == Some((k, v));
    WrittenOnce(f, m, p, k, w);
    assert w == m[k];
    assert Items(m)[(k, m[k])] == 1;
    MultisetCancel(Total(g, PreDelete), multiset{}, multiset{(k, v)});
  }

  /** A record that was just marked PRE_DELETE has no second WRITE record to its name. */
  lemma NoSecond(f: Flash, g: Flash, m: map<Key, Value>, p: Option<(Key, Value)>, k: Key, v: Value)
    requires Pending(f, m, p) && Total(g, Write) + multiset{(k, v)} == Total(f, Write)
    ensures forall w :: (k, w) !in Total(g, Write)
  {
    hide Total;
    assert (k, v) in Total(f, Write);
    WrittenOnce(f, m, p, k, v);
    assert Total(f, Write)[(k, v)] == Total(g, Write)[(k, v)] + 1;
    forall w
      ensures (k, w) !in Total(g, Write)
    {
      if (k, w) in Total(g, Write) {
        assert (k, w) in Total(f, Write);
        WrittenOnce(f, m, p, k, w);
      }
    }
  }

  /** The states on the way of a move of a WRITE record of a store at rest: m is held in each. */
  lemma MoveStates(f0: Flash, f1: Flash, f2: Flash, m: map<Key, Value>, k: Key, v: Value)
    requires Denotes(f0, m)
    requires Total(f1, Write) + multiset{(k, v)} == Total(f0, Write)
    requires Total(f1, PreDelete) == Total(f0, PreDelete) + multiset{(k, v)}
    requires Total(f2, Write) == Total(f1, Write) + multiset{(k, v)} && Total(f2, PreDelete) == Total(f1, PreDelete)
    ensures Pending(f1, m, Some((k, v))) && Pending(f2, m, Some((k, v)))
  {
    hide Total;
    assert (k, v) in Items(m);
    DenotedEntry(m, k, v);
    assert multiset{} + multiset{(k, v)} == multiset{(k, v)};
    assert Items(m) - multiset{(k, v)} + multiset{(k, v)} == Items(m);
    MultisetCancel(Total(f1, Write), Items(m) - multiset{(k, v)}, multiset{(k, v)});
  }

  /** A new key's record was added to a store at rest. */
  lemma AddedStates(f: Flash, g: Flash, t: nat, sec: Sector, m: map<Key, Value>, r: Rec)
    requires Denotes(f, m) && r.key !in m && r.good && r.status == Write
    requires t < |f| && sec.recs == f[t].recs + [r] && g == f[t := sec]
    ensures Denotes(g, m[r.key := r.value])
  {
    hide Total;
    RecAdded(f, t, sec, r, Write);
    RecAdded(f, t, sec, r, PreDelete);
    ItemsAdd(m, r.key, r.value);
    assert Total(f, PreDelete) + multiset{} == Total(f, PreDelete);
  }

  /** The new record r of a key was added while its old record is the one pending copy. */
  lemma ReplacedStates(f: Flash, g: Flash, t: nat, sec: Sector, m: map<Key, Value>, r: Rec)
    requires r.key in m && r.good && r.status == Write
    requires Total(f, Write) == Items(m) - multiset{(r.key, m[r.key])}
    requires Total(f, PreDelete) == multiset{(r.key, m[r.key])}
    requires t < |f| && sec.recs == f[t].recs + [r] && g == f[t := sec]
    ensures Total(g, Write) == Items(m[r.key := r.value]) && Total(g, PreDelete) == Total(f, PreDelete)
    ensures Pending(g, m[r.key := r.value], Some((r.key, m[r.key])))
  {
    hide Total;
    RecAdded(f, t, sec, r, Write);
    RecAdded(f, t, sec, r, PreDelete);
    ItemsReplace(m, r.key, r.value);
    assert Total(f, PreDelete) + multiset{} == Total(f, PreDelete);
  }

  // ---------- a record being written ----------

  /** What a reader finds where a record was begun but its header is missing. */
  function Torn(n: nat): Rec { Rec([], [], n, ErrHdr, false) }

  /** The sector while record r is being written: its last slot reads as x. */
  function Partial(c: Config, sec: Sector, r: Rec, x: Rec): Sector {
    Sector(StoreAfter(c, sec, r.len), sec.dirty, sec.recs + [x])
  }

  ghost predicate SameLive(f: Flash, g: Flash) {
    Total(f, Write) == Total(g, Write) && Total(f, PreDelete) == Total(g, PreDelete)
  }

  lemma PartialOk(c: Config, f: Flash, s: nat, r: Rec, x: Rec)
    requires Shape(c, f) && s < |f| && f[s].store != Full
    requires 0 < x.len <= r.len < Remain(c, f[s]) && (x.good ==> c.hdr <= x.len)
    ensures Shape(c, f[s := Partial(c, f[s], r, x)])
  {
    AppendOk(c, f[s], x, StoreAfter(c, f[s], r.len));
    ShapeUpdate(c, f, s, Partial(c, f[s], r, x));
  }

  lemma PartialSame(c: Config, f: Flash, s: nat, r: Rec, x: Rec)
    requires s < |f| && (x.status == PreWrite || x.status == ErrHdr)
    ensures SameLive(f[s := Partial(c, f[s], r, x)], f)
  {
    RecAdded(f, s, Partial(c, f[s], r, x), x, Write);
    RecAdded(f, s, Partial(c, f[s], r, x), x, PreDelete);
  }

  lemma EmptySector(c: Config, f: Flash, s: nat)
    requires Shape(c, f) && s < |f|
    ensures f[s].store == Empty <==> f[s].recs == []
  {
  }

  /** The sector once update_sec_status has written its new status. */
  function Opened(c: Config, sec: Sector, len: nat): Sector {
    sec.(store := StoreAfter(c, sec, len), recs := if sec.store == Empty then [Torn(c.hdr)] else sec.recs)
  }

  lemma OpenedOk(c: Config, f: Flash, s: nat, r: Rec)
    requires ValidConfig(c) && Shape(c, f) && s < |f| && f[s].store != Full
    requires c.hdr <= r.len < Remain(c, f[s])
    ensures var g := f[s := Opened(c, f[s], r.len)]; Shape(c, g) && SameLive(g, f)
  {
    hide Used, Total;
    if f[s].store == Empty {
      PartialOk(c, f, s, r, Torn(c.hdr));
      PartialSame(c, f, s, r, Torn(c.hdr));
      assert [] + [Torn(c.hdr)] == [Torn(c.hdr)];
    } else {
      var sec := Opened(c, f[s], r.len);
      assert SecOk(c, sec);
      ShapeUpdate(c, f, s, sec);
      SameRecs(f, s, sec, Write);
      SameRecs(f, s, sec, PreDelete);
    }
  }

  // ---------- histories of flash states ----------

  /** In every state from t0 to t1 a sector is EMPTY: loading after a cut there starts with one. */
  ghost predicate Reserve(t0: seq<Flash>, t1: seq<Flash>) {
    t0 <= t1 && forall j | |t0| <= j < |t1| :: Empties(t1[j]) >= 1
  }

  /** While a record is written there are as many EMPTY sectors as afterwards. */
  lemma PartialEmpties(c: Config, f: Flash, s: nat, r: Rec, x: Rec)
    requires s < |f|
    ensures Empties(f[s := Partial(c, f[s], r, x)]) == Empties(f[s := Admit(c, f[s], r)])
    ensures f[s].store != Full ==> Empties(f[s := Opened(c, f[s], r.len)]) == Empties(f[s := Admit(c, f[s], r)])
  {
    hide Used;
    EmptiesUpdate(f, s, Partial(c, f[s], r, x));
    EmptiesUpdate(f, s, Admit(c, f[s], r));
    EmptiesUpdate(f, s, Opened(c, f[s], r.len));
  }

  lemma SamePending(f: Flash, g: Flash, m: map<Key, Value>, p: Option<(Key, Value)>)
    requires SameLive(f, g) && Pending(g, m, p)
    ensures Pending(f, m, p)
  {
  }

  // ---------- the states of an append ----------

  /** What a slot may read as before the record r in it is complete. */
  ghost predicate Half(c: Config, r: Rec, x: Rec) {
    0 < x.len <= r.len && (x.good ==> c.hdr <= x.len) && (x.status == PreWrite || x.status == ErrHdr)
  }

  /** Adding record r to sector s of f was begun, and is not complete, in g. */
  ghost predicate MidAppend(c: Config, f: Flash, s: nat, r: Rec, g: Flash) {
    s < |f| && g != f &&
    (g == f[s := Opened(c, f[s], r.len)] ||
     exists x: Rec :: Half(c, r, x) && g == f[s := Partial(c, f[s], r, x)])
  }

  /** The flash states from t0 to t1 are those of adding record r to sector s of f. */
  ghost predicate Appending(c: Config, f: Flash, s: nat, r: Rec, t0: seq<Flash>, t1: seq<Flash>) {
    t0 <= t1 && s < |f| &&
    forall j | |t0| <= j < |t1| :: MidAppend(c, f, s, r, t1[j]) || t1[j] == f[s := Admit(c, f[s], r)]
  }

  lemma AppendingStart(c: Config, f: Flash, s: nat, r: Rec, t: seq<Flash>)
    requires s < |f|
    ensures Appending(c, f, s, r, t, t)
  {
  }

  lemma AppendingStep(c: Config, f: Flash, s: nat, r: Rec, t0: seq<Flash>, t1: seq<Flash>, g: Flash)
    requires Appending(c, f, s, r, t0, t1)
    requires MidAppend(c, f, s, r, g) || g == f[s := Admit(c, f[s], r)]
    ensures Appending(c, f, s, r, t0, t1 + [g])
  {
    hide MidAppend, Admit;
  }

  /** Until it is complete the record changes nothing that is live. */
  lemma MidAppendSame(c: Config, f: Flash, s: nat, r: Rec, g: Flash)
    requires ValidConfig(c) && Shape(c, f) && s < |f| && f[s].store != Full && MidAppend(c, f, s, r, g)
    requires c.hdr <= r.len < Remain(c, f[s])
    ensures Shape(c, g) && SameLive(g, f) && Empties(g) == Empties(f[s := Admit(c, f[s], r)])
    ensures |g| == |f| && g[s].dirty == f[s].dirty && forall x | 0 <= x < |f| && x != s :: g[x] == f[x]
  {
    hide Shape, SameLive, Empties, Used, StoreAfter;
    if g == f[s := Opened(c, f[s], r.len)] {
      OpenedOk(c, f, s, r);
      PartialEmpties(c, f, s, r, r);
    } else {
      var x: Rec :| Half(c, r, x) && g == f[s := Partial(c, f[s], r, x)];
      PartialOk(c, f, s, r, x);
      PartialSame(c, f, s, r, x);
      PartialEmpties(c, f, s, r, x);
    }
  }
}
