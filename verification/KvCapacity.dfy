/**
 Space that is not wasted.  In runs without power cuts a clean sector holds live records only, and a
 FULL one has less than the threshold left; so a set that finds no room even after collecting garbage
 finds none because the live records fill the store.
 */
module KvCapacity {
  import opened Basics
  import opened KvFlash
  import opened KvSteps
  import opened KvGc
  import opened KvCollect
  import opened KvStates

  // ---------- the length of a record ----------

  lemma AlignIs(c: Config, n: nat)
    requires c.unit >= 1
    ensures n <= Align(c, n) < n + c.unit && Align(c, n) % c.unit == 0
  {
    var q := (n + c.unit - 1) / c.unit;
    Quotient(n + c.unit - 1, c.unit, q);
    DivMod(q, 0, c.unit);
  }

  lemma Quotient(n: nat, d: nat, q: nat)
    requires d >= 1 && q == n / d
    ensures q * d <= n < q * d + d
  {
  }

  lemma AddedMultiple(n: nat, m: nat, d: nat)
    requires d >= 1 && n % d == 0 && m % d == 0
    ensures (n + m) % d == 0
  {
    var a, b := n / d, m / d;
    assert n == a * d && m == b * d;
    assert n + m == (a + b) * d;
    DivMod(a + b, 0, d);
  }

  /** Header, name and value lie one behind the other; the value and the end of the record are at the
      first addresses behind that are multiples of the unit. */
  lemma LaidOut(c: Config, k: Key, v: Value) returns (at: nat)
    requires ValidConfig(c)
    ensures c.hdr + |k| <= at < c.hdr + |k| + c.unit && at % c.unit == 0
    ensures at + |v| <= KvLen(c, k, v) < at + |v| + c.unit && KvLen(c, k, v) % c.unit == 0
  {
    hide Align;
    AlignIs(c, |k|);
    AlignIs(c, |v|);
    at := c.hdr + Align(c, |k|);
    AddedMultiple(c.hdr, Align(c, |k|), c.unit);
    AddedMultiple(at, Align(c, |v|), c.unit);
  }

  // ---------- nothing is wasted ----------

  /** A record written as create_kv_blob does, in whatever state. */
  ghost predicate Proper(c: Config, r: Rec)
    requires c.unit >= 1
  {
    r.good && r.len == KvLen(c, r.key, r.value)
  }

  ghost predicate TidySector(c: Config, s: Sector)
    requires c.unit >= 1
  {
    && (forall i | 0 <= i < |s.recs| :: Proper(c, s.recs[i]))
    && (s.dirty == Clean ==> forall i | 0 <= i < |s.recs| :: s.recs[i].status == Write)
    && (s.store == Full ==> Remain(c, s) < Threshold(c))
  }

  ghost predicate Tidy(c: Config, f: Flash) {
    c.unit >= 1 && forall s | 0 <= s < |f| :: TidySector(c, f[s])
  }

  lemma TidyWith(c: Config, f: Flash, s: nat, sec: Sector)
    requires Tidy(c, f) && s < |f| && TidySector(c, sec)
    ensures Tidy(c, f[s := sec])
  {
    hide TidySector;
  }

  lemma TidyAt(c: Config, f: Flash, s: nat)
    requires Tidy(c, f) && s < |f|
    ensures TidySector(c, f[s])
  {
  }

  lemma AdmitTidy(c: Config, f: Flash, t: nat, r: Rec)
    requires Tidy(c, f) && t < |f| && Proper(c, r) && r.status == Write
    ensures Tidy(c, f[t := Admit(c, f[t], r)])
  {
    hide Used, KvLen, Tidy;
    TidyAt(c, f, t);
    UsedAppend(f[t].recs, r);
    TidyWith(c, f, t, Admit(c, f[t], r));
  }

  lemma SoilTidy(c: Config, f: Flash, a: nat, i: nat, st: Status)
    requires Tidy(c, f) && a < |f| && i < |f[a].recs|
    ensures Tidy(c, f[a := Soil(Restatus(f[a], i, st))])
  {
    hide Used, KvLen, Tidy;
    TidyAt(c, f, a);
    var sec := Soil(Restatus(f[a], i, st));
    UsedSameLens(f[a].recs, sec.recs);
    TidyWith(c, f, a, sec);
  }

  lemma StepTidy(c: Config, f: Flash, a: nat, i: nat, rec: bool)
    requires Tidy(c, f) && a < |f| && i < |f[a].recs|
    ensures Tidy(c, Step(c, f, a, i, rec))
  {
    hide Tidy, Target, StoreAfter, Soil, Restatus, Admit, KvLen;
    SoilTidy(c, f, a, i, PreDelete);
    SoilTidy(c, f, a, i, Deleted);
    ProperAt(c, f, a, i);
    var g := f[a := Retire(f[a], i)];
    var t := Target(c, f, a, i, true, rec);
    if t.Some? && t.value.Some? && t.value.value < |g| {
      AdmitTidy(c, g, t.value.value, f[a].recs[i].(status := Write));
    }
  }

  lemma ProperAt(c: Config, f: Flash, a: nat, i: nat)
    requires Tidy(c, f) && a < |f| && i < |f[a].recs|
    ensures c.unit >= 1 && Proper(c, f[a].recs[i])
  {
    assert TidySector(c, f[a]);
  }

  lemma {:induction false} AfterTidy(c: Config, f: Flash, a: nat, i: nat, rec: bool)
    requires Tidy(c, f) && a < |f| && i <= |f[a].recs|
    ensures Tidy(c, After(c, f, a, i, rec))
    decreases i
  {
    hide Tidy, Step;
    if i > 0 {
      AfterTidy(c, f, a, i - 1, rec);
      StepTidy(c, After(c, f, a, i - 1, rec), a, i - 1, rec);
    }
  }

  lemma BegunTidy(c: Config, f: Flash, a: nat)
    requires Tidy(c, f) && a < |f| && f[a].dirty != Clean
    ensures Tidy(c, Begun(f, a)) && TidySector(c, FORMATTED)
  {
    hide Used, KvLen;
    assert TidySector(c, f[a]);
    assert TidySector(c, f[a].(dirty := Collecting));
  }

  lemma SectorTidy(c: Config, f: Flash, a: nat, rec: bool)
    requires Tidy(c, f) && a < |f|
    ensures Tidy(c, CollectSector(c, f, a, rec))
  {
    hide Tidy, After, TidySector;
    if f[a].dirty != Clean {
      assert c.unit >= 1 by {
        TidyUnit(c, f);
      }
      BegunTidy(c, f, a);
      AfterTidy(c, Begun(f, a), a, |f[a].recs|, rec);
      TidyWith(c, After(c, Begun(f, a), a, |f[a].recs|, rec), a, FORMATTED);
    }
  }

  lemma TidyUnit(c: Config, f: Flash)
    requires Tidy(c, f)
    ensures c.unit >= 1
  {
  }

  lemma {:induction false} UpToTidy(c: Config, f: Flash, s: nat, rec: bool)
    requires Tidy(c, f) && s <= |f|
    ensures Tidy(c, UpTo(c, f, s, rec))
    decreases s
  {
    hide Tidy, CollectSector;
    if s > 0 {
      UpToTidy(c, f, s - 1, rec);
      SectorTidy(c, UpTo(c, f, s - 1, rec), s - 1, rec);
    }
  }

  /** Collecting garbage keeps the store tidy. */
  lemma CollectTidy(c: Config, f: Flash, rec: bool)
    requires Tidy(c, f)
    ensures Tidy(c, Collect(c, f, rec))
  {
    hide Tidy, UpTo, Empties;
    UpToTidy(c, f, |f|, rec);
  }

  // ---------- a full store ----------

  /** Every sector in use holds live records only, and has not more than `size` bytes left, or less than
      the threshold. */
  ghost predicate Packed(c: Config, f: Flash, size: nat) {
    forall s | 0 <= s < |f| && f[s].store != Empty ::
      && (forall i | 0 <= i < |f[s].recs| :: f[s].recs[i].good && f[s].recs[i].status == Write)
      && (c.usable - Used(f[s].recs) <= size || c.usable - Used(f[s].recs) < c.hdr + KV_NAME_MAX)
  }

  /** No room, also after collecting what is dirty: the value is larger than a sector, or the live records
      fill all sectors but one. */
  lemma NoRoomMeans(c: Config, f: Flash, size: nat)
    requires Shape(c, f) && Tidy(c, f) && Empties(f) >= 1 && Pick(c, f, size, false).None?
    requires Empties(f) <= 1 ==> forall s | 0 <= s < |f| :: f[s].dirty == Clean
    ensures Exhausted(c, f, size)
  {
    hide Used, Pick, Empties, KvLen;
    PickIsChosen(c, f, size, false);
    assert size < c.usable ==> Empties(f) <= 1 by {
      if size < c.usable && Empties(f) > 1 {
        TwoEmpties(c, f, size);
        assert false;
      }
    }
    if Empties(f) == 1 {
      forall s | 0 <= s < |f| && f[s].store != Empty
        ensures forall i | 0 <= i < |f[s].recs| :: f[s].recs[i].good && f[s].recs[i].status == Write
        ensures c.usable - Used(f[s].recs) <= size || c.usable - Used(f[s].recs) < c.hdr + KV_NAME_MAX
      {
        assert TidySector(c, f[s]);
        assert !Allocatable(c, f, s, size, false);
        forall i | 0 <= i < |f[s].recs|
          ensures f[s].recs[i].good && f[s].recs[i].status == Write
        {
          assert Proper(c, f[s].recs[i]);
        }
      }
    }
  }

  /** No value ever takes less than its bytes, the name's and the header's; with alignment, less than two
      units more. */
  lemma LengthBounds(c: Config, k: Key, v: Value)
    requires ValidConfig(c)
    ensures c.hdr + |k| + |v| <= KvLen(c, k, v) <= c.hdr + |k| + |v| + 2 * (c.unit - 1)
  {
    hide KvLen;
    var at := LaidOut(c, k, v);
  }

  /** The value is larger than a sector takes, or one sector is left EMPTY and the live records leave too
      little in all others. */
  ghost predicate Exhausted(c: Config, f: Flash, size: nat) {
    size >= c.usable || (Empties(f) == 1 && Packed(c, f, size))
  }

  lemma ExhaustedWider(c: Config, f: Flash, size: nat, more: nat)
    requires Exhausted(c, f, size) && size <= more
    ensures Exhausted(c, f, more)
  {
    hide Used, Empties;
  }

  lemma PickFits(c: Config, f: Flash, size: nat)
    requires Shape(c, f) && Pick(c, f, size, false).Some?
    ensures size < c.usable
  {
    hide Used, Empties, Pick;
    PickIsChosen(c, f, size, false);
    UsedSome(f[Pick(c, f, size, false).value].recs);
  }

  lemma UsedSome(recs: seq<Rec>)
    ensures Used(recs) >= 0
  {
  }

  /** With two EMPTY sectors there is room for everything a sector takes. */
  lemma TwoEmpties(c: Config, f: Flash, size: nat)
    requires Shape(c, f) && Empties(f) > 1 && size < c.usable
    ensures Pick(c, f, size, false).Some?
  {
    hide Used, Pick, Empties;
    PickIsChosen(c, f, size, false);
    var t := SomeEmpty(f);
    EmptyRemain(c, f, t);
    assert Pick(c, f, size, false).None? ==> !Allocatable(c, f, t, size, false);
  }

  lemma EmptyRemain(c: Config, f: Flash, t: nat)
    requires Shape(c, f) && t < |f| && f[t].store == Empty
    ensures Remain(c, f[t]) == c.usable && f[t].dirty == Clean
  {
    assert SecOk(c, f[t]);
  }
}
