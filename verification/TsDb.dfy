/** The time series database over crash-free runs: append with rollover, iteration, re-opening. */
module TsDb {
  import opened Basics
  import opened TsFlash

  /** tsdb_sec_info. */
  datatype Info = Info(addr: nat, status: Store, start: int, endTime: int, endIdx: nat, stat0: nat, stat1: nat,
                       emptyIdx: nat, emptyData: nat, remain: nat)

  datatype Result = NoErr | WriteErr | SavedFull

  /** A sector as the protocol leaves it.  Of a sector just put to use, `t` is the start time. */
  ghost predicate Good(size: nat, s: Sector, t: int) {
    && s.magicOk && Packed(size, s) && s.end1 == NO_END
    && match s.store {
         case Unused => false
         case Empty => s == Blank(size)
         case Using => s.end0 == NO_END && s.start == if s.idx == [] then t else s.idx[0].time
         case Full => s.idx != [] && s.start == s.idx[0].time && s.end0 == EndOf(s)
       }
  }

  ghost function EndOf(s: Sector): EndInfo
    requires s.idx != []
  {
    EndInfo(TSL_WRITE, s.idx[|s.idx| - 1].time, IndexAt(|s.idx| - 1))
  }

  /** From the oldest sector on: d full ones, the current one, and empty ones.  As long as there are
      empty ones the store has not wrapped. */
  ghost predicate Shaped(secs: seq<Sector>, oldest: nat, d: nat) {
    var n := |secs|;
    && n >= 2 && oldest < n && d < n && (d < n - 1 ==> oldest == 0)
    && (forall k | 0 <= k < d :: secs[Ring(oldest, k, n)].store == Full)
    && (forall k | d < k < n :: secs[Ring(oldest, k, n)].store == Empty)
  }

  /** The copy in memory agrees with the current sector. */
  ghost predicate Mirrors(size: nat, s: Sector, c: Info) {
    && c.status == s.store
    && (s.store != Full ==>
          && c.emptyIdx == IndexAt(|s.idx|) && c.emptyData == DataEnd(size, s.idx)
          && c.remain == c.emptyData - c.emptyIdx && c.stat0 == s.end0.status && c.stat1 == s.end1.status)
    && (s.store != Full ==> c.start == s.start)
    && (s.store == Using && s.idx != [] ==>
          c.endTime == s.idx[|s.idx| - 1].time && c.endIdx == IndexAt(|s.idx| - 1))
  }

  ghost function LastTime(logs: seq<Log>): int {
    if logs == [] then 0 else logs[|logs| - 1].time
  }

  // ---------- what one change of a sector does to the whole ----------

  lemma RingInjective(o: nat, j: nat, k: nat, n: nat)
    requires o < n && j < n && k < n && j != k
    ensures Ring(o, j, n) != Ring(o, k, n)
  {
  }

  /** A header write keeps the logs. */
  lemma HeaderKeeps(secs: seq<Sector>, i: nat, s: Sector, o: nat)
    requires i < |secs| && o < |secs| && s.idx == secs[i].idx && s.data == secs[i].data
    ensures Content(secs[i := s], o, |secs|) == Content(secs, o, |secs|)
  {
    hide Content, Ring;
    assert Logs(s) == Logs(secs[i]);
    ContentSame(secs, secs[i := s], o, |secs|);
  }

  /** A log appended to the sector behind which all are empty is appended to the whole. */
  lemma LogAppended(secs: seq<Sector>, s: Sector, o: nat, d: nat, l: Log)
    requires o < |secs| && d < |secs| && Logs(s) == Logs(secs[Ring(o, d, |secs|)]) + [l]
    requires forall k | d < k < |secs| :: secs[Ring(o, k, |secs|)].idx == []
    ensures Content(secs[Ring(o, d, |secs|) := s], o, |secs|) == Content(secs, o, |secs|) + [l]
  {
    hide Content, Logs, Ring;
    var n := |secs|;
    var i := Ring(o, d, n);
    var secs' := secs[i := s];
    forall k | 0 <= k < n && k != d
      ensures secs'[Ring(o, k, n)] == secs[Ring(o, k, n)]
    {
      RingInjective(o, k, d, n);
    }
    ContentEmpty(secs, o, d + 1, n);
    ContentEmpty(secs', o, d + 1, n);
    ContentSame(secs, secs', o, d);
    ContentStep(secs, o, d + 1);
    ContentStep(secs', o, d + 1);
    Associate(Content(secs, o, d), Logs(secs[i]), [l]);
  }

  /** Formatting the oldest sector drops its logs, and the next one is the oldest. */
  lemma OldestDropped(secs: seq<Sector>, o: nat, s: Sector)
    requires o < |secs| && s.idx == []
    ensures Content(secs, o, |secs|) == Logs(secs[o]) + Content(secs[o := s], Next(o, |secs|), |secs|)
  {
    hide Content, Ring, Next;
    var n := |secs|;
    var secs', o' := secs[o := s], Next(o, n);
    ContentShift(secs, o, n);
    RingAround(o, 0, n);
    assert Logs(s) == [];
    hide Logs;
    ContentStep(secs', o', n);
    Associate(Content(secs', o', n - 1), [], []);
    forall k | 0 <= k < n - 1
      ensures Logs(secs'[Ring(o', k, n)]) == Logs(secs[Ring(o', k, n)])
    {
      RingAround(o, k, n);
    }
    ContentSame(secs, secs', o', n - 1);
  }

  lemma RingAround(o: nat, k: nat, n: nat)
    requires o < n
    ensures Ring(Next(o, n), n - 1, n) == o
    ensures k < n - 1 ==> Ring(Next(o, n), k, n) != o && Ring(Next(o, n), k, n) == Ring(o, k + 1, n)
  {
  }

  // ---------- reading ----------

  /** read_tsl: the index entry at an address; a slot whose status byte is erased is unused.  The
      slot must not be one that the data area has grown into. */
  function EntryAt(size: nat, s: Sector, p: nat): (e: Idx)
    requires p >= HDR && (p - HDR) % IDX == 0
    requires (p - HDR) / IDX < |s.idx| || p < DataEnd(size, s.idx)
  {
    var k := (p - HDR) / IDX;
    if k < |s.idx| then s.idx[k] else Idx(TSL_UNUSED, 0, 0, 0)
  }

  lemma EntryIs(size: nat, s: Sector, k: nat)
    requires k < |s.idx| || (k == |s.idx| && IndexAt(k) < DataEnd(size, s.idx))
    ensures (IndexAt(k) - HDR) % IDX == 0 && (IndexAt(k) - HDR) / IDX == k
    ensures EntryAt(size, s, IndexAt(k)) == if k < |s.idx| then s.idx[k] else Idx(TSL_UNUSED, 0, 0, 0)
  {
  }

  /** The room left after the first k logs; once it is used up there are no more. */
  lemma RoomAfter(size: nat, s: Sector, k: nat)
    requires Packed(size, s) && k <= |s.idx|
    ensures s.idx[..|s.idx|] == s.idx
    ensures DataEnd(size, s.idx[..k]) - IndexAt(k) >= IDX * (|s.idx| - k)
    ensures k < |s.idx| ==> DataEnd(size, s.idx[..k + 1]) == DataEnd(size, s.idx[..k]) - s.idx[k].len
  {
    assert s.idx[..|s.idx|] == s.idx;
    DataEndFalls(size, s.idx, k, |s.idx|);
    if k < |s.idx| {
      DataEndFalls(size, s.idx, k, k + 1);
    }
  }

  /** read_sector_info.  What the header does not say is left as it was in `prev`. */
  method ReadSectorInfo(size: nat, s: Sector, i: nat, prev: Info, traversal: bool, ghost t: int) returns (c: Info)
    requires size > HDR && Good(size, s, t)
    ensures c.addr == i && c.status == s.store && c.start == s.start
    ensures c.stat0 == s.end0.status && c.stat1 == s.end1.status
    ensures s.store == Empty || (s.store == Using && traversal) ==> Mirrors(size, s, c)
    ensures s.store == Full ==> c.endTime == EndOf(s).time && c.endIdx == EndOf(s).index
  {
    hide DataEnd;
    c := prev.(addr := i, status := s.store, start := s.start, stat0 := s.end0.status, stat1 := s.end1.status);
    if c.stat0 == TSL_WRITE {
      c := c.(endTime := s.end0.time, endIdx := s.end0.index);
    } else if c.stat1 == TSL_WRITE {
      c := c.(endTime := s.end1.time, endIdx := s.end1.index);
    }
    c := c.(emptyIdx := HDR, emptyData := size);
    c := c.(remain := c.emptyData - c.emptyIdx);
    DataEndOfNone(size);
    if s.store == Using && traversal {
      ghost var k := 0;
      assert s.idx[..0] == [];
      ghost var fixed := c;
      while true
        invariant k <= |s.idx| && c.emptyIdx == IndexAt(k) && c.emptyData == DataEnd(size, s.idx[..k])
        invariant c.remain == c.emptyData - c.emptyIdx && c.remain > 0
        invariant k > 0 ==> c.endTime == s.idx[k - 1].time && c.endIdx == IndexAt(k - 1)
        invariant c.(endTime := 0, endIdx := 0, emptyIdx := 0, emptyData := 0, remain := 0)
                  == fixed.(endTime := 0, endIdx := 0, emptyIdx := 0, emptyData := 0, remain := 0)
        decreases |s.idx| - k
      {
        RoomAfter(size, s, k);
        EntryIs(size, s, k);
        var e := EntryAt(size, s, c.emptyIdx);
        if e.status == TSL_UNUSED {
          break;
        }
        RoomAfter(size, s, k + 1);
        c := c.(endTime := e.time, endIdx := c.emptyIdx, emptyIdx := c.emptyIdx + IDX,
                emptyData := c.emptyData - e.len);
        k := k + 1;
        if c.remain > IDX + e.len {
          c := c.(remain := c.remain - (IDX + e.len));
        } else {
          c := c.(remain := 0);
          break;
        }
      }
    }
  }

  lemma DataEndOfNone(size: nat)
    ensures DataEnd(size, []) == size
  {
  }

  // ---------- walking over one sector ----------

  /** The logs from the first index entry to the last. */
  method VisitSector(size: nat, s: Sector, endIdx: nat) returns (logs: seq<Log>)
    requires Packed(size, s) && s.idx != [] && endIdx == IndexAt(|s.idx| - 1)
    ensures logs == Logs(s)
  {
    hide DataEnd, EntryAt, ReadLog, Packed;
    var p, more := HDR, true;
    logs := [];
    ghost var k := 0;
    while more
      invariant k <= |s.idx| && (more ==> k < |s.idx| && p == IndexAt(k)) && (!more ==> k == |s.idx|)
      invariant logs == Logs(s)[..k]
      decreases |s.idx| - k, more
    {
      EntryIs(size, s, k);
      logs := logs + [ReadLog(s, EntryAt(size, s, p))];
      k := k + 1;
      more := p + IDX <= endIdx;
      p := p + IDX;
    }
  }

  lemma SortedEntries(size: nat, s: Sector)
    requires Packed(size, s)
    ensures Sorted(s.idx) && forall k | 0 <= k < |s.idx| :: s.idx[k].status != TSL_UNUSED
  {
  }

  /** The binary search over index addresses: the first entry not earlier than `from`. */
  method LowerBound(size: nat, s: Sector, endIdx: nat, from: int) returns (start: nat, ghost k: nat)
    requires Packed(size, s) && s.idx != [] && endIdx == IndexAt(|s.idx| - 1)
    ensures start == IndexAt(k) && k <= |s.idx|
    ensures forall j | 0 <= j < k :: s.idx[j].time < from
    ensures forall j | k <= j < |s.idx| :: s.idx[j].time >= from
  {
    hide DataEnd, EntryAt, Packed;
    SortedEntries(size, s);
    start := HDR;
    var end := endIdx;
    k := 0;
    ghost var b := |s.idx|;
    while start <= end
      invariant k <= b <= |s.idx| && start == IndexAt(k) && end == IndexAt(b) - IDX
      invariant forall j | 0 <= j < k :: s.idx[j].time < from
      invariant forall j | b <= j < |s.idx| :: s.idx[j].time >= from
      decreases b - k
    {
      var p := start + ((end - start) / 2 + 1) / IDX * IDX;
      ghost var m := k + (b - 1 - k) / 2;
      Middle(b - 1 - k);
      EntryIs(size, s, m);
      var e := EntryAt(size, s, p);
      if e.time < from {
        start, k := p + IDX, m + 1;
      } else {
        end, b := p - IDX, m;
      }
    }
  }

  /** The address arithmetic of the search picks the middle entry. */
  lemma Middle(n: nat)
    ensures (IDX * n / 2 + 1) / IDX == n / 2
  {
  }

  /** The logs from the lower bound on, until one is out of the range. */
  method VisitFrom(size: nat, s: Sector, endIdx: nat, from: int, to: int) returns (logs: seq<Log>, stop: bool)
    requires Packed(size, s) && s.idx != [] && endIdx == IndexAt(|s.idx| - 1) && from <= s.idx[|s.idx| - 1].time
    ensures logs == Between(Logs(s), from, to)
    ensures stop <==> s.idx[|s.idx| - 1].time > to
  {
    hide DataEnd, EntryAt, Packed, Between, ReadLog, Logs, Sorted;
    SortedEntries(size, s);
    var p, k := LowerBound(size, s, endIdx, from);
    ghost var all := Logs(s);
    BetweenFrom(s, k, from, to);
    logs := [];
    Associate(Between(all[k..], from, to), [], []);
    var more := true;
    while more
      invariant k <= |s.idx| && (more ==> k < |s.idx| && p == IndexAt(k)) && (!more ==> k == |s.idx|)
      invariant Between(all, from, to) == logs + Between(all[k..], from, to)
      invariant k > 0 ==> s.idx[k - 1].time <= to || s.idx[k - 1].time < from
      invariant forall j | k <= j < |s.idx| :: s.idx[j].time >= from
      decreases |s.idx| - k, more
    {
      EntryIs(size, s, k);
      var e := EntryAt(size, s, p);
      if e.status != TSL_UNUSED {
        if from <= e.time <= to {
          BetweenHead(logs, s, k, from, to);
          logs := logs + [ReadLog(s, e)];
        } else {
          NoneAfter(s, k, from, to);
          Associate(logs, [], []);
          return logs, true;
        }
      }
      k := k + 1;
      more := p + IDX <= endIdx;
      p := p + IDX;
    }
    NothingLeft(s, logs, from, to);
    stop := false;
  }

  lemma BetweenFrom(s: Sector, k: nat, from: int, to: int)
    requires k <= |s.idx| && forall j | 0 <= j < k :: s.idx[j].time < from
    ensures Between(Logs(s), from, to) == Between(Logs(s)[k..], from, to)
  {
    hide Between;
    var all := Logs(s);
    BetweenNone(all[..k], from, to);
    assert all == all[..k] + all[k..];
    BetweenJoins(all[..k], all[k..], from, to);
  }

  lemma BetweenHead(done: seq<Log>, s: Sector, k: nat, from: int, to: int)
    requires k < |s.idx| && from <= s.idx[k].time <= to
    ensures done + Between(Logs(s)[k..], from, to)
            == done + [ReadLog(s, s.idx[k])] + Between(Logs(s)[k + 1..], from, to)
  {
    var all := Logs(s);
    assert all[k] == LogAt(s, k);
    assert all[k..][1..] == all[k + 1..];
    Associate(done, [all[k]], Between(all[k + 1..], from, to));
  }

  lemma NothingLeft(s: Sector, done: seq<Log>, from: int, to: int)
    ensures done + Between(Logs(s)[|s.idx|..], from, to) == done
  {
  }

  /** Behind the first log that is too late there is nothing more. */
  lemma NoneAfter(s: Sector, k: nat, from: int, to: int)
    requires k < |s.idx| && Sorted(s.idx) && s.idx[k].time > to
    ensures Between(Logs(s)[k..], from, to) == [] && s.idx[|s.idx| - 1].time > to
  {
    BetweenNone(Logs(s)[k..], from, to);
  }

  // ---------- the database ----------

  ghost predicate AllGood(size: nat, secs: seq<Sector>, t: int) {
    forall i | 0 <= i < |secs| :: Good(size, secs[i], t)
  }

  /** Flash and memory agree; the current sector may just have been put to use at time t. */
  ghost predicate Consistent(size: nat, secs: seq<Sector>, cur: Info, oldest: nat, d: nat, t: int) {
    && size > HDR && AllGood(size, secs, t) && Shaped(secs, oldest, d) && cur.addr == Ring(oldest, d, |secs|)
    && Mirrors(size, secs[cur.addr], cur)
  }

  /** The logs of the current sector are the last ones altogether. */
  lemma LastIsCurrent(size: nat, secs: seq<Sector>, cur: Info, oldest: nat, d: nat, t: int)
    requires Consistent(size, secs, cur, oldest, d, t)
    ensures forall k | d < k < |secs| :: secs[Ring(oldest, k, |secs|)].idx == []
    ensures Content(secs, oldest, |secs|) == Content(secs, oldest, d) + Logs(secs[cur.addr])
  {
    hide Content, Logs, Packed;
    var n := |secs|;
    forall k | d < k < n
      ensures secs[Ring(oldest, k, n)].idx == []
    {
      assert Good(size, secs[Ring(oldest, k, n)], t);
    }
    ContentEmpty(secs, oldest, d + 1, n);
    ContentStep(secs, oldest, d + 1);
  }

  lemma CurrentTimes(size: nat, secs: seq<Sector>, cur: Info, oldest: nat, d: nat, t: int)
    requires Consistent(size, secs, cur, oldest, d, t)
    ensures var s, all := secs[cur.addr], Content(secs, oldest, |secs|);
            s.idx != [] ==> all != [] && s.idx[|s.idx| - 1].time == all[|all| - 1].time
  {
    hide Content;
    LastIsCurrent(size, secs, cur, oldest, d, t);
    var s := secs[cur.addr];
    if s.idx != [] {
      assert Logs(s)[|s.idx| - 1] == LogAt(s, |s.idx| - 1);
    }
  }

  /** Only the current sector changes. */
  lemma CurrentWritten(size: nat, secs: seq<Sector>, cur: Info, oldest: nat, d: nat, t: int, s: Sector, c: Info,
                       t': int)
    requires Consistent(size, secs, cur, oldest, d, t) && Good(size, s, t') && Mirrors(size, s, c) && c.addr == cur.addr
    ensures Consistent(size, secs[cur.addr := s], c, oldest, d, t')
  {
    hide Packed;
    var n := |secs|;
    var secs' := secs[cur.addr := s];
    forall k | 0 <= k < n && k != d
      ensures Ring(oldest, k, n) != cur.addr
    {
      RingInjective(oldest, k, d, n);
    }
    forall i | 0 <= i < n
      ensures Good(size, secs'[i], t')
    {
      if i != cur.addr {
        NotCurrent(secs, oldest, d, i);
        assert Good(size, secs[i], t);
      }
    }
  }

  lemma NotCurrent(secs: seq<Sector>, oldest: nat, d: nat, i: nat)
    requires Shaped(secs, oldest, d) && i < |secs| && i != Ring(oldest, d, |secs|)
    ensures secs[i].store == Full || secs[i].store == Empty
  {
    var n := |secs|;
    var k := if i >= oldest then i - oldest else i + n - oldest;
    assert i == Ring(oldest, k, n);
  }

  /** The next sector is an empty one: it becomes the current one. */
  lemma Advanced(size: nat, secs: seq<Sector>, cur: Info, oldest: nat, d: nat, t: int, c: Info)
    requires Consistent(size, secs, cur, oldest, d, t) && cur.status == Full && d + 1 < |secs|
    requires c.addr == Next(cur.addr, |secs|) && Mirrors(size, secs[c.addr], c)
    ensures Consistent(size, secs, c, oldest, d + 1, t)
  {
    hide Packed;
  }

  /** The next sector is the oldest one: formatted, it becomes the current one. */
  lemma Recycled(size: nat, secs: seq<Sector>, cur: Info, oldest: nat, t: int, c: Info)
    requires |secs| >= 2 && Consistent(size, secs, cur, oldest, |secs| - 1, t) && cur.status == Full
    requires c.addr == oldest && Mirrors(size, Blank(size), c)
    ensures Next(cur.addr, |secs|) == oldest
    ensures Consistent(size, secs[oldest := Blank(size)], c, Next(oldest, |secs|), |secs| - 1, t)
  {
    hide Packed, DataEnd;
    var n := |secs|;
    var o' := Next(oldest, n);
    RingAround(oldest, 0, n);
    var secs' := secs[oldest := Blank(size)];
    forall k | 0 <= k < n - 1
      ensures secs'[Ring(o', k, n)].store == Full
    {
      RingAround(oldest, k, n);
      assert k + 1 < n - 1 ==> secs[Ring(oldest, k + 1, n)].store == Full;
    }
    BlankPacked(size);
  }

  class Database {
    const size: nat
    const maxLen: nat
    var secs: seq<Sector>
    var cur: Info
    var oldest: nat
    var lastTime: int
    var rollover: bool
    ghost var span: nat            // full sectors before the current one
    ghost var accepted: seq<Log>   // every log ever accepted
    ghost var dropped: seq<Log>    // those of the sectors formatted since

    ghost function Stored(): seq<Log>
      reads this
      requires oldest < |secs|
    {
      Content(secs, oldest, |secs|)
    }

    /** What holds at every moment of an append at time t. */
    ghost predicate Core(t: int)
      reads this
    {
      && IndexAt(1) + maxLen <= size && Consistent(size, secs, cur, oldest, span, t)
      && accepted == dropped + Stored() && InOrder(accepted) && lastTime == LastTime(accepted)
    }

    /** What holds between two operations. */
    ghost predicate Valid()
      reads this
    {
      && Core(lastTime)
      && (secs[cur.addr].store == Using ==> secs[cur.addr].idx != [])
      && (secs[cur.addr].store == Empty ==> accepted == [] && span == 0)
      && (secs[cur.addr].store == Full ==> span + 1 == |secs| == cur.addr + 1)
    }

    /** tsl_format_all on n sectors. */
    constructor Format(size: nat, n: nat, maxLen: nat)
      requires n >= 2 && IndexAt(1) + maxLen <= size
      ensures Valid() && accepted == [] && |secs| == n && this.size == size && this.maxLen == maxLen
      ensures rollover && secs == seq(n, _ => Blank(size)) && lastTime == 0 && dropped == []
      ensures cur.addr == 0 && cur.status == Empty && forall i | 0 <= i < n :: Logs(secs[i]) == []
    {
      this.size, this.maxLen := size, maxLen;
      secs := seq(n, _ => Blank(size));
      oldest, lastTime, rollover := 0, 0, true;
      cur := Info(0, Empty, -1, 0, 0, TSL_UNUSED, TSL_UNUSED, HDR, size, size - HDR);
      span, accepted, dropped := 0, [], [];
      new;
      BlankPacked(size);
      DataEndOfNone(size);
      ContentEmpty(secs, 0, 0, n);
    }

    /** The first half of update_sec_status: the end of the current sector is recorded and the sector
        is full. */
    method CloseSector(ghost t: int)
      requires Valid() && cur.status == Using
      modifies `secs, `cur
      ensures Core(t) && cur.status == Full && cur.addr == old(cur.addr) && Stored() == old(Stored())
      ensures |secs| == |old(secs)| && forall i | 0 <= i < |secs| && i != cur.addr :: secs[i] == old(secs[i])
      ensures Logs(secs[cur.addr]) == Logs(old(secs)[cur.addr])
    {
      hide Content, Packed, DataEnd, InOrder;
      ghost var secs0, cur0 := secs, cur;
      var i := cur.addr;
      var endIndex := cur.emptyIdx - IDX;
      CurrentTimes(size, secs, cur, oldest, span, lastTime);
      assert Good(size, secs[i], lastTime);
      // the second end_info is for a first one cut off by a power failure
      secs := secs[i := secs[i].(end0 := secs[i].end0.(status := TSL_PRE_WRITE))];
      secs := secs[i := secs[i].(end0 := secs[i].end0.(time := lastTime))];
      secs := secs[i := secs[i].(end0 := secs[i].end0.(index := endIndex))];
      secs := secs[i := secs[i].(end0 := secs[i].end0.(status := TSL_WRITE))];
      secs := secs[i := secs[i].(store := Full)];
      cur := cur.(status := Full);
      ghost var s := secs0[i].(end0 := EndOf(secs0[i]), store := Full);
      assert secs == secs0[i := s];
      PackedSame(size, secs0[i], s);
      CurrentWritten(size, secs0, cur0, oldest, span, lastTime, s, cur, t);
      HeaderKeeps(secs0, i, s, oldest);
    }
  
    /** The second half: the next sector, formatted if it is in use, becomes the current one. */
    method OpenNext(ghost t: int) returns (ok: bool)
      requires Core(t) && cur.status == Full
      modifies `secs, `cur, `oldest, `span, `dropped
      ensures Core(t) && |secs| == |old(secs)| && accepted == old(accepted)
      ensures ok <==> old(cur.addr) + 1 < |secs| || rollover
      ensures ok ==> cur.status == Empty && cur.addr == Next(old(cur.addr), |secs|)
      ensures ok ==> dropped == old(dropped) + Logs(old(secs)[cur.addr]) && Logs(secs[cur.addr]) == []
      ensures forall i | 0 <= i < |secs| && i != cur.addr :: secs[i] == old(secs[i])
      ensures !ok ==> cur == old(cur) && secs == old(secs) && dropped == old(dropped)
    {
      hide Content, Consistent, Good, Mirrors, Blank, Logs, InOrder, LastTime;
      var n := |secs|;
      var next;
      CurrentStatus(size, secs, cur, oldest, span, t);
      Associate(dropped, [], []);
      if cur.addr + 1 < n {
        next := cur.addr + 1;
      } else if rollover {
        next := 0;
      } else {
        return false;
      }
      ok := true;
      NextSector(size, secs, cur, oldest, span, t);
      var c := ReadSectorInfo(size, secs[next], next, cur, false, t);
      if c.status == Empty {
        NothingThere(size, secs, next, t);
        Advanced(size, secs, cur, oldest, span, t, c);
        span := span + 1;
      } else {
        ghost var secs0, oldest0 := secs, oldest;
        BlankGood(size, t);
        OldestDropped(secs, oldest, Blank(size));
        oldest := if next + 1 < n then next + 1 else 0;
        secs := secs[next := Blank(size)];
        c := ReadSectorInfo(size, secs[next], next, c, false, t);
        Recycled(size, secs0, cur, oldest0, t, c);
        Associate(dropped, Logs(secs0[oldest0]), Stored());
        dropped := dropped + Logs(secs0[oldest0]);
      }
      cur := c;
    }

    /** The end of update_sec_status: an empty sector is put to use. */
    method StartSector(t: int)
      requires Core(t) && cur.status == Empty
      modifies `secs, `cur
      ensures Core(t) && cur.status == Using && Stored() == old(Stored()) && |secs| == |old(secs)|
      ensures cur == old(cur).(status := Using, start := t) && cur.remain == size - HDR
      ensures Logs(secs[cur.addr]) == Logs(old(secs)[cur.addr])
      ensures forall i | 0 <= i < |secs| && i != cur.addr :: secs[i] == old(secs[i])
    {
      hide Content, Packed;
      ghost var secs0, cur0 := secs, cur;
      var i := cur.addr;
      assert Good(size, secs[i], t);
      cur := cur.(status := Using, start := t);
      secs := secs[i := secs[i].(store := Using)];
      secs := secs[i := secs[i].(start := t)];
      ghost var s := secs0[i].(store := Using, start := t);
      assert secs == secs0[i := s];
      PackedSame(size, secs0[i], s);
      CurrentWritten(size, secs0, cur0, oldest, span, t, s, cur, t);
      HeaderKeeps(secs0, i, s, oldest);
    }

    /** update_sec_status: after it the current sector is in use and has room for the log. */
    method UpdateSecStatus(len: nat, t: int) returns (r: Result)
      requires Valid() && len <= maxLen && lastTime <= t
      modifies `secs, `cur, `oldest, `span, `dropped
      ensures Core(t) && |secs| == |old(secs)| && accepted == old(accepted)
      ensures r == NoErr || r == SavedFull
      ensures var closes := old(cur.status == Using && cur.remain < IDX + len);
              && (r == SavedFull <==>
                    old(cur.status) == Full || (closes && old(cur.addr) + 1 == |secs| && !old(rollover)))
              && cur.addr == (if r != NoErr || !closes then old(cur.addr)
                              else if old(cur.addr) + 1 < |secs| then old(cur.addr) + 1 else 0)
      ensures r == NoErr ==> cur.status == Using && IDX + len <= cur.remain
      ensures forall i | 0 <= i < |secs| && i != cur.addr :: Logs(secs[i]) == Logs(old(secs)[i])
      ensures Logs(secs[cur.addr]) == if cur.addr == old(cur.addr) then Logs(old(secs)[cur.addr]) else []
      ensures r == SavedFull ==> Valid()
      ensures dropped == old(dropped) + if cur.addr == old(cur.addr) then [] else Logs(old(secs)[cur.addr])
    {
      hide Content, Logs, Consistent, InOrder, LastTime;
      CurrentStatus(size, secs, cur, oldest, span, lastTime);
      r := NoErr;
      Retimed(size, secs, cur, oldest, span, lastTime, t);
      Associate(dropped, [], []);
      if cur.status == Using && cur.remain < IDX + len {
        CloseSector(t);
        var ok := OpenNext(t);
        CurrentStatus(size, secs, cur, oldest, span, t);
        if !ok {
          Retimed(size, secs, cur, oldest, span, t, lastTime);
          return SavedFull;
        }
      } else if cur.status == Full {
        return SavedFull;
      }
      if cur.status == Empty {
        StartSector(t);
      }
      CurrentStatus(size, secs, cur, oldest, span, t);
    }

    /** The room left is what headers, index entries and logs do not take. */
    lemma RoomLeft(len: nat)
      requires Valid() && len <= maxLen
      ensures cur.addr < |secs| &&
              var l := Logs(secs[cur.addr]);
              var fits := HDR + IDX * (|l| + 1) + Bytes(l) + len <= size;
              && (cur.status == Using ==> (fits <==> IDX + len <= cur.remain))
              && (cur.status == Empty ==> fits)
    {
      hide Content, InOrder, LastTime, DataEnd, Packed;
      CurrentStatus(size, secs, cur, oldest, span, lastTime);
      assert Good(size, secs[cur.addr], lastTime);
      FreeRoom(size, secs[cur.addr]);
    }

    /** write_tsl: every cell programmed is an erased one, those of the index entry and those of the log. */
    method WriteTsl(bytes: seq<byte>, t: int)
      requires Core(t) && cur.status == Using && IDX + |bytes| <= cur.remain
      modifies `secs
      ensures secs == old(secs)[cur.addr := WithLog(old(secs[cur.addr]), t, bytes, cur.emptyData - |bytes|)]
      ensures var data := old(secs[cur.addr]).data;
              && cur.emptyIdx + IDX <= cur.emptyData - |bytes| && cur.emptyData <= |data|
              && (forall p | cur.emptyIdx <= p < cur.emptyIdx + IDX :: data[p] == ERASED)
              && forall p | cur.emptyData - |bytes| <= p < cur.emptyData :: data[p] == ERASED
    {
      hide Content, DataEnd, Logs;
      ghost var secs0 := secs;
      var i, addr, slot := cur.addr, cur.emptyData - |bytes|, |secs[cur.addr].idx|;
      assert Good(size, secs[i], t);
      assert IndexAt(slot) == cur.emptyIdx;
      secs := secs[i := secs[i].(idx := secs[i].idx + [Idx(TSL_PRE_WRITE, 0, 0, 0)])];
      secs := secs[i := secs[i].(idx := secs[i].idx[slot := Idx(TSL_PRE_WRITE, t, |bytes|, addr)])];
      secs := secs[i := secs[i].(data := Splice(secs[i].data, addr, bytes))];
      secs := secs[i := secs[i].(idx := secs[i].idx[slot := Idx(TSL_WRITE, t, |bytes|, addr)])];
      assert secs[i].idx == secs0[i].idx + [Idx(TSL_WRITE, t, |bytes|, addr)];
      assert secs == secs0[i := secs[i]];
    }

    /**
     tsl_append.  An accepted log becomes the last one of the store and of all accepted; only an
     append that finds the ring full drops anything, and then exactly the logs of the oldest sector.
     A time before the last one is refused, and without rollover a full store refuses everything; with
     rollover nothing else is.  The log goes to the current sector if there is room for it and its index
     entry behind those already there, and else to the next one, the first one coming after the last; what
     the sector entered held is dropped.
     */
    method Append(bytes: seq<byte>, t: int) returns (r: Result)
      requires Valid() && |bytes| <= maxLen
      modifies this
      ensures Valid() && |secs| == |old(secs)| && rollover == old(rollover)
      ensures r == WriteErr <==> t < old(lastTime)
      ensures r == SavedFull ==> old(cur.status) == Full || !old(rollover)
      ensures var l := old(Logs(secs[cur.addr]));
              var fits := HDR + IDX * (|l| + 1) + Bytes(l) + |bytes| <= size;
              && (t >= old(lastTime) ==>
                    (r == SavedFull <==>
                       old(cur.status) == Full || (!fits && old(cur.addr) + 1 == |secs| && !old(rollover))))
              && cur.addr == (if r != NoErr || fits then old(cur.addr)
                              else if old(cur.addr) + 1 < |secs| then old(cur.addr) + 1 else 0)
      ensures r == NoErr ==> cur.status == Using
      ensures Logs(secs[cur.addr]) == (if cur.addr == old(cur.addr) then Logs(old(secs)[cur.addr]) else [])
                                      + if r == NoErr then [Log(t, bytes)] else []
      ensures forall i | 0 <= i < |secs| && i != cur.addr :: Logs(secs[i]) == Logs(old(secs)[i])
      ensures accepted == old(accepted) + if r == NoErr then [Log(t, bytes)] else []
      ensures lastTime == if r == NoErr then t else old(lastTime)
      ensures dropped == old(dropped) + if cur.addr == old(cur.addr) then [] else Logs(old(secs)[cur.addr])
    {
      hide Content, Consistent, Logs, InOrder, LastTime, WithLog, Packed, DataEnd, Bytes;
      RoomLeft(|bytes|);
      CurrentStatus(size, secs, cur, oldest, span, lastTime);
      Associate(dropped, [], []);
      Associate(accepted, [], []);
      if t < lastTime {
        return WriteErr;
      }
      r := UpdateSecStatus(|bytes|, t);
      if r != NoErr {
        return;
      }
      PutLog(bytes, t);
    }

    /** The rest of tsl_append. */
    method PutLog(bytes: seq<byte>, t: int)
      requires Core(t) && lastTime <= t && cur.status == Using && IDX + |bytes| <= cur.remain
      modifies `secs, `cur, `lastTime, `accepted
      ensures Valid() && |secs| == |old(secs)| && cur.addr == old(cur.addr) && cur.status == Using
      ensures Logs(secs[cur.addr]) == Logs(old(secs[cur.addr])) + [Log(t, bytes)]
      ensures forall i | 0 <= i < |secs| && i != cur.addr :: secs[i] == old(secs[i])
      ensures accepted == old(accepted) + [Log(t, bytes)] && lastTime == t
    {
      hide Content, Consistent, Logs, InOrder, LastTime, WithLog, Packed, DataEnd;
      CurrentStatus(size, secs, cur, oldest, span, t);
      ghost var secs0, cur0, stored := secs, cur, Stored();
      LastStored(dropped, stored);
      WriteTsl(bytes, t);
      cur := cur.(endIdx := cur.emptyIdx, endTime := t, emptyIdx := cur.emptyIdx + IDX,
                  emptyData := cur.emptyData - |bytes|, remain := cur.remain - (IDX + |bytes|));
      LogWritten(size, secs0, cur0, oldest, span, t, bytes, cur);
      Associate(dropped, stored, [Log(t, bytes)]);
      OrderSnoc(accepted, Log(t, bytes));
      lastTime := t;
      accepted := accepted + [Log(t, bytes)];
    }
  
    /** With rollover no append fails that is not too early, however many there are. */
    method AppendAll(logs: seq<Log>)
      requires Valid() && rollover && cur.status != Full
      requires InOrder(logs) && (logs != [] ==> lastTime <= logs[0].time)
      requires forall i | 0 <= i < |logs| :: |logs[i].bytes| <= maxLen
      modifies this
      ensures Valid() && rollover && cur.status != Full && accepted == old(accepted) + logs
    {
      hide Valid, Content, Bytes, Logs;
      var i := 0;
      while i < |logs|
        invariant i <= |logs| && Valid() && rollover && cur.status != Full
        invariant accepted == old(accepted) + logs[..i]
        invariant lastTime == if i == 0 then old(lastTime) else logs[i - 1].time
      {
        var l := logs[i];
        var r := Append(l.bytes, l.time);
        assert r == NoErr;
        assert l == Log(l.time, l.bytes) && logs[..i + 1] == logs[..i] + [l];
        i := i + 1;
      }
      assert logs[..|logs|] == logs;
    }

    /** FDB_TSDB_CTRL_SET_ROLLOVER. */
    method SetRollover(on: bool)
      requires Valid()
      modifies `rollover
      ensures Valid() && rollover == on
    {
      rollover := on;
    }

    // ---------- reading the store ----------

    /** The sector as the iterators see it: what the header says, or the copy in memory of the
        sector in use. */
    method Peek(addr: nat, prev: Info) returns (c: Info)
      requires Valid() && addr < |secs|
      ensures c.addr == addr && c.status == secs[addr].store != Unused
      ensures c.status == Empty <==> secs[addr].idx == []
      ensures c.status != Empty ==>
                var idx := secs[addr].idx;
                c.start == idx[0].time && c.endTime == idx[|idx| - 1].time && c.endIdx == IndexAt(|idx| - 1)
    {
      hide Content, Packed, InOrder, LastTime;
      assert Good(size, secs[addr], lastTime);
      c := ReadSectorInfo(size, secs[addr], addr, prev, false, lastTime);
      if c.status == Using {
        if addr != cur.addr {
          NotCurrent(secs, oldest, span, addr);
        }
        c := cur;
      }
    }

    lemma PackedAt(addr: nat)
      requires Valid() && addr < |secs|
      ensures Packed(size, secs[addr])
    {
      hide Content, InOrder, LastTime;
      assert Good(size, secs[addr], lastTime);
    }

    /** fdb_tsl_iter: every stored log, oldest first; so what is visited is what was accepted, less the
        logs of whole sectors dropped from its front. */
    method Iterate() returns (visited: seq<Log>)
      requires Valid()
      ensures visited == Stored() && accepted == dropped + visited
    {
      hide Content, Consistent, InOrder, LastTime, Logs;
      CurrentStatus(size, secs, cur, oldest, span, lastTime);
      var n, addr, traversed := |secs|, oldest, 0;
      visited := [];
      var more, c := true, cur;
      ContentStart(secs, oldest);
      while more
        invariant traversed <= n && (more ==> traversed < n && addr == Ring(oldest, traversed, n))
        invariant !more ==> traversed == n
        invariant visited == Content(secs, oldest, traversed)
        decreases n - traversed, more
      {
        ContentStep(secs, oldest, traversed + 1);
        traversed := traversed + 1;
        c := Peek(addr, c);
        if c.status == Using || c.status == Full {
          PackedAt(addr);
          var logs := VisitSector(size, secs[addr], c.endIdx);
          visited := visited + logs;
        } else {
          NoLogs(secs[addr]);
          Associate(visited, [], []);
        }
        more := traversed + 1 <= n;
        addr := if addr + 1 < n then addr + 1 else 0;
      }
    }
  
    /** One sector of that iteration: the first whose span holds `from`, or one behind it. */
    method VisitHere(addr: nat, k: nat, c: Info, from: int, to: int, found: bool)
      returns (logs: seq<Log>, stop: bool)
      requires Valid() && k < |secs| && addr == Ring(oldest, k, |secs|)
      requires var idx := secs[addr].idx; idx != [] && c.endIdx == IndexAt(|idx| - 1)
      requires if found then Late(Content(secs, oldest, k), from)
               else Spans(secs[addr], from, k == 0)
                    && (k > 0 ==> !Spans(secs[Ring(oldest, k - 1, |secs|)], from, k == 1))
      ensures !found ==> Covered(secs, oldest, from) && Between(Content(secs, oldest, k), from, to) == []
      ensures Late(Content(secs, oldest, k + 1), from)
      ensures Between(Content(secs, oldest, k), from, to) + logs == Between(Content(secs, oldest, k + 1), from, to)
      ensures stop ==> Between(Content(secs, oldest, k + 1), from, to) == Between(Stored(), from, to)
    {
      hide Content, Consistent, InOrder, LastTime, Logs, Between, Covered, Packed, Late, Sorted, IndexAt, Spans;
      StoredInOrder();
      PackedAt(addr);
      SortedEntries(size, secs[addr]);
      if found {
        GoesOn(secs, oldest, k, from);
      } else {
        Before(k);
        StartsHere(secs, oldest, k, from, to);
      }
      logs, stop := VisitFrom(size, secs[addr], c.endIdx, from, to);
      ContentStep(secs, oldest, k + 1);
      BetweenJoins(Content(secs, oldest, k), Logs(secs[addr]), from, to);
      if stop {
        StopsHere(secs, oldest, k, from, to);
      }
    }

    /**
     fdb_tsl_iter_by_time.  If `from` is not later than the oldest log, or lies between the first and the
     last log of some sector, so in particular if it is the time of a stored log, exactly the stored logs in
     the range are visited, in order; otherwise, when `from` falls between two sectors or behind all of them,
     nothing is.
     */
    method IterateByTime(from: int, to: int) returns (visited: seq<Log>)
      requires Valid()
      ensures Stored() != [] && from <= Stored()[0].time ==> visited == Between(Stored(), from, to)
      ensures forall i | 0 <= i < |secs| && Logs(secs[i]) != [] ::
                Logs(secs[i])[0].time <= from <= Logs(secs[i])[|Logs(secs[i])| - 1].time ==>
                  visited == Between(Stored(), from, to)
      ensures forall l | l in Stored() :: l.time == from ==> visited == Between(Stored(), from, to)
      ensures (Stored() != [] ==> from > Stored()[0].time)
              && (forall i | 0 <= i < |secs| && Logs(secs[i]) != [] ::
                    from < Logs(secs[i])[0].time || from > Logs(secs[i])[|Logs(secs[i])| - 1].time) ==>
                visited == []
    {
      hide Content, Consistent, InOrder, LastTime, Logs, Between, Covered, Packed, Late, Sorted, IndexAt;
      CurrentStatus(size, secs, cur, oldest, span, lastTime);
      visited := SearchByTime(from, to);
      CoveredBefore(from);
      CoveredInside(from);
      CoveredOnly(from);
    }

    /** The search itself, in terms of the sectors' spans. */
    method SearchByTime(from: int, to: int) returns (visited: seq<Log>)
      requires Valid()
      ensures visited == if Covered(secs, oldest, from) then Between(Stored(), from, to) else []
    {
      hide Content, Consistent, InOrder, LastTime, Logs, Between, Covered, Packed, Late, Sorted, IndexAt;
      CurrentStatus(size, secs, cur, oldest, span, lastTime);
      StoredInOrder();
      var n, addr, k := |secs|, oldest, 0;
      visited := [];
      var found, c := false, cur;
      ContentStart(secs, oldest);
      while k < n
        invariant k <= n && (k < n ==> addr == Ring(oldest, k, n))
        invariant !found ==> visited == [] && forall j | 0 <= j < k :: !Spans(secs[Ring(oldest, j, n)], from, j == 0)
        invariant found ==> Covered(secs, oldest, from) && visited == Between(Content(secs, oldest, k), from, to)
        invariant found ==> Late(Content(secs, oldest, k), from)
      {
        c := Peek(addr, c);
        if c.status == Empty {
          RestEmpty(k);
          if !found {
            NotCovered(secs, oldest, from, k);
          }
          return;
        }
        if found || (c.start <= from <= c.endTime) || (addr == oldest && from <= c.start) {
          var logs, stop := VisitHere(addr, k, c, from, to, found);
          visited, found := visited + logs, true;
          if stop {
            return;
          }
        }
        k := k + 1;
        addr := if addr + 1 < n then addr + 1 else 0;
      }
      if !found {
        NotCovered(secs, oldest, from, n);
      }
    }

    /** In front of the oldest log everything counts. */
    lemma CoveredBefore(from: int)
      requires Valid()
      ensures Stored() != [] && from <= Stored()[0].time ==> Covered(secs, oldest, from)
    {
      hide Content, Consistent, InOrder, LastTime, Packed;
      CurrentStatus(size, secs, cur, oldest, span, lastTime);
      OldestFirst();
      assert Ring(oldest, 0, |secs|) == oldest;
      if Stored() != [] && from <= Stored()[0].time {
        assert Spans(secs[Ring(oldest, 0, |secs|)], from, true);
      }
    }

    /** The first log is the first one of the oldest sector. */
    lemma OldestFirst()
      requires Valid()
      ensures oldest < |secs| && (Stored() == [] <==> secs[oldest].idx == [])
      ensures Stored() != [] ==> Logs(secs[oldest]) != [] && Stored()[0] == Logs(secs[oldest])[0]
      ensures secs[oldest].idx != [] ==> Stored() != [] && Stored()[0].time == secs[oldest].idx[0].time
    {
      hide Content, Consistent, InOrder, LastTime, Packed, Logs;
      CurrentStatus(size, secs, cur, oldest, span, lastTime);
      assert Ring(oldest, 0, |secs|) == oldest;
      ContentStart(secs, oldest);
      if secs[oldest].idx == [] {
        RestEmpty(0);
      } else {
        ContentStep(secs, oldest, 1);
        Associate([], Logs(secs[oldest]), []);
        ContentPrefix(secs, oldest, 1, |secs|);
        LastOf(secs[oldest]);
      }
    }

    lemma CoveredInside(from: int)
      requires Valid()
      ensures forall i | 0 <= i < |secs| && Logs(secs[i]) != [] ::
                Logs(secs[i])[0].time <= from <= Logs(secs[i])[|Logs(secs[i])| - 1].time ==> Covered(secs, oldest, from)
      ensures forall l | l in Stored() :: l.time == from ==> Covered(secs, oldest, from)
    {
      hide Content, Consistent, InOrder, LastTime, Packed, Logs, Covered;
      CurrentStatus(size, secs, cur, oldest, span, lastTime);
      forall i | 0 <= i < |secs| && Logs(secs[i]) != []
        ensures Logs(secs[i])[0].time <= from <= Logs(secs[i])[|Logs(secs[i])| - 1].time ==> Covered(secs, oldest, from)
      {
        SpanHere(i, from);
      }
      forall l | l in Stored()
        ensures l.time == from ==> Covered(secs, oldest, from)
      {
        var i := SectorOf(secs, oldest, |secs|, l);
        PackedAt(i);
        SortedEntries(size, secs[i]);
        LogsBetween(secs[i], l);
        SpanHere(i, from);
      }
    }

    lemma SpanHere(i: nat, from: int)
      requires Valid() && i < |secs| && Logs(secs[i]) != []
      ensures Logs(secs[i])[0].time <= from <= Logs(secs[i])[|Logs(secs[i])| - 1].time ==> Covered(secs, oldest, from)
    {
      hide Content, Consistent, InOrder, LastTime, Packed;
      CurrentStatus(size, secs, cur, oldest, span, lastTime);
      var n := |secs|;
      var k := if i >= oldest then i - oldest else i + n - oldest;
      assert Ring(oldest, k, n) == i;
      LastOf(secs[i]);
      if Logs(secs[i])[0].time <= from <= Logs(secs[i])[|Logs(secs[i])| - 1].time {
        assert Spans(secs[Ring(oldest, k, n)], from, k == 0);
      }
    }

    lemma CoveredOnly(from: int)
      requires Valid()
      ensures oldest < |secs| && (Covered(secs, oldest, from) ==>
                || (Stored() != [] && from <= Stored()[0].time)
                || exists i | 0 <= i < |secs| :: SpanOf(Logs(secs[i]), from))
    {
      hide Content, Consistent, InOrder, LastTime, Packed, Logs, Covered;
      CurrentStatus(size, secs, cur, oldest, span, lastTime);
      OldestFirst();
      if Covered(secs, oldest, from) {
        var i := CoveredBy(secs, oldest, from);
      }
    }

    lemma StoredInOrder()
      requires Valid()
      ensures oldest < |secs| && InOrder(Stored())
    {
      hide Content, LastTime;
      var d := |dropped|;
      assert forall k | 0 <= k < |Stored()| :: Stored()[k] == accepted[d + k];
    }

    /** In front of a sector with logs there are only sectors with logs. */
    lemma Before(k: nat)
      requires Valid() && k < |secs| && secs[Ring(oldest, k, |secs|)].idx != []
      ensures k > 0 ==> var p := secs[Ring(oldest, k - 1, |secs|)]; p.idx != [] && Sorted(p.idx)
    {
      hide Content, InOrder, LastTime, Packed;
      if k > 0 {
        LastIsCurrent(size, secs, cur, oldest, span, lastTime);
        var i := Ring(oldest, k - 1, |secs|);
        assert Good(size, secs[i], lastTime);
        SortedEntries(size, secs[i]);
      }
    }

    /** Behind an empty sector all are empty. */
    lemma RestEmpty(k: nat)
      requires Valid() && k < |secs| && secs[Ring(oldest, k, |secs|)].idx == []
      ensures forall j | k <= j < |secs| :: secs[Ring(oldest, j, |secs|)].idx == []
      ensures Stored() == Content(secs, oldest, k)
    {
      hide Content, InOrder, LastTime, Packed;
      var n := |secs|;
      assert Good(size, secs[Ring(oldest, k, n)], lastTime);
      LastIsCurrent(size, secs, cur, oldest, span, lastTime);
      ContentEmpty(secs, oldest, k, n);
    }
  
    // ---------- changing a status, opening again ----------

    /** fdb_tsl_set_status on a stored log: flash bits only ever add a status, and the largest one
        counts.  The log stays where and what it is. */
    method SetStatus(addr: nat, k: nat, status: nat)
      requires Valid() && addr < |secs| && k < |secs[addr].idx|
      modifies `secs
      ensures Valid() && Stored() == old(Stored()) && |secs| == |old(secs)|
      ensures |secs[addr].idx| == |old(secs[addr].idx)|
      ensures var before := old(secs[addr].idx[k].status);
              secs[addr].idx[k].status == if status > before then status else before
    {
      hide Content, InOrder, LastTime, Packed, DataEnd, Logs, Sorted, Consistent;
      ghost var s0 := secs[addr];
      PackedAt(addr);
      WrittenEntry(size, s0, k);
      var e := secs[addr].idx[k];
      var e' := e.(status := if status > e.status then status else e.status);
      StatusOnly(size, s0, k, e');
      secs := secs[addr := secs[addr].(idx := secs[addr].idx[k := e'])];
      CurrentStatus(size, old(secs), cur, oldest, span, lastTime);
      SectorSwapped(size, old(secs), cur, oldest, span, lastTime, addr, secs[addr]);
    }

    /**
     fdb_tsdb_init on the flash this run has left: no sector header is found wrong, and the current
     sector, its free room, the oldest sector and the last time come out as they were in memory.  Only
     when a store without rollover has been filled up is there no current sector to be found.
     */
    method Reopen(junk: Info) returns (failed: bool, found: bool, c: Info, first: nat, last: int)
      requires Valid()
      ensures !failed && (found <==> cur.status != Full)
      ensures found ==> first == oldest && last == lastTime
      ensures found && cur.status == Using ==> c == cur
      ensures found && cur.status == Empty ==> c == cur.(endTime := c.endTime, endIdx := c.endIdx)
    {
      hide Content, Packed, InOrder, DataEnd;
      CurrentStatus(size, secs, cur, oldest, span, lastTime);
      var n, i, emptyNum, emptyAddr := |secs|, 0, 0, 0;
      failed, found, first, last, c := false, false, 0, 0, junk;
      while i < n
        invariant i <= n && !failed
        invariant found ==> c.addr == cur.addr && cur.addr < i && cur.status != Full
        invariant !found ==> i <= cur.addr || cur.status == Full
        invariant emptyNum == 0 ==> forall j | 0 <= j < i :: secs[j].store != Empty
        invariant emptyNum > 0 ==> span + 1 < n && i > 0 && emptyAddr == i - 1 && secs[emptyAddr].store == Empty
      {
        AddressKinds(size, secs, cur, oldest, span, lastTime, i);
        if i > 0 {
          AddressKinds(size, secs, cur, oldest, span, lastTime, i - 1);
        }
        assert Good(size, secs[i], lastTime);
        var info := ReadSectorInfo(size, secs[i], i, junk, true, lastTime);
        if !secs[i].magicOk {
          failed := true;
        } else if info.status == Using {
          if !found {
            c, found := info, true;
          } else {
            failed := true;
          }
        } else if info.status == Empty {
          emptyNum, emptyAddr := emptyNum + 1, i;
          if emptyNum == 1 && !found {
            c, found := info, true;
          }
        }
        i := i + 1;
      }
      if !found {
        return;
      }
      var latest := if emptyNum > 0 then emptyAddr else c.addr;
      first := if latest + 1 >= n then 0 else latest + 1;
      OldestFound(size, secs, cur, oldest, span, lastTime);
      AddressKinds(size, secs, cur, oldest, span, lastTime, n - 1);
      assert Good(size, secs[c.addr], lastTime);
      c := ReadSectorInfo(size, secs[c.addr], c.addr, c, true, lastTime);
      if c.status == Using {
        CurrentTimes(size, secs, cur, oldest, span, lastTime);
        LastStored(dropped, Stored());
        last := c.endTime;
      }
      // An EMPTY current sector behind a used one is left only by a power cut; here it is the first.
    }
  }

  lemma WrittenEntry(size: nat, s: Sector, k: nat)
    requires Packed(size, s) && k < |s.idx|
    ensures s.idx[k].status >= TSL_WRITE
  {
  }

  /** Writing a status keeps the layout and the logs. */
  lemma StatusOnly(size: nat, s: Sector, k: nat, e: Idx)
    requires Packed(size, s) && k < |s.idx| && e == s.idx[k].(status := e.status) && e.status >= TSL_WRITE
    ensures var s' := s.(idx := s.idx[k := e]);
            Packed(size, s') && Logs(s') == Logs(s) && DataEnd(size, s'.idx) == DataEnd(size, s.idx)
  {
    hide DataEnd, Logs;
    var s' := s.(idx := s.idx[k := e]);
    forall j | 0 <= j <= |s.idx|
      ensures DataEnd(size, s'.idx[..j]) == DataEnd(size, s.idx[..j])
    {
      SameLengths(size, s'.idx[..j], s.idx[..j]);
    }
    SameLengths(size, s'.idx, s.idx);
    SameLogs(s, s');
  }

  lemma SameLogs(s: Sector, s': Sector)
    requires |s.idx| == |s'.idx| && s.data == s'.data
    requires forall j | 0 <= j < |s.idx| :: s'.idx[j] == s.idx[j].(status := s'.idx[j].status)
    ensures Logs(s') == Logs(s)
  {
    forall j | 0 <= j < |s.idx|
      ensures Logs(s')[j] == Logs(s)[j]
    {
      assert LogAt(s', j) == LogAt(s, j);
    }
  }

  lemma {:induction false} SameLengths(size: nat, a: seq<Idx>, b: seq<Idx>)
    requires |a| == |b| && forall k | 0 <= k < |a| :: a[k].len == b[k].len
    ensures DataEnd(size, a) == DataEnd(size, b)
    decreases |a|
  {
    if a != [] {
      SameLengths(size, a[..|a| - 1], b[..|b| - 1]);
    }
  }

  /** Any sector may be replaced by one with the same header, times and logs. */
  lemma SectorSwapped(size: nat, secs: seq<Sector>, cur: Info, oldest: nat, d: nat, t: int, i: nat, s: Sector)
    requires Consistent(size, secs, cur, oldest, d, t) && i < |secs| && secs[i].idx != []
    requires s.magicOk == secs[i].magicOk && s.store == secs[i].store && s.start == secs[i].start
    requires s.end0 == secs[i].end0 && s.end1 == secs[i].end1 && |s.idx| == |secs[i].idx|
    requires forall k | 0 <= k < |s.idx| :: s.idx[k].time == secs[i].idx[k].time
    requires Packed(size, s) && Logs(s) == Logs(secs[i]) && DataEnd(size, s.idx) == DataEnd(size, secs[i].idx)
    ensures Consistent(size, secs[i := s], cur, oldest, d, t)
    ensures Content(secs[i := s], oldest, |secs|) == Content(secs, oldest, |secs|)
  {
    hide Content, Packed, Logs, DataEnd;
    var secs' := secs[i := s];
    forall j | 0 <= j < |secs|
      ensures Good(size, secs'[j], t)
    {
      assert Good(size, secs[j], t);
    }
    ContentSame(secs, secs', oldest, |secs|);
  }

  /** What stands at an address, seen from the current sector. */
  lemma AddressKinds(size: nat, secs: seq<Sector>, cur: Info, oldest: nat, d: nat, t: int, i: nat)
    requires Consistent(size, secs, cur, oldest, d, t) && i < |secs| && (cur.status == Empty ==> d == 0)
    ensures d + 1 == |secs| && i != cur.addr ==> secs[i].store == Full
    ensures d + 1 < |secs| ==> cur.addr == d && oldest == 0
    ensures d + 1 < |secs| && i < d ==> secs[i].store == Full
    ensures d + 1 < |secs| && i > d ==> secs[i].store == Empty
  {
    hide Packed;
    var n := |secs|;
    var k := if i >= oldest then i - oldest else i + n - oldest;
    assert i == Ring(oldest, k, n);
  }

  /** The sector behind the latest one is the oldest one. */
  lemma OldestFound(size: nat, secs: seq<Sector>, cur: Info, oldest: nat, d: nat, t: int)
    requires Consistent(size, secs, cur, oldest, d, t)
    ensures d + 1 == |secs| ==> Next(cur.addr, |secs|) == oldest
    ensures d + 1 < |secs| ==> oldest == 0
  {
    hide Packed;
  }

  /** The span of the sector's times holds `from`; before the first sector everything counts. */
  ghost predicate Spans(s: Sector, from: int, first: bool) {
    s.idx != [] && ((s.idx[0].time <= from <= s.idx[|s.idx| - 1].time) || (first && from <= s.idx[0].time))
  }

  ghost predicate Covered(secs: seq<Sector>, oldest: nat, from: int)
    requires oldest < |secs|
  {
    exists k | 0 <= k < |secs| :: Spans(secs[Ring(oldest, k, |secs|)], from, k == 0)
  }

  ghost predicate Late(logs: seq<Log>, from: int) {
    logs != [] && logs[|logs| - 1].time >= from
  }

  lemma NotCovered(secs: seq<Sector>, oldest: nat, from: int, k: nat)
    requires oldest < |secs| && k <= |secs|
    requires forall j | 0 <= j < k :: !Spans(secs[Ring(oldest, j, |secs|)], from, j == 0)
    requires forall j | k <= j < |secs| :: secs[Ring(oldest, j, |secs|)].idx == []
    ensures !Covered(secs, oldest, from)
  {
  }

  lemma {:induction false} ContentPrefix(secs: seq<Sector>, o: nat, j: nat, k: nat)
    requires o < |secs| && j <= k <= |secs|
    ensures Content(secs, o, j) <= Content(secs, o, k)
    decreases k
  {
    if j < k {
      ContentPrefix(secs, o, j, k - 1);
    }
  }

  /** A stored log lies in some sector. */
  lemma {:induction false} SectorOf(secs: seq<Sector>, o: nat, k: nat, l: Log) returns (i: nat)
    requires o < |secs| && k <= |secs| && l in Content(secs, o, k)
    ensures i < |secs| && l in Logs(secs[i])
    decreases k
  {
    hide Logs, Ring;
    i := Ring(o, k - 1, |secs|);
    if l !in Logs(secs[i]) {
      i := SectorOf(secs, o, k - 1, l);
    }
  }

  ghost predicate SpanOf(logs: seq<Log>, from: int) {
    logs != [] && logs[0].time <= from <= logs[|logs| - 1].time
  }

  lemma CoveredBy(secs: seq<Sector>, oldest: nat, from: int) returns (i: nat)
    requires oldest < |secs| && Covered(secs, oldest, from)
    ensures i < |secs|
    ensures SpanOf(Logs(secs[i]), from) || (secs[oldest].idx != [] && from <= secs[oldest].idx[0].time)
  {
    var k: nat :| k < |secs| && Spans(secs[Ring(oldest, k, |secs|)], from, k == 0);
    i := Ring(oldest, k, |secs|);
    LastOf(secs[i]);
  }

  lemma LogsBetween(s: Sector, l: Log)
    requires Sorted(s.idx) && l in Logs(s)
    ensures Logs(s) != [] && Logs(s)[0].time <= l.time <= Logs(s)[|Logs(s)| - 1].time
  {
    var k :| 0 <= k < |Logs(s)| && Logs(s)[k] == l;
    assert Logs(s)[k] == LogAt(s, k) && Logs(s)[0] == LogAt(s, 0);
  }

  lemma LastOf(s: Sector)
    requires s.idx != []
    ensures Logs(s) != [] && Logs(s)[|Logs(s)| - 1].time == s.idx[|s.idx| - 1].time && Logs(s)[0].time == s.idx[0].time
  {
  }

  lemma JoinOrder(a: seq<Log>, b: seq<Log>, all: seq<Log>)
    requires InOrder(all) && a + b <= all
    ensures InOrder(a + b) && InOrder(a) && forall i, j | 0 <= i < |a| && 0 <= j < |b| :: a[i].time <= b[j].time
  {
    var c := a + b;
    assert forall i | 0 <= i < |c| :: c[i] == all[i];
    assert forall i | 0 <= i < |a| :: a[i] == c[i];
    assert forall j | 0 <= j < |b| :: b[j] == c[|a| + j];
  }

  /** Sectors already visited have `from` at or before their end; so has this one. */
  lemma GoesOn(secs: seq<Sector>, o: nat, k: nat, from: int)
    requires o < |secs| && k < |secs| && secs[Ring(o, k, |secs|)].idx != [] && InOrder(Content(secs, o, |secs|))
    requires Late(Content(secs, o, k), from)
    ensures var s := secs[Ring(o, k, |secs|)];
            from <= s.idx[|s.idx| - 1].time && Late(Content(secs, o, k + 1), from)
  {
    hide Content, Logs, Ring, InOrder;
    var s := secs[Ring(o, k, |secs|)];
    ContentStep(secs, o, k + 1);
    ContentPrefix(secs, o, k + 1, |secs|);
    LastOf(s);
    JoinOrder(Content(secs, o, k), Logs(s), Content(secs, o, |secs|));
  }

  /** The first sector whose span holds `from`: everything in front of it is too early. */
  lemma StartsHere(secs: seq<Sector>, o: nat, k: nat, from: int, to: int)
    requires o < |secs| && k < |secs| && InOrder(Content(secs, o, |secs|))
    requires Spans(secs[Ring(o, k, |secs|)], from, k == 0) && Sorted(secs[Ring(o, k, |secs|)].idx)
    requires k > 0 ==> var p := secs[Ring(o, k - 1, |secs|)]; p.idx != [] && Sorted(p.idx) && !Spans(p, from, k == 1)
    ensures var s := secs[Ring(o, k, |secs|)];
            from <= s.idx[|s.idx| - 1].time && Late(Content(secs, o, k + 1), from)
    ensures Covered(secs, o, from) && Between(Content(secs, o, k), from, to) == []
  {
    hide Content, Logs, Ring, InOrder, Between;
    var s := secs[Ring(o, k, |secs|)];
    var done := Content(secs, o, k);
    ContentStep(secs, o, k + 1);
    ContentPrefix(secs, o, k + 1, |secs|);
    ContentStart(secs, o);
    LastOf(s);
    assert s.idx[0].time <= s.idx[|s.idx| - 1].time;
    JoinOrder(done, Logs(s), Content(secs, o, |secs|));
    if k > 0 {
      var p := secs[Ring(o, k - 1, |secs|)];
      ContentStep(secs, o, k);
      LastOf(p);
      assert p.idx[0].time <= p.idx[|p.idx| - 1].time;
      assert done[|done| - 1] == Logs(p)[|Logs(p)| - 1];
      AllBefore(done, from);
    }
    BetweenNone(done, from, to);
  }

  lemma AllBefore(logs: seq<Log>, from: int)
    requires InOrder(logs) && logs != [] && logs[|logs| - 1].time < from
    ensures forall k | 0 <= k < |logs| :: logs[k].time < from
  {
  }

  /** A sector that ends behind `to`: nothing of the rest is in the range. */
  lemma StopsHere(secs: seq<Sector>, o: nat, k: nat, from: int, to: int)
    requires o < |secs| && k < |secs| && InOrder(Content(secs, o, |secs|))
    requires var s := secs[Ring(o, k, |secs|)]; s.idx != [] && s.idx[|s.idx| - 1].time > to
    ensures Between(Content(secs, o, |secs|), from, to) == Between(Content(secs, o, k + 1), from, to)
  {
    hide Content, Logs, Ring, Between, InOrder;
    var s := secs[Ring(o, k, |secs|)];
    var all, done := Content(secs, o, |secs|), Content(secs, o, k + 1);
    ContentStep(secs, o, k + 1);
    ContentPrefix(secs, o, k + 1, |secs|);
    LastOf(s);
    var rest := all[|done|..];
    assert all == done + rest;
    assert done[|done| - 1] == Logs(s)[|Logs(s)| - 1];
    JoinOrder(done, rest, all);
    BetweenNone(rest, from, to);
    BetweenJoins(done, rest, from, to);
    Associate(Between(done, from, to), [], []);
  }

  lemma NoLogs(s: Sector)
    requires s.idx == []
    ensures Logs(s) == []
  {
  }

  lemma CurrentStatus(size: nat, secs: seq<Sector>, cur: Info, oldest: nat, d: nat, t: int)
    requires Consistent(size, secs, cur, oldest, d, t)
    ensures cur.addr < |secs| && cur.status == secs[cur.addr].store && |secs| >= 2 && oldest < |secs|
    ensures d < |secs| && size > HDR && cur.status != Unused && (cur.addr + 1 == |secs| ==> d + 1 == |secs|)
    ensures cur.status == Using ==> cur.emptyIdx + cur.remain == cur.emptyData <= |secs[cur.addr].data|
  {
    hide Logs;
    assert Good(size, secs[cur.addr], t);
  }

  lemma LastStored(dropped: seq<Log>, stored: seq<Log>)
    ensures stored != [] ==> LastTime(dropped + stored) == stored[|stored| - 1].time
  {
  }

  lemma OrderSnoc(logs: seq<Log>, l: Log)
    requires InOrder(logs) && LastTime(logs) <= l.time
    ensures InOrder(logs + [l]) && LastTime(logs + [l]) == l.time
  {
  }

  ghost function WithLog(s: Sector, t: int, bytes: seq<byte>, addr: nat): Sector
    requires addr + |bytes| <= |s.data|
  {
    s.(idx := s.idx + [Idx(TSL_WRITE, t, |bytes|, addr)], data := Splice(s.data, addr, bytes))
  }

  /** The time at which an unused sector would be started does not matter to the others. */
  lemma Retimed(size: nat, secs: seq<Sector>, cur: Info, oldest: nat, d: nat, t: int, t': int)
    requires Consistent(size, secs, cur, oldest, d, t)
    requires secs[cur.addr].store == Using ==> secs[cur.addr].idx != []
    ensures Consistent(size, secs, cur, oldest, d, t')
  {
    hide Packed;
    forall i | 0 <= i < |secs|
      ensures Good(size, secs[i], t')
    {
      assert Good(size, secs[i], t);
      if i != cur.addr {
        NotCurrent(secs, oldest, d, i);
      }
    }
  }

  /** A full current sector is followed by an empty one, or by the oldest one. */
  lemma NextSector(size: nat, secs: seq<Sector>, cur: Info, oldest: nat, d: nat, t: int)
    requires Consistent(size, secs, cur, oldest, d, t) && cur.status == Full
    ensures var next := Next(cur.addr, |secs|);
            && size > HDR && Good(size, secs[next], t)
            && (d + 1 < |secs| ==> secs[next].store == Empty)
            && (d + 1 == |secs| ==> next == oldest && secs[next].store == Full)
  {
    hide Packed;
    var n := |secs|;
    if d + 1 < n {
      assert Ring(oldest, d + 1, n) == Next(cur.addr, n);
    } else {
      assert secs[Ring(oldest, 0, n)].store == Full;
    }
  }

  lemma NothingThere(size: nat, secs: seq<Sector>, i: nat, t: int)
    requires i < |secs| && Good(size, secs[i], t) && secs[i].store == Empty
    ensures Logs(secs[i]) == []
  {
  }

  lemma BlankGood(size: nat, t: int)
    requires HDR <= size
    ensures Good(size, Blank(size), t) && Blank(size).store == Empty && Blank(size).idx == []
  {
    BlankPacked(size);
  }

  /** A log written into the current sector keeps flash and memory together. */
  lemma LogWritten(size: nat, secs: seq<Sector>, cur: Info, oldest: nat, d: nat, t: int, bytes: seq<byte>, c: Info)
    requires Consistent(size, secs, cur, oldest, d, t) && cur.status == Using && IDX + |bytes| <= cur.remain
    requires var all := Content(secs, oldest, |secs|);
             all != [] ==> all[|all| - 1].time <= t
    requires c == cur.(endIdx := cur.emptyIdx, endTime := t, emptyIdx := cur.emptyIdx + IDX,
                       emptyData := cur.emptyData - |bytes|, remain := cur.remain - (IDX + |bytes|))
    ensures cur.emptyData <= |secs[cur.addr].data|
    ensures var secs' := secs[cur.addr := WithLog(secs[cur.addr], t, bytes, cur.emptyData - |bytes|)];
            && Consistent(size, secs', c, oldest, d, t) && secs'[cur.addr].store == Using && secs'[cur.addr].idx != []
            && Content(secs', oldest, |secs|) == Content(secs, oldest, |secs|) + [Log(t, bytes)]
            && Logs(secs'[cur.addr]) == Logs(secs[cur.addr]) + [Log(t, bytes)]
  {
    hide Content, DataEnd, Logs, Splice;
    var s := secs[cur.addr];
    assert Good(size, s, t);
    CurrentTimes(size, secs, cur, oldest, d, t);
    LastIsCurrent(size, secs, cur, oldest, d, t);
    var s' := WithLog(s, t, bytes, cur.emptyData - |bytes|);
    PackedAppend(size, s, s', Idx(TSL_WRITE, t, |bytes|, cur.emptyData - |bytes|), bytes);
    hide Packed;
    CurrentWritten(size, secs, cur, oldest, d, t, s', c, t);
    LogAppended(secs, s', oldest, d, Log(t, bytes));
  }

  lemma PackedSame(size: nat, s: Sector, s': Sector)
    requires Packed(size, s) && s'.idx == s.idx && s'.data == s.data
    ensures Packed(size, s')
  {
  }

  // ---------- runs and instances ----------

  lemma BytesOfOne(l: seq<Log>)
    requires |l| <= 1
    ensures Bytes(l) == if l == [] then 0 else |l[0].bytes|
  {
    assert Bytes([]) == 0;
    assert l[..0] == [];
  }

  /** A store of two sectors that have room for one log of four bytes each. */
  method OneLog(bytes: seq<byte>) returns (db: Database)
    requires |bytes| == 4
    ensures fresh(db) && db.Valid() && db.size == 60 && db.maxLen == 4 && |db.secs| == 2 && db.rollover
    ensures db.cur.addr == 0 && db.cur.status == Using && db.lastTime == 10 && db.dropped == []
    ensures Logs(db.secs[0]) == [Log(10, bytes)] && Logs(db.secs[1]) == [] && db.accepted == [Log(10, bytes)]
  {
    hide Content, Consistent, InOrder, Packed, DataEnd, Logs, Bytes, LastTime;
    db := new Database.Format(60, 2, 4);
    BytesOfOne(Logs(db.secs[0]));
    var r := db.Append(bytes, 10);
    assert db.accepted == [Log(10, bytes)];
  }

  lemma NothingDropped(db: Database)
    requires db.Valid() && db.dropped == []
    ensures db.oldest < |db.secs| && db.Stored() == db.accepted
  {
    hide Content, InOrder, LastTime;
    db.StoredInOrder();
    assert [] + db.Stored() == db.Stored();
  }

  /** A second log goes to the second sector. */
  method TwoLogs(bytes: seq<byte>) returns (db: Database)
    requires |bytes| == 4
    ensures fresh(db) && db.Valid() && db.size == 60 && db.maxLen == 4 && |db.secs| == 2 && db.rollover
    ensures db.cur.addr == 1 && db.cur.status == Using && db.lastTime == 20 && db.dropped == []
    ensures Logs(db.secs[0]) == [Log(10, bytes)] && Logs(db.secs[1]) == [Log(20, bytes)]
    ensures db.oldest < 2 && db.Stored() == db.accepted == [Log(10, bytes), Log(20, bytes)]
  {
    hide Content, Consistent, InOrder, Packed, DataEnd, Logs, Bytes, LastTime;
    db := OneLog(bytes);
    BytesOfOne(Logs(db.secs[0]));
    var r := db.Append(bytes, 20);
    assert db.accepted == [Log(10, bytes), Log(20, bytes)];
    NothingDropped(db);
  }

  /** A third log goes to the first sector again, and drops the first one. */
  method ThirdLog(bytes: seq<byte>) returns (db: Database, r: Result)
    requires |bytes| == 4
    ensures db.Valid() && r == NoErr && db.dropped == [Log(10, bytes)]
    ensures db.Stored() == [Log(20, bytes), Log(30, bytes)]
  {
    hide Content, Consistent, InOrder, Packed, DataEnd, Logs, Bytes, LastTime;
    db := TwoLogs(bytes);
    BytesOfOne(Logs(db.secs[1]));
    r := db.Append(bytes, 30);
    db.StoredInOrder();
    assert db.accepted == [Log(10, bytes), Log(20, bytes), Log(30, bytes)];
    assert db.Stored() == db.accepted[1..];
  }

  /** A range from before the first log on: both are visited. */
  method BothLogs(bytes: seq<byte>) returns (visited: seq<Log>)
    requires |bytes| == 4
    ensures visited == [Log(10, bytes), Log(20, bytes)]
  {
    hide Content, Consistent, InOrder, Packed, DataEnd, Logs, LastTime;
    var db := TwoLogs(bytes);
    visited := db.IterateByTime(0, 30);
    BothBetween(Log(10, bytes), Log(20, bytes), 0, 30);
  }

  lemma BothBetween(l: Log, k: Log, from: int, to: int)
    requires from <= l.time <= to && from <= k.time <= to
    ensures Between([l, k], from, to) == [l, k]
  {
    hide Between;
    assert [l, k][1..] == [k] && [k][1..] == [];
    BetweenCons([l, k], from, to);
    BetweenCons([k], from, to);
    BetweenCons([], from, to);
    assert [l] + [k] == [l, k];
  }

  lemma BetweenTwo(l: Log, k: Log, from: int, to: int)
    requires l.time < from <= k.time <= to
    ensures Between([l, k], from, to) == [k]
  {
    BetweenNone([l], from, to);
    BetweenJoins([l], [k], from, to);
    assert [l] + [k] == [l, k];
    assert Between([k], from, to) == [k] by {
      assert [k] == [] + [k] && [k][..0] == [] && [k][1..] == [];
    }
  }

  /** Of two logs in two sectors the second one lies in the range, but the range begins after the
      first sector and before the second: nothing is visited. */
  method MissedLog(bytes: seq<byte>) returns (db: Database, visited: seq<Log>)
    requires |bytes| == 4
    ensures db.Valid() && db.Stored() == [Log(10, bytes), Log(20, bytes)]
    ensures visited == [] && Between(db.Stored(), 15, 30) == [Log(20, bytes)]
  {
    hide Content, Consistent, InOrder, Logs, Packed, DataEnd, Between;
    db := TwoLogs(bytes);
    var l, k := Log(10, bytes), Log(20, bytes);
    visited := db.IterateByTime(15, 30);
    BetweenTwo(l, k, 15, 30);
  }
}
