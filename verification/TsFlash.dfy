/**
 The time series log on flash: sectors with an index growing from the top and data growing from the
 bottom.  Write granularity is one bit, so nothing is aligned and a status table is one byte.
 Sectors go by their number and addresses inside a sector are relative to its start.
 */
module TsFlash {
  import opened Basics

  const HDR := 40  // SECTOR_HDR_DATA_SIZE with 32-bit times
  const IDX := 16  // LOG_IDX_DATA_SIZE
  const ERASED: byte := 0xFF

  // fdb_tsl_status_t
  const TSL_UNUSED := 0
  const TSL_PRE_WRITE := 1
  const TSL_WRITE := 2

  datatype Store = Unused | Empty | Using | Full

  /** A log as the user sees it. */
  datatype Log = Log(time: int, bytes: seq<byte>)

  datatype Idx = Idx(status: nat, time: int, len: nat, addr: nat)

  datatype EndInfo = EndInfo(status: nat, time: int, index: nat)

  /** `idx` holds the index entries in use; the cells of `data` behind them are the data area. */
  datatype Sector = Sector(magicOk: bool, store: Store, start: int, end0: EndInfo, end1: EndInfo,
                           idx: seq<Idx>, data: seq<byte>)

  const NO_END := EndInfo(TSL_UNUSED, -1, 0xFFFFFFFF)

  /** A sector just erased and formatted. */
  function Blank(size: nat): Sector {
    Sector(true, Empty, -1, NO_END, NO_END, [], seq(size, _ => ERASED))
  }

  function IndexAt(k: nat): nat { HDR + IDX * k }

  // ---------- the layout of a sector ----------

  /** Where the data area begins once the logs of idx are stored. */
  function DataEnd(size: nat, idx: seq<Idx>): (r: int)
    ensures r <= size
  {
    if idx == [] then size else DataEnd(size, idx[..|idx| - 1]) - idx[|idx| - 1].len
  }

  ghost predicate Sorted(idx: seq<Idx>) {
    forall j, k | 0 <= j < k < |idx| :: idx[j].time <= idx[k].time
  }

  ghost predicate Tiled(size: nat, idx: seq<Idx>) {
    forall k | 0 <= k < |idx| :: idx[k].addr == DataEnd(size, idx[..k + 1]) && idx[k].status >= TSL_WRITE
  }

  /** Logs lie back to back from the end of the sector down, in time order; what is between the index
      and them is erased. */
  ghost predicate Packed(size: nat, s: Sector) {
    && |s.data| == size && Tiled(size, s.idx) && Sorted(s.idx)
    && IndexAt(|s.idx|) <= DataEnd(size, s.idx)
    && forall p | IndexAt(|s.idx|) <= p < DataEnd(size, s.idx) :: s.data[p] == ERASED
  }

  /** The log an index entry points to. */
  function ReadLog(s: Sector, e: Idx): Log {
    Log(e.time, if e.addr + e.len <= |s.data| then s.data[e.addr..e.addr + e.len] else [])
  }

  function LogAt(s: Sector, k: nat): Log
    requires k < |s.idx|
  {
    ReadLog(s, s.idx[k])
  }

  function Logs(s: Sector): (r: seq<Log>)
    ensures |r| == |s.idx|
    ensures forall k | 0 <= k < |r| :: r[k] == LogAt(s, k)
  {
    seq(|s.idx|, k requires 0 <= k < |s.idx| => LogAt(s, k))
  }

  lemma {:induction false} DataEndFalls(size: nat, idx: seq<Idx>, j: nat, k: nat)
    requires j <= k <= |idx|
    ensures DataEnd(size, idx[..k]) <= DataEnd(size, idx[..j]) <= size
    ensures j < k ==> DataEnd(size, idx[..k]) + idx[k - 1].len == DataEnd(size, idx[..k - 1])
    decreases k
  {
    if j < k {
      assert idx[..k][..k - 1] == idx[..k - 1];
      DataEndFalls(size, idx, j, k - 1);
    } else if k > 0 {
      assert idx[..k][..k - 1] == idx[..k - 1];
      DataEndFalls(size, idx, j - 1, k - 1);
    }
  }

  /** Every log lies between the start of the free area and the end of the sector. */
  lemma LogInside(size: nat, s: Sector, k: nat)
    requires Packed(size, s) && k < |s.idx|
    ensures var e := s.idx[k];
            DataEnd(size, s.idx) <= e.addr && e.addr + e.len == DataEnd(size, s.idx[..k]) <= size
  {
    assert s.idx[..|s.idx|] == s.idx;
    DataEndFalls(size, s.idx, k, k + 1);
    DataEndFalls(size, s.idx, k + 1, |s.idx|);
  }

  /** Index entries and logs never overlap, and neither do two logs. */
  lemma AreasDisjoint(size: nat, s: Sector, j: nat, k: nat)
    requires Packed(size, s) && j < |s.idx| && k < |s.idx|
    ensures IndexAt(j) + IDX <= s.idx[k].addr
    ensures j < k ==> s.idx[k].addr + s.idx[k].len <= s.idx[j].addr
  {
    LogInside(size, s, k);
    if j < k {
      DataEndFalls(size, s.idx, j + 1, k);
    }
  }

  /** A log written into free cells: the others keep their bytes. */
  lemma PackedAppend(size: nat, s: Sector, s': Sector, e: Idx, bytes: seq<byte>)
    requires Packed(size, s) && IDX + |bytes| <= DataEnd(size, s.idx) - IndexAt(|s.idx|)
    requires e.len == |bytes| && e.addr == DataEnd(size, s.idx) - |bytes| && e.status >= TSL_WRITE
    requires s.idx == [] || s.idx[|s.idx| - 1].time <= e.time
    requires s'.idx == s.idx + [e] && s'.data == Splice(s.data, e.addr, bytes)
    ensures Packed(size, s') && Logs(s') == Logs(s) + [Log(e.time, bytes)]
    ensures DataEnd(size, s'.idx) == DataEnd(size, s.idx) - |bytes|
  {
    hide DataEnd, Logs, Tiled, Splice;
    assert s'.idx[..|s.idx|] == s.idx;
    Unfold(size, s'.idx);
    TiledAppend(size, s.idx, e);
    LogsAppend(size, s, s', e, bytes);
    forall p | IndexAt(|s'.idx|) <= p < e.addr
      ensures s'.data[p] == ERASED
    {
      Spliced(s.data, e.addr, bytes, p);
    }
  }

  lemma Spliced(data: seq<byte>, at: nat, bytes: seq<byte>, p: nat)
    requires at + |bytes| <= |data| && p < at
    ensures Splice(data, at, bytes)[p] == data[p]
  {
  }

  lemma TiledAppend(size: nat, idx: seq<Idx>, e: Idx)
    requires Tiled(size, idx) && e.addr == DataEnd(size, idx + [e]) && e.status >= TSL_WRITE
    ensures Tiled(size, idx + [e])
  {
    hide DataEnd;
    var grown := idx + [e];
    forall k | 0 <= k < |grown|
      ensures grown[k].addr == DataEnd(size, grown[..k + 1]) && grown[k].status >= TSL_WRITE
    {
      if k < |idx| {
        assert grown[..k + 1] == idx[..k + 1];
      } else {
        assert grown[..k + 1] == grown;
      }
    }
  }

  lemma LogsAppend(size: nat, s: Sector, s': Sector, e: Idx, bytes: seq<byte>)
    requires Packed(size, s) && e.len == |bytes| && e.addr + |bytes| == DataEnd(size, s.idx)
    requires s'.idx == s.idx + [e] && s'.data == Splice(s.data, e.addr, bytes)
    ensures Logs(s') == Logs(s) + [Log(e.time, bytes)]
  {
    hide DataEnd, Packed;
    PackedSize(size, s);
    var grown := Logs(s) + [Log(e.time, bytes)];
    forall k | 0 <= k < |grown|
      ensures Logs(s')[k] == grown[k]
    {
      if k < |s.idx| {
        LogInside(size, s, k);
        var i := s.idx[k];
        assert s'.data[i.addr..i.addr + i.len] == s.data[i.addr..i.addr + i.len];
      } else {
        assert s'.data[e.addr..e.addr + e.len] == bytes;
      }
    }
  }

  lemma PackedSize(size: nat, s: Sector)
    requires Packed(size, s)
    ensures |s.data| == size
  {
  }

  lemma Unfold(size: nat, idx: seq<Idx>)
    requires idx != []
    ensures DataEnd(size, idx) == DataEnd(size, idx[..|idx| - 1]) - idx[|idx| - 1].len
  {
  }

  lemma BlankPacked(size: nat)
    requires HDR <= size
    ensures Packed(size, Blank(size)) && Logs(Blank(size)) == []
  {
  }

  /** The bytes of all logs. */
  ghost function Bytes(logs: seq<Log>): nat {
    if logs == [] then 0 else Bytes(logs[..|logs| - 1]) + |logs[|logs| - 1].bytes|
  }

  lemma {:induction false} BytesUpTo(size: nat, s: Sector, k: nat)
    requires Packed(size, s) && k <= |s.idx|
    ensures DataEnd(size, s.idx[..k]) + Bytes(Logs(s)[..k]) == size
    decreases k
  {
    hide Packed;
    if k > 0 {
      BytesUpTo(size, s, k - 1);
      LogInside(size, s, k - 1);
      DataEndFalls(size, s.idx, k - 1, k);
      PackedSize(size, s);
      assert Logs(s)[..k][..k - 1] == Logs(s)[..k - 1] && Logs(s)[..k][k - 1] == LogAt(s, k - 1);
      assert |LogAt(s, k - 1).bytes| == s.idx[k - 1].len;
    }
  }

  /** What the logs do not take of the data area is still free. */
  lemma FreeRoom(size: nat, s: Sector)
    requires Packed(size, s)
    ensures DataEnd(size, s.idx) + Bytes(Logs(s)) == size
  {
    hide Packed, DataEnd;
    BytesUpTo(size, s, |s.idx|);
    assert s.idx[..|s.idx|] == s.idx && Logs(s)[..|s.idx|] == Logs(s);
  }

  // ---------- the ring ----------

  /** The sector k steps after o. */
  function Ring(o: nat, k: nat, n: nat): (i: nat)
    requires o < n && k <= n
    ensures i < n
  {
    if o + k < n then o + k else o + k - n
  }

  function Next(o: nat, n: nat): (i: nat)
    requires o < n
    ensures i < n && i == Ring(o, 1, n)
  {
    if o + 1 < n then o + 1 else 0
  }

  /** The logs of k sectors from o on. */
  ghost function Content(secs: seq<Sector>, o: nat, k: nat): seq<Log>
    requires o < |secs| && k <= |secs|
  {
    if k == 0 then [] else Content(secs, o, k - 1) + Logs(secs[Ring(o, k - 1, |secs|)])
  }

  lemma {:induction false} ContentSame(secs: seq<Sector>, secs': seq<Sector>, o: nat, k: nat)
    requires o < |secs| == |secs'| && k <= |secs|
    requires forall j | 0 <= j < k :: Logs(secs'[Ring(o, j, |secs|)]) == Logs(secs[Ring(o, j, |secs|)])
    ensures Content(secs', o, k) == Content(secs, o, k)
    decreases k
  {
    hide Logs, Ring;
    if k > 0 {
      ContentSame(secs, secs', o, k - 1);
    }
  }

  /** Empty sectors behind the first d add nothing. */
  lemma {:induction false} ContentEmpty(secs: seq<Sector>, o: nat, d: nat, k: nat)
    requires o < |secs| && d <= k <= |secs|
    requires forall j | d <= j < k :: secs[Ring(o, j, |secs|)].idx == []
    ensures Content(secs, o, k) == Content(secs, o, d)
    decreases k
  {
    if d < k {
      ContentEmpty(secs, o, d, k - 1);
      assert Logs(secs[Ring(o, k - 1, |secs|)]) == [];
    }
  }

  /** Dropping the oldest sector drops exactly its logs. */
  lemma {:induction false} ContentShift(secs: seq<Sector>, o: nat, k: nat)
    requires o < |secs| && 1 <= k <= |secs|
    ensures Content(secs, o, k) == Logs(secs[o]) + Content(secs, Next(o, |secs|), k - 1)
    decreases k
  {
    hide Logs, Content, Ring;
    var n := |secs|;
    RingNext(o, k, n);
    ContentStep(secs, o, k);
    if k == 1 {
      ContentStart(secs, o);
      ContentStart(secs, Next(o, n));
    } else {
      ContentShift(secs, o, k - 1);
      ContentStep(secs, Next(o, n), k - 1);
      Associate(Logs(secs[o]), Content(secs, Next(o, n), k - 2), Logs(secs[Ring(o, k - 1, n)]));
    }
  }

  lemma Associate(a: seq<Log>, b: seq<Log>, c: seq<Log>)
    ensures a + b + c == a + (b + c)
    ensures a + [] == a == [] + a
  {
  }

  lemma RingNext(o: nat, k: nat, n: nat)
    requires o < n && 1 <= k <= n
    ensures k >= 2 ==> Ring(o, k - 1, n) == Ring(Next(o, n), k - 2, n)
    ensures Ring(o, 0, n) == o
  {
  }

  lemma ContentStep(secs: seq<Sector>, o: nat, k: nat)
    requires o < |secs| && 1 <= k <= |secs|
    ensures Content(secs, o, k) == Content(secs, o, k - 1) + Logs(secs[Ring(o, k - 1, |secs|)])
  {
  }

  lemma ContentStart(secs: seq<Sector>, o: nat)
    requires o < |secs|
    ensures Content(secs, o, 0) == []
  {
  }

  ghost predicate InOrder(logs: seq<Log>) {
    forall j, k | 0 <= j < k < |logs| :: logs[j].time <= logs[k].time
  }

  // ---------- a range of times ----------

  /** The logs with from <= time <= to, in their order. */
  function Between(logs: seq<Log>, from: int, to: int): seq<Log> {
    if logs == [] then []
    else (if from <= logs[0].time <= to then [logs[0]] else []) + Between(logs[1..], from, to)
  }

  /** In a log in order these are the ones from the first that is not too early up to the first that is
      too late. */
  lemma {:induction false} BetweenSlice(logs: seq<Log>, from: int, to: int) returns (i: nat, j: nat)
    requires InOrder(logs) && from <= to
    ensures i <= j <= |logs| && Between(logs, from, to) == logs[i..j]
    ensures forall k | 0 <= k < |logs| :: (logs[k].time < from <==> k < i) && (logs[k].time > to <==> k >= j)
    decreases |logs|
  {
    hide Between, InOrder;
    BetweenCons(logs, from, to);
    if logs == [] {
      i, j := 0, 0;
    } else {
      var rest := logs[1..];
      RestInOrder(logs);
      i, j := BetweenSlice(rest, from, to);
      if logs[0].time < from {
        i, j := i + 1, j + 1;
        assert rest[i - 1..j - 1] == logs[i..j];
      } else if logs[0].time <= to {
        j := j + 1;
        assert [logs[0]] + rest[..j - 1] == logs[..j];
      } else {
        assert logs[0..0] == [];
      }
      forall k | 0 <= k < |logs|
        ensures (logs[k].time < from <==> k < i) && (logs[k].time > to <==> k >= j)
      {
        assert k > 0 ==> rest[k - 1] == logs[k];
      }
    }
  }

  lemma BetweenCons(logs: seq<Log>, from: int, to: int)
    ensures logs == [] ==> Between(logs, from, to) == []
    ensures logs != [] ==>
              Between(logs, from, to)
              == (if from <= logs[0].time <= to then [logs[0]] else []) + Between(logs[1..], from, to)
  {
  }

  lemma RestInOrder(logs: seq<Log>)
    requires InOrder(logs) && logs != []
    ensures InOrder(logs[1..]) && forall k | 1 <= k < |logs| :: logs[0].time <= logs[k].time
    ensures |logs| > 1 ==> logs[0].time <= logs[1..][0].time
  {
    assert forall k | 0 <= k < |logs| - 1 :: logs[1..][k] == logs[k + 1];
  }

  /** And of any log exactly those in the range, as often as they are there. */
  lemma {:induction false} BetweenCounts(logs: seq<Log>, from: int, to: int, l: Log)
    ensures multiset(Between(logs, from, to))[l] == if from <= l.time <= to then multiset(logs)[l] else 0
    decreases |logs|
  {
    hide Between;
    BetweenCons(logs, from, to);
    if logs != [] {
      BetweenCounts(logs[1..], from, to, l);
      CountCons(logs, l);
      CountJoined(if from <= logs[0].time <= to then [logs[0]] else [], Between(logs[1..], from, to), l);
    }
  }

  lemma CountCons(logs: seq<Log>, l: Log)
    requires logs != []
    ensures multiset(logs)[l] == multiset(logs[1..])[l] + if logs[0] == l then 1 else 0
  {
    assert logs == [logs[0]] + logs[1..];
  }

  lemma CountJoined(a: seq<Log>, b: seq<Log>, l: Log)
    requires |a| <= 1
    ensures multiset(a + b)[l] == multiset(b)[l] + if a != [] && a[0] == l then 1 else 0
  {
    assert a == [] || a == [a[0]];
    assert a == [] ==> a + b == b;
  }

  lemma {:induction false} BetweenJoins(a: seq<Log>, b: seq<Log>, from: int, to: int)
    ensures Between(a + b, from, to) == Between(a, from, to) + Between(b, from, to)
    decreases |a|
  {
    if a == [] {
      assert a + b == b;
    } else {
      assert (a + b)[1..] == a[1..] + b;
      BetweenJoins(a[1..], b, from, to);
    }
  }

  lemma {:induction false} BetweenNone(logs: seq<Log>, from: int, to: int)
    requires forall k | 0 <= k < |logs| :: logs[k].time < from || logs[k].time > to
    ensures Between(logs, from, to) == []
    decreases |logs|
  {
    if logs != [] {
      BetweenNone(logs[1..], from, to);
    }
  }
}
