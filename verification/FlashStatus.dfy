/**
 Status tables on flash: a status is recorded by clearing bits, never by setting any, and the largest
 one recorded counts.  This is what the crash protocol of the database rests on.
 */
module FlashStatus {
  import opened Basics

  /** FDB_WRITE_GRAN: one bit, or a number of bits written together. */
  type Gran = g: nat | g == 1 || g == 8 || g == 32 || g == 64 witness 1

  const ERASED: bv8 := 0xFF

  /** FDB_STATUS_TABLE_SIZE. */
  function TableSize(g: Gran, num: nat): nat
    requires num > 0
  {
    if g == 1 then (num + 7) / 8 else ((num - 1) * g + 7) / 8
  }

  /** The bits kept when status `index` is recorded at bit granularity: 0xFF >> (index % 8). */
  function Mask(k: nat): bv8
    requires k < 8
  {
    if k == 0 then 0xFF else if k == 1 then 0x7F else if k == 2 then 0x3F else if k == 3 then 0x1F
    else if k == 4 then 0x0F else if k == 5 then 0x07 else if k == 6 then 0x03 else 0x01
  }

  /** The bit of the j-th status in its byte: 0x80 >> (j % 8). */
  function Bit(j: nat): bv8
    requires j < 8
  {
    if j == 0 then 0x80 else if j == 1 then 0x40 else if j == 2 then 0x20 else if j == 3 then 0x10
    else if j == 4 then 0x08 else if j == 5 then 0x04 else if j == 6 then 0x02 else 0x01
  }

  lemma MaskClears(x: bv8, k: nat, j: nat)
    requires k < 8 && j < 8
    ensures ((x & Mask(k)) & Bit(j) == 0) <==> (x & Bit(j) == 0) || j < k
  {
  }

  // ---------- a table as a value ----------

  function ByteOf(g: Gran, s: nat): nat { if g == 1 then s / 8 else s * (g / 8) }

  /** The mark of status s + 1. */
  predicate Marked(table: seq<bv8>, g: Gran, s: nat)
    requires ByteOf(g, s) < |table|
  {
    MarkedIn(table[ByteOf(g, s)], g, s)
  }

  predicate MarkedIn(cell: bv8, g: Gran, s: nat) {
    if g == 1 then cell & Bit(s % 8) == 0 else cell == 0
  }

  /** What one program operation writes at a time. */
  function Unit(g: Gran): (u: nat)
    ensures u >= 1
  {
    if g == 1 then 1 else g / 8
  }

  lemma InTable(g: Gran, num: nat, s: nat)
    requires num > 0 && s + 1 < num
    ensures ByteOf(g, s) + Unit(g) <= TableSize(g, num)
  {
  }

  /** The search of _fdb_get_status, from position n down. */
  function Scan(table: seq<bv8>, g: Gran, num: nat, n: nat): nat
    requires num > 0 && |table| == TableSize(g, num) && n < num
  {
    if n == 0 then 0
    else
      InTable(g, num, n - 1);
      if Marked(table, g, n - 1) then n else Scan(table, g, num, n - 1)
  }

  /** _fdb_get_status. */
  function Status(table: seq<bv8>, g: Gran, num: nat): nat
    requires num > 0 && |table| == TableSize(g, num)
  {
    Scan(table, g, num, num - 1)
  }

  /** The table on flash after _fdb_write_status: programming clears bits. */
  function Recorded(table: seq<bv8>, g: Gran, num: nat, index: nat): (r: seq<bv8>)
    requires num > 0 && |table| == TableSize(g, num) && index < num
    ensures |r| == |table|
  {
    if index == 0 then table
    else
      InTable(g, num, index - 1);
      var b := ByteOf(g, index - 1);
      table[b := if g == 1 then table[b] & Mask(index % 8) else 0]
  }

  lemma ShiftTables(k: nat)
    requires k < 8
    ensures Mask(k) == 0xFF >> k && Bit(k) == 0x80 >> k
  {
  }

  /** What an erased table of three statuses looks like once the first and the second are recorded, with one,
      eight and thirty-two bits written together. */
  lemma TableLayout()
    ensures Recorded([0xFF], 1, 3, 1) == [0x7F] && Recorded([0x7F], 1, 3, 2) == [0x3F]
    ensures Recorded([0xFF, 0xFF], 8, 3, 1) == [0, 0xFF] && Recorded([0, 0xFF], 8, 3, 2) == [0, 0]
    ensures var once := [0, 0xFF, 0xFF, 0xFF, 0xFF, 0xFF, 0xFF, 0xFF];
            && Recorded([0xFF, 0xFF, 0xFF, 0xFF, 0xFF, 0xFF, 0xFF, 0xFF], 32, 3, 1) == once
            && Recorded(once, 32, 3, 2) == [0, 0xFF, 0xFF, 0xFF, 0, 0xFF, 0xFF, 0xFF]
  {
  }

  /** What recording a status amounts to: at bit granularity a multiple of eight leaves no mark. */
  function Effect(g: Gran, index: nat): nat {
    if g == 1 && index % 8 == 0 then 0 else index
  }

  lemma {:induction false} ScanFinds(table: seq<bv8>, g: Gran, num: nat, n: nat)
    requires num > 0 && |table| == TableSize(g, num) && n < num
    ensures var r := Scan(table, g, num, n);
            && r <= n
            && (r > 0 ==> ByteOf(g, r - 1) < |table| && Marked(table, g, r - 1))
            && forall s | r <= s < n :: ByteOf(g, s) < |table| && !Marked(table, g, s)
  {
    hide Marked, TableSize, ByteOf, Unit;
    if n > 0 {
      InTable(g, num, n - 1);
      ScanFinds(table, g, num, n - 1);
    }
  }

  /** Recording adds marks of statuses up to the one recorded, that one's own among them if it has an
      effect, and removes none. */
  lemma MarksAfter(table: seq<bv8>, g: Gran, num: nat, index: nat, s: nat)
    requires num > 0 && |table| == TableSize(g, num) && index < num && s + 1 < num
    ensures ByteOf(g, s) < |table|
    ensures Marked(table, g, s) ==> Marked(Recorded(table, g, num, index), g, s)
    ensures Effect(g, index) == s + 1 ==> Marked(Recorded(table, g, num, index), g, s)
    ensures s >= Effect(g, index) && !Marked(table, g, s) ==> !Marked(Recorded(table, g, num, index), g, s)
  {
    hide Mask, Bit, TableSize;
    InTable(g, num, s);
    if index > 0 {
      InTable(g, num, index - 1);
      if g == 1 {
        MarksOfBits(table, num, index, s);
      } else {
        MarksOfUnits(table, g, num, index, s);
      }
    }
  }

  lemma MarksOfBits(table: seq<bv8>, num: nat, index: nat, s: nat)
    requires num > 0 && |table| == TableSize(1, num) && 0 < index < num && s + 1 < num
    ensures ByteOf(1, s) < |table|
    ensures Marked(table, 1, s) ==> Marked(Recorded(table, 1, num, index), 1, s)
    ensures Effect(1, index) == s + 1 ==> Marked(Recorded(table, 1, num, index), 1, s)
    ensures s >= Effect(1, index) && !Marked(table, 1, s) ==> !Marked(Recorded(table, 1, num, index), 1, s)
  {
    hide Marked, TableSize, Recorded, Unit;
    InTable(1, num, s);
    SameByte(index, s);
    AfterBits(table, num, index, s);
  }

  lemma AfterBits(table: seq<bv8>, num: nat, index: nat, s: nat)
    requires num > 0 && |table| == TableSize(1, num) && 0 < index < num && s + 1 < num
    ensures ByteOf(1, s) < |table|
    ensures Marked(Recorded(table, 1, num, index), 1, s)
            <==> Marked(table, 1, s) || (s / 8 == (index - 1) / 8 && s % 8 < index % 8)
  {
    hide Mask, Bit, TableSize, Recorded, Unit;
    InTable(1, num, s);
    BitsRecorded(table, num, index);
    BitOf(table, (index - 1) / 8, s, index % 8);
  }

  lemma BitOf(table: seq<bv8>, b: nat, s: nat, k: nat)
    requires b < |table| && s / 8 < |table| && k < 8
    ensures Marked(table[b := table[b] & Mask(k)], 1, s) <==> Marked(table, 1, s) || (s / 8 == b && s % 8 < k)
  {
    hide Mask, Bit, MarkedIn;
    CellMasked(table[s / 8], k, s);
  }

  lemma CellMasked(cell: bv8, k: nat, s: nat)
    requires k < 8
    ensures MarkedIn(cell & Mask(k), 1, s) <==> MarkedIn(cell, 1, s) || s % 8 < k
  {
    hide Mask, Bit;
    MaskClears(cell, k, s % 8);
  }

  lemma BitsRecorded(table: seq<bv8>, num: nat, index: nat)
    requires num > 0 && |table| == TableSize(1, num) && 0 < index < num
    ensures (index - 1) / 8 < |table|
    ensures Recorded(table, 1, num, index) == table[(index - 1) / 8 := table[(index - 1) / 8] & Mask(index % 8)]
  {
    hide Mask, TableSize, Unit;
    InTable(1, num, index - 1);
  }

  lemma MarksOfUnits(table: seq<bv8>, g: Gran, num: nat, index: nat, s: nat)
    requires g != 1 && num > 0 && |table| == TableSize(g, num) && 0 < index < num && s + 1 < num
    ensures ByteOf(g, s) < |table|
    ensures Marked(table, g, s) ==> Marked(Recorded(table, g, num, index), g, s)
    ensures index == s + 1 ==> Marked(Recorded(table, g, num, index), g, s)
    ensures s >= index && !Marked(table, g, s) ==> !Marked(Recorded(table, g, num, index), g, s)
  {
    hide Mask, Bit, TableSize, ByteOf;
    InTable(g, num, s);
    InTable(g, num, index - 1);
    UnitsDiffer(g, s, index - 1);
  }

  lemma UnitsDiffer(g: Gran, s: nat, t: nat)
    requires g != 1
    ensures ByteOf(g, s) == ByteOf(g, t) <==> s == t
  {
    if g == 8 {
    } else if g == 32 {
      assert ByteOf(g, s) == 4 * s && ByteOf(g, t) == 4 * t;
    } else {
      assert ByteOf(g, s) == 8 * s && ByteOf(g, t) == 8 * t;
    }
  }

  /** In the byte a write at bit granularity touches, the first index % 8 bits are cleared. */
  lemma SameByte(index: nat, s: nat)
    requires index > 0
    ensures s + 1 == index && index % 8 != 0 ==> s / 8 == (index - 1) / 8 && s % 8 < index % 8
    ensures s >= Effect(1, index) && s / 8 == (index - 1) / 8 ==> s % 8 >= index % 8
  {
  }

  /** Reading a status after recording another gives the larger of the two, whatever the table. */
  lemma StatusAfter(table: seq<bv8>, g: Gran, num: nat, index: nat)
    requires num > 0 && |table| == TableSize(g, num) && index < num
    ensures Status(Recorded(table, g, num, index), g, num) == Max(Status(table, g, num), Effect(g, index))
  {
    hide Scan, Marked, Recorded, TableSize;
    var after := Recorded(table, g, num, index);
    var before, now, effect := Status(table, g, num), Status(after, g, num), Effect(g, index);
    ScanFinds(table, g, num, num - 1);
    ScanFinds(after, g, num, num - 1);
    if before > 0 {
      MarksAfter(table, g, num, index, before - 1);
    }
    if effect > 0 {
      MarksAfter(table, g, num, index, effect - 1);
    }
    if now > 0 {
      MarksAfter(table, g, num, index, now - 1);
    }
  }

  // ---------- a history of writes ----------

  function After(g: Gran, num: nat, writes: seq<nat>): (r: seq<bv8>)
    requires num > 0 && forall i | 0 <= i < |writes| :: writes[i] < num
    ensures |r| == TableSize(g, num)
  {
    if writes == [] then seq(TableSize(g, num), _ => ERASED)
    else Recorded(After(g, num, writes[..|writes| - 1]), g, num, writes[|writes| - 1])
  }

  function Largest(writes: seq<nat>): nat {
    if writes == [] then 0 else Max(Largest(writes[..|writes| - 1]), writes[|writes| - 1])
  }

  function LargestEffect(g: Gran, writes: seq<nat>): nat {
    if writes == [] then 0 else Max(LargestEffect(g, writes[..|writes| - 1]), Effect(g, writes[|writes| - 1]))
  }

  lemma {:induction false} StatusOfErased(table: seq<bv8>, g: Gran, num: nat, n: nat)
    requires num > 0 && |table| == TableSize(g, num) && n < num && forall b | 0 <= b < |table| :: table[b] == ERASED
    ensures Scan(table, g, num, n) == 0
  {
    if n > 0 {
      InTable(g, num, n - 1);
      assert ERASED & Bit((n - 1) % 8) != 0;
      StatusOfErased(table, g, num, n - 1);
    }
  }

  lemma {:induction false} StatusOfHistory(g: Gran, num: nat, writes: seq<nat>)
    requires num > 0 && forall i | 0 <= i < |writes| :: writes[i] < num
    ensures Status(After(g, num, writes), g, num) == LargestEffect(g, writes)
    decreases |writes|
  {
    hide Scan, Recorded, TableSize;
    if writes == [] {
      StatusOfErased(After(g, num, writes), g, num, num - 1);
    } else {
      var n := |writes| - 1;
      StatusOfHistory(g, num, writes[..n]);
      StatusAfter(After(g, num, writes[..n]), g, num, writes[n]);
    }
  }

  lemma {:induction false} EffectsBelow(g: Gran, writes: seq<nat>)
    ensures LargestEffect(g, writes) <= Largest(writes)
    ensures g == 1 && Largest(writes) > 0 && Largest(writes) % 8 == 0 ==> LargestEffect(g, writes) < Largest(writes)
    ensures g != 1 || Largest(writes) % 8 != 0 ==> LargestEffect(g, writes) == Largest(writes)
    decreases |writes|
  {
    if writes != [] {
      EffectsBelow(g, writes[..|writes| - 1]);
    }
  }

  /**
   After any writes to an erased table the status read is the largest written, exactly if that is not,
   at bit granularity, a multiple of eight other than zero: such a status clears no bit of its own.
   */
  lemma ReadsLargest(g: Gran, num: nat, writes: seq<nat>)
    requires num > 0 && forall i | 0 <= i < |writes| :: writes[i] < num
    ensures Status(After(g, num, writes), g, num) == Largest(writes)
            <==> !(g == 1 && Largest(writes) > 0 && Largest(writes) % 8 == 0)
  {
    hide Scan, Recorded, TableSize, After;
    StatusOfHistory(g, num, writes);
    EffectsBelow(g, writes);
  }

  /** With at most eight statuses, and no table of the database has more, it always is. */
  lemma {:induction false} FewStatuses(g: Gran, num: nat, writes: seq<nat>)
    requires 0 < num <= 8 && forall i | 0 <= i < |writes| :: writes[i] < num
    ensures Status(After(g, num, writes), g, num) == Largest(writes) < num
  {
    hide Status, After;
    ReadsLargest(g, num, writes);
    LargestWithin(num, writes);
  }

  lemma {:induction false} LargestWithin(num: nat, writes: seq<nat>)
    requires 0 < num && forall i | 0 <= i < |writes| :: writes[i] < num
    ensures Largest(writes) < num
  {
    if writes != [] {
      LargestWithin(num, writes[..|writes| - 1]);
    }
  }

  // ---------- in place ----------

  /** _fdb_set_status: the table in memory that is to be programmed, and the byte that matters. */
  method SetStatus(g: Gran, table: array<bv8>, num: nat, index: nat) returns (any: bool, byteIndex: nat)
    requires num > 0 && table.Length == TableSize(g, num) && index < num
    modifies table
    ensures any <==> index > 0
    ensures any ==> byteIndex == ByteOf(g, index - 1) < table.Length
    ensures forall b | 0 <= b < table.Length ::
              table[b] == if any && b == byteIndex then (if g == 1 then Mask(index % 8) else 0) else ERASED
  {
    var i := 0;
    while i < table.Length
      invariant i <= table.Length && forall b | 0 <= b < i :: table[b] == ERASED
    {
      table[i] := ERASED;
      i := i + 1;
    }
    any, byteIndex := index > 0, 0;
    if any {
      InTable(g, num, index - 1);
      byteIndex := ByteOf(g, index - 1);
      if g == 1 {
        KeepsMask(Mask(index % 8));
        table[byteIndex] := table[byteIndex] & Mask(index % 8);
      } else {
        table[byteIndex] := 0;
      }
    }
  }

  lemma KeepsMask(x: bv8)
    ensures ERASED & x == x && x & ERASED == x && x & 0 == 0
  {
  }

  lemma ScanStep(table: seq<bv8>, g: Gran, num: nat, n: nat)
    requires num > 0 && |table| == TableSize(g, num) && n < num
    ensures n == 0 ==> Scan(table, g, num, n) == 0
    ensures n > 0 ==> ByteOf(g, n - 1) < |table| && Scan(table, g, num, n)
                                                   == if Marked(table, g, n - 1) then n else Scan(table, g, num, n - 1)
  {
    if n > 0 {
      InTable(g, num, n - 1);
    }
  }

  /** _fdb_get_status. */
  method GetStatus(g: Gran, table: array<bv8>, num: nat) returns (status: nat)
    requires num > 0 && table.Length == TableSize(g, num)
    ensures status == Status(table[..], g, num)
  {
    hide TableSize, Bit, Scan;
    var n, i := num - 1, 0;
    ScanStep(table[..], g, num, 0);
    while n > 0
      invariant n < num && n + i == num - 1
      invariant Status(table[..], g, num) == Scan(table[..], g, num, n)
      decreases n
    {
      ScanStep(table[..], g, num, n);
      n := n - 1;
      if g == 1 {
        if table[n / 8] & Bit(n % 8) == 0 {
          return num - 1 - i;
        }
      } else if table[ByteOf(g, n)] == 0 {
        return num - 1 - i;
      }
      i := i + 1;
    }
    status := num - 1 - i;
  }

  /** Programming `length` bytes: each cell keeps only the bits that both have. */
  method Program(flash: array<bv8>, table: array<bv8>, at: nat, length: nat)
    requires table != flash && at + length <= flash.Length == table.Length
    modifies flash
    ensures forall b | 0 <= b < flash.Length ::
              flash[b] == if at <= b < at + length then old(flash[b]) & table[b] else old(flash[b])
  {
    var i := 0;
    while i < length
      invariant i <= length
      invariant forall b | 0 <= b < flash.Length ::
                  flash[b] == if at <= b < at + i then old(flash[b]) & table[b] else old(flash[b])
    {
      flash[at + i] := flash[at + i] & table[at + i];
      i := i + 1;
    }
  }

  /** _fdb_write_status: one program operation on flash, of one byte or of one write unit. */
  method WriteStatus(g: Gran, flash: array<bv8>, table: array<bv8>, num: nat, index: nat)
    requires num > 0 && table != flash && index < num
    requires flash.Length == TableSize(g, num) && table.Length == TableSize(g, num)
    modifies flash, table
    ensures flash[..] == Recorded(old(flash[..]), g, num, index)
    ensures Status(flash[..], g, num) == Max(Status(old(flash[..]), g, num), Effect(g, index))
  {
    hide Mask, Status, TableSize, Unit, ByteOf, Effect;
    ghost var before := flash[..];
    StatusAfter(before, g, num, index);
    var any, byteIndex := SetStatus(g, table, num, index);
    if any {
      InTable(g, num, index - 1);
      Program(flash, table, byteIndex, Unit(g));
    }
    forall b | 0 <= b < flash.Length
      ensures flash[b] == Recorded(before, g, num, index)[b]
    {
      KeepsMask(before[b]);
    }
  }
}
