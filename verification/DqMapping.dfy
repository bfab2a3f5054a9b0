/**
 Recovering how the board wires DRAM data pins to controller pins, from three
 multi-purpose-register patterns, and undoing that wiring when registers are
 read. A 32-bit word is the sequence of its bits, bit 0 first.
 */
module DqMapping {
  import opened Base

  const BUS_WIDTH_IN_BITS: nat := 8
  const PATTERN_NUM: nat := 3
  const BURST_LENGTH: nat := 8

  type Word = w: seq<bool> | |w| == 32 witness seq(32, _ => false)

  const ZERO_WORD: Word := seq(32, _ => false)

  /** An odd lane count includes an ECC lane, which is skipped. */
  function UsedLanes(subphyMax: nat): nat { if subphyMax % 2 == 1 then subphyMax - 1 else subphyMax }

  /** Pairs of lanes only. */
  lemma UsedLanesMeaning(subphyMax: nat)
    ensures UsedLanes(subphyMax) % 2 == 0 && UsedLanes(subphyMax) <= subphyMax <= UsedLanes(subphyMax) + 1
  {
  }

  function BitValue(b: bool): nat { if b then 1 else 0 }

  /** Bit j of a lane's byte in a word. */
  predicate LaneBit(word: Word, lane: nat, j: nat)
    requires lane < 4 && j < BUS_WIDTH_IN_BITS
  {
    word[BUS_WIDTH_IN_BITS * lane + j]
  }

  /** Bit `i` of a three-bit number. */
  predicate BitOf(d: nat, i: nat)
    requires i < PATTERN_NUM
  {
    if i == 0 then d % 2 == 1 else if i == 1 then (d / 2) % 2 == 1 else (d / 4) % 2 == 1
  }

  /** The three pattern bits seen on one controller pin, as a number. */
  function Code(patterns: seq<Word>, lane: nat, dq: nat): (c: nat)
    requires |patterns| == PATTERN_NUM && lane < 4 && dq < BUS_WIDTH_IN_BITS
    ensures c <= 7
  {
    BitValue(LaneBit(patterns[0], lane, dq)) + 2 * BitValue(LaneBit(patterns[1], lane, dq))
    + 4 * BitValue(LaneBit(patterns[2], lane, dq))
  }

  /** What stage 3 leaves in a slot: the last pin, among the first n, whose code selects it. */
  function SlotAfter(patterns: seq<Word>, lane: nat, slot: nat, n: nat): (q: nat)
    requires |patterns| == PATTERN_NUM && lane < 4 && n <= BUS_WIDTH_IN_BITS
    ensures q < BUS_WIDTH_IN_BITS
  {
    if n == 0 then 0
    else if 7 - Code(patterns, lane, n - 1) == slot then n - 1
    else SlotAfter(patterns, lane, slot, n - 1)
  }

  // ---------------------------------------------------------------- wirings

  /** `w[d]` is the controller pin that DRAM pin d is wired to; no two share one. */
  predicate IsWiring(w: seq<nat>) {
    && |w| == BUS_WIDTH_IN_BITS
    && (forall d :: 0 <= d < |w| ==> w[d] < BUS_WIDTH_IN_BITS)
    && forall d, e :: 0 <= d < e < |w| ==> w[d] != w[e]
  }

  function Image(w: seq<nat>, n: nat): set<nat>
    requires n <= |w|
  {
    set d | 0 <= d < n :: w[d]
  }

  lemma {:induction false} ImageSize(w: seq<nat>, n: nat)
    requires n <= |w| && forall d, e :: 0 <= d < e < |w| ==> w[d] != w[e]
    ensures |Image(w, n)| == n
  {
    if n > 0 {
      ImageSize(w, n - 1);
      assert Image(w, n) == Image(w, n - 1) + {w[n - 1]};
    } else {
      assert Image(w, n) == {};
    }
  }

  /** By counting, every controller pin is wired to some DRAM pin. */
  lemma EveryPinWired(w: seq<nat>, q: nat) returns (d: nat)
    requires IsWiring(w) && q < BUS_WIDTH_IN_BITS
    ensures d < BUS_WIDTH_IN_BITS && w[d] == q
  {
    var identity := [0, 1, 2, 3, 4, 5, 6, 7];
    ImageSize(w, BUS_WIDTH_IN_BITS);
    ImageSize(identity, BUS_WIDTH_IN_BITS);
    forall i | i in Image(w, BUS_WIDTH_IN_BITS)
      ensures i in Image(identity, BUS_WIDTH_IN_BITS)
    {
      assert identity[i] == i;
    }
    SameSize(Image(w, BUS_WIDTH_IN_BITS), Image(identity, BUS_WIDTH_IN_BITS));
    assert identity[q] == q;
    assert q in Image(w, BUS_WIDTH_IN_BITS);
    d :| 0 <= d < BUS_WIDTH_IN_BITS && w[d] == q;
  }

  lemma SameSize(a: set<nat>, b: set<nat>)
    requires a <= b && |a| == |b|
    ensures a == b
  {
    assert b == a + (b - a);
    assert |b| == |a| + |b - a|;
  }

  /** In pattern i, the pin wired to DRAM pin d carries bit i of d. */
  predicate Carries(patterns: seq<Word>, lane: nat, w: seq<nat>)
    requires |patterns| == PATTERN_NUM && lane < 4 && IsWiring(w)
  {
    forall i, d :: 0 <= i < PATTERN_NUM && 0 <= d < BUS_WIDTH_IN_BITS ==>
      LaneBit(patterns[i], lane, w[d]) == BitOf(d, i)
  }

  lemma CodeIsDramPin(patterns: seq<Word>, lane: nat, w: seq<nat>, d: nat)
    requires |patterns| == PATTERN_NUM && lane < 4 && IsWiring(w) && Carries(patterns, lane, w)
    requires d < BUS_WIDTH_IN_BITS
    ensures Code(patterns, lane, w[d]) == d
  {
    assert LaneBit(patterns[0], lane, w[d]) == BitOf(d, 0);
    assert LaneBit(patterns[1], lane, w[d]) == BitOf(d, 1);
    assert LaneBit(patterns[2], lane, w[d]) == BitOf(d, 2);
  }

  lemma {:induction false} SlotIsWired(patterns: seq<Word>, lane: nat, w: seq<nat>, d: nat, n: nat)
    requires |patterns| == PATTERN_NUM && lane < 4 && IsWiring(w) && Carries(patterns, lane, w)
    requires d < BUS_WIDTH_IN_BITS && w[d] < n <= BUS_WIDTH_IN_BITS
    ensures SlotAfter(patterns, lane, 7 - d, n) == w[d]
  {
    var e := EveryPinWired(w, n - 1);
    CodeIsDramPin(patterns, lane, w, e);
    if n - 1 != w[d] {
      SlotIsWired(patterns, lane, w, d, n - 1);
    }
  }

  /** The recovered row is the wiring, highest DRAM pin first, and so a permutation of the pins. */
  lemma RowIsWiring(patterns: seq<Word>, lane: nat, w: seq<nat>, row: seq<nat>)
    requires |patterns| == PATTERN_NUM && lane < 4 && IsWiring(w) && Carries(patterns, lane, w)
    requires |row| == BUS_WIDTH_IN_BITS
    requires forall v :: 0 <= v < BUS_WIDTH_IN_BITS ==> row[v] == SlotAfter(patterns, lane, v, BUS_WIDTH_IN_BITS)
    ensures forall d :: 0 <= d < BUS_WIDTH_IN_BITS ==> row[7 - d] == w[d]
    ensures IsWiring(row)
  {
    forall d | 0 <= d < BUS_WIDTH_IN_BITS
      ensures row[7 - d] == w[d]
    {
      SlotIsWired(patterns, lane, w, d, BUS_WIDTH_IN_BITS);
    }
    forall v | 0 <= v < BUS_WIDTH_IN_BITS
      ensures row[v] == w[7 - v]
    {
      assert row[7 - (7 - v)] == w[7 - v];
    }
  }

  // ---------------------------------------------------------------- decoding

  type Rows = seq<seq<nat>>

  predicate AreRows(rows: Rows, lanes: nat) {
    |rows| == lanes && forall l :: 0 <= l < lanes ==>
      |rows[l]| == BUS_WIDTH_IN_BITS && forall v :: 0 <= v < BUS_WIDTH_IN_BITS ==> rows[l][v] < BUS_WIDTH_IN_BITS
  }

  /** Bit `i` of the decoded word. */
  predicate DecodedBit(rows: Rows, active: seq<bool>, raw: Word, i: nat)
    requires AreRows(rows, |active|) && |active| <= 4 && i < 32
  {
    i / 8 < |active| && active[i / 8] && LaneBit(raw, i / 8, rows[i / 8][i % 8])
  }

  function Decode(rows: Rows, active: seq<bool>, raw: Word): Word
    requires AreRows(rows, |active|) && |active| <= 4
  {
    seq(32, i requires 0 <= i < 32 => DecodedBit(rows, active, raw, i))
  }

  /** The word the controller sees when DRAM pin d of a lane drives bit d of that lane's byte. */
  ghost predicate WiredFrom(wirings: Rows, active: seq<bool>, dram: Word, raw: Word)
    requires AreRows(wirings, |active|) && |active| <= 4
  {
    forall l, d :: 0 <= l < |active| && active[l] && 0 <= d < BUS_WIDTH_IN_BITS ==>
      LaneBit(raw, l, wirings[l][d]) == LaneBit(dram, l, d)
  }

  /** The rows undo the wirings of the active lanes. */
  ghost predicate Recovered(rows: Rows, wirings: Rows, active: seq<bool>)
    requires AreRows(rows, |active|) && AreRows(wirings, |active|)
  {
    forall l, d :: 0 <= l < |active| && active[l] && 0 <= d < BUS_WIDTH_IN_BITS ==> rows[l][7 - d] == wirings[l][d]
  }

  /** Decoding returns every DRAM pin's bit, in the register's order: pin 7 - j at position j of its byte. */
  lemma DecodeInvertsWiring(rows: Rows, wirings: Rows, active: seq<bool>, dram: Word, raw: Word, l: nat, j: nat)
    requires |active| <= 4 && AreRows(rows, |active|) && AreRows(wirings, |active|)
    requires Recovered(rows, wirings, active) && WiredFrom(wirings, active, dram, raw)
    requires l < |active| && active[l] && j < BUS_WIDTH_IN_BITS
    ensures LaneBit(Decode(rows, active, raw), l, j) == LaneBit(dram, l, 7 - j)
  {
    var i := 8 * l + j;
    assert i / 8 == l && i % 8 == j;
    assert rows[l][7 - (7 - j)] == wirings[l][7 - j];
    assert LaneBit(raw, l, wirings[l][7 - j]) == LaneBit(dram, l, 7 - j);
  }

  /** Positions of lanes that are not in use read zero. */
  lemma UnusedReadsZero(rows: Rows, active: seq<bool>, raw: Word, l: nat, j: nat)
    requires |active| <= 4 && AreRows(rows, |active|) && l < 4 && j < BUS_WIDTH_IN_BITS
    requires l >= |active| || !active[l]
    ensures !LaneBit(Decode(rows, active, raw), l, j)
  {
    assert (8 * l + j) / 8 == l;
  }

  function ByteAt(word: Word, l: nat): nat
    requires l < 4
  {
    BitValue(LaneBit(word, l, 0)) + 2 * BitValue(LaneBit(word, l, 1)) + 4 * BitValue(LaneBit(word, l, 2))
    + 8 * BitValue(LaneBit(word, l, 3)) + 16 * BitValue(LaneBit(word, l, 4)) + 32 * BitValue(LaneBit(word, l, 5))
    + 64 * BitValue(LaneBit(word, l, 6)) + 128 * BitValue(LaneBit(word, l, 7))
  }

  function ExpectedByte(i: nat): nat { if i == 0 then 0x55 else if i == 1 then 0x33 else 0x0f }

  /** Every pattern, read back through the recovered map, shows the register's own value in every active byte. */
  lemma PatternsDecode(patterns: seq<Word>, rows: Rows, wirings: Rows, active: seq<bool>, l: nat, i: nat)
    requires |patterns| == PATTERN_NUM && |active| <= 4 && AreRows(rows, |active|) && AreRows(wirings, |active|)
    requires Recovered(rows, wirings, active) && l < |active| && active[l] && i < PATTERN_NUM
    requires IsWiring(wirings[l]) && Carries(patterns, l, wirings[l])
    ensures ByteAt(Decode(rows, active, patterns[i]), l) == ExpectedByte(i)
  {
    var word := Decode(rows, active, patterns[i]);
    forall j | 0 <= j < BUS_WIDTH_IN_BITS
      ensures LaneBit(word, l, j) == BitOf(7 - j, i)
    {
      PatternBit(patterns, rows, wirings, active, l, i, j);
    }
    ByteFromBits(word, l, i);
  }

  lemma ByteFromBits(word: Word, l: nat, i: nat)
    requires l < 4 && i < PATTERN_NUM
    requires forall j :: 0 <= j < BUS_WIDTH_IN_BITS ==> LaneBit(word, l, j) == BitOf(7 - j, i)
    ensures ByteAt(word, l) == ExpectedByte(i)
  {
  }

  lemma PatternBit(patterns: seq<Word>, rows: Rows, wirings: Rows, active: seq<bool>, l: nat, i: nat, j: nat)
    requires |patterns| == PATTERN_NUM && |active| <= 4 && AreRows(rows, |active|) && AreRows(wirings, |active|)
    requires Recovered(rows, wirings, active) && l < |active| && active[l] && i < PATTERN_NUM && j < BUS_WIDTH_IN_BITS
    requires IsWiring(wirings[l]) && Carries(patterns, l, wirings[l])
    ensures LaneBit(Decode(rows, active, patterns[i]), l, j) == BitOf(7 - j, i)
  {
    var k := 8 * l + j;
    assert k / 8 == l && k % 8 == j;
    assert rows[l][7 - (7 - j)] == wirings[l][7 - j];
    assert LaneBit(patterns[i], l, wirings[l][7 - j]) == BitOf(7 - j, i);
  }

  // ---------------------------------------------------------------- in place

  /** The static map of the driver, filled once. */
  class DqMap {
    const lanes: nat
    var table: array2<nat>
    var enabled: bool
    var runOnce: bool

    ghost predicate Valid()
      reads this, table
    {
      && table.Length0 == lanes <= 4 && table.Length1 == BUS_WIDTH_IN_BITS
      && forall l, v :: 0 <= l < lanes && 0 <= v < BUS_WIDTH_IN_BITS ==> table[l, v] < BUS_WIDTH_IN_BITS
    }

    ghost function Row(l: nat): seq<nat>
      requires Valid() && l < lanes
      reads this, table
    {
      seq(BUS_WIDTH_IN_BITS, v requires 0 <= v < BUS_WIDTH_IN_BITS reads this, table
                               requires Valid() && l < lanes => table[l, v])
    }

    ghost function AllRows(): (rows: Rows)
      requires Valid()
      reads this, table
      ensures AreRows(rows, lanes)
    {
      seq(lanes, l requires 0 <= l < lanes reads this, table requires Valid() => Row(l))
    }

    constructor (subphyMax: nat)
      requires subphyMax <= 5
      ensures Valid() && fresh(table) && lanes == UsedLanes(subphyMax) && !enabled && !runOnce
    {
      lanes := UsedLanes(subphyMax);
      table := new nat[UsedLanes(subphyMax), BUS_WIDTH_IN_BITS]((_, _) => 0);
      enabled, runOnce := false, false;
    }

    /** Stage 3 for one lane: each pin is filed under the code it showed. */
    method FileLane(patterns: seq<Word>, l: nat)
      requires Valid() && l < lanes && |patterns| == PATTERN_NUM
      requires forall v :: 0 <= v < BUS_WIDTH_IN_BITS ==> table[l, v] == 0
      modifies table
      ensures Valid()
      ensures forall v :: 0 <= v < BUS_WIDTH_IN_BITS ==> table[l, v] == SlotAfter(patterns, l, v, BUS_WIDTH_IN_BITS)
      ensures forall k, v :: 0 <= k < lanes && k != l && 0 <= v < BUS_WIDTH_IN_BITS ==> table[k, v] == old(table[k, v])
    {
      for dq := 0 to BUS_WIDTH_IN_BITS
        invariant Valid()
        invariant forall v :: 0 <= v < BUS_WIDTH_IN_BITS ==> table[l, v] == SlotAfter(patterns, l, v, dq)
        invariant forall k, v :: 0 <= k < lanes && k != l && 0 <= v < BUS_WIDTH_IN_BITS ==> table[k, v] == old(table[k, v])
      {
        var code := 0;
        for mpr := 0 to PATTERN_NUM
          invariant mpr == 0 ==> code == 0
          invariant mpr == 1 ==> code == BitValue(LaneBit(patterns[0], l, dq))
          invariant mpr == 2 ==> code == BitValue(LaneBit(patterns[0], l, dq)) + 2 * BitValue(LaneBit(patterns[1], l, dq))
          invariant mpr == 3 ==> code == Code(patterns, l, dq)
        {
          var weight := if mpr == 0 then 1 else if mpr == 1 then 2 else 4;
          code := code + BitValue(LaneBit(patterns[mpr], l, dq)) * weight;
        }
        table[l, 7 - code] := dq;
      }
    }

    /** `mv_ddr4_dq_pins_mapping`: a second call changes nothing. */
    method PinsMapping(patterns: seq<Word>, active: seq<bool>)
      requires Valid() && |patterns| == PATTERN_NUM && |active| == lanes
      modifies this`enabled, this`runOnce, table
      ensures Valid() && runOnce && table == old(table)
      ensures old(runOnce) ==> enabled == old(enabled)
      ensures old(runOnce) ==> forall l, v :: 0 <= l < lanes && 0 <= v < BUS_WIDTH_IN_BITS ==> table[l, v] == old(table[l, v])
      ensures !old(runOnce) ==> enabled
      ensures !old(runOnce) ==> forall l, v :: 0 <= l < lanes && 0 <= v < BUS_WIDTH_IN_BITS ==>
                table[l, v] == if active[l] then SlotAfter(patterns, l, v, BUS_WIDTH_IN_BITS) else 0
    {
      if runOnce {
        return;
      }
      runOnce := true;
      forall l, v | 0 <= l < lanes && 0 <= v < BUS_WIDTH_IN_BITS {
        table[l, v] := 0;
      }
      for l := 0 to lanes
        invariant Valid() && runOnce
        invariant forall k, v :: 0 <= k < l && 0 <= v < BUS_WIDTH_IN_BITS ==>
                    table[k, v] == if active[k] then SlotAfter(patterns, k, v, BUS_WIDTH_IN_BITS) else 0
        invariant forall k, v :: l <= k < lanes && 0 <= v < BUS_WIDTH_IN_BITS ==> table[k, v] == 0
      {
        if active[l] {
          FileLane(patterns, l);
        }
      }
      enabled := true;
    }

    /** `mv_ddr4_dq_decode`: the third word of the burst, decoded, replaces all eight. */
    method DqDecode(data: array<Word>, active: seq<bool>)
      requires Valid() && data.Length == BURST_LENGTH && |active| == lanes
      modifies data
      ensures forall i :: 0 <= i < BURST_LENGTH ==> data[i] == Decode(old(AllRows()), active, old(data[2]))
    {
      var raw := data[2];
      var value := ZERO_WORD;
      ghost var rows := AllRows();
      for l := 0 to lanes
        invariant forall i :: 0 <= i < 32 ==> value[i] == (i / 8 < l && DecodedBit(rows, active, raw, i))
      {
        if active[l] {
          value := DecodeLane(raw, value, l);
        }
      }
      assert value == Decode(rows, active, raw);
      for i := 0 to BURST_LENGTH
        invariant forall j :: 0 <= j < i ==> data[j] == value
      {
        data[i] := value;
      }
    }

    /** Gather one lane's bits into the value; the lane's positions are still clear. */
    method DecodeLane(raw: Word, value: Word, l: nat) returns (r: Word)
      requires Valid() && l < lanes && forall j :: 0 <= j < BUS_WIDTH_IN_BITS ==> !LaneBit(value, l, j)
      ensures forall j :: 0 <= j < BUS_WIDTH_IN_BITS ==> LaneBit(r, l, j) == LaneBit(raw, l, table[l, j])
      ensures forall i :: 0 <= i < 32 && i / 8 != l ==> r[i] == value[i]
    {
      r := value;
      for dq := 0 to BUS_WIDTH_IN_BITS
        invariant forall j :: 0 <= j < dq ==> LaneBit(r, l, j) == LaneBit(raw, l, table[l, j])
        invariant forall j :: dq <= j < BUS_WIDTH_IN_BITS ==> !LaneBit(r, l, j)
        invariant forall i :: 0 <= i < 32 && i / 8 != l ==> r[i] == value[i]
      {
        var idx := table[l, dq] + l * BUS_WIDTH_IN_BITS;
        var pos := l * BUS_WIDTH_IN_BITS + dq;
        ghost var before := r;
        assert r[pos] == LaneBit(r, l, dq) && raw[idx] == LaneBit(raw, l, table[l, dq]);
        r := r[pos := r[pos] || raw[idx]];
        forall j | 0 <= j < BUS_WIDTH_IN_BITS && j != dq
          ensures LaneBit(r, l, j) == LaneBit(before, l, j)
        {
        }
      }
    }
  }

  /** The map built from the patterns a wiring produces undoes that wiring, lane by lane. */
  lemma MappingRecoversWiring(patterns: seq<Word>, rows: Rows, wirings: Rows, active: seq<bool>)
    requires |patterns| == PATTERN_NUM && |active| <= 4 && AreRows(rows, |active|) && AreRows(wirings, |active|)
    requires forall l :: 0 <= l < |active| && active[l] ==> IsWiring(wirings[l]) && Carries(patterns, l, wirings[l])
    requires forall l, v :: 0 <= l < |active| && active[l] && 0 <= v < BUS_WIDTH_IN_BITS ==>
               rows[l][v] == SlotAfter(patterns, l, v, BUS_WIDTH_IN_BITS)
    ensures Recovered(rows, wirings, active)
    ensures forall l :: 0 <= l < |active| && active[l] ==> IsWiring(rows[l])
  {
    forall l | 0 <= l < |active| && active[l]
      ensures IsWiring(rows[l]) && forall d :: 0 <= d < BUS_WIDTH_IN_BITS ==> rows[l][7 - d] == wirings[l][d]
    {
      RowIsWiring(patterns, l, wirings[l], rows[l]);
    }
  }

  /**
   End to end: a fresh map, filled from the patterns that some wirings produce,
   decodes any burst read through those wirings to what the DRAM pins drove.
   */
  method RecoverAndDecode(m: DqMap, patterns: seq<Word>, active: seq<bool>, data: array<Word>,
                          ghost wirings: Rows, ghost dram: Word)
    requires m.Valid() && !m.runOnce && |patterns| == PATTERN_NUM && |active| == m.lanes && data.Length == BURST_LENGTH
    requires AreRows(wirings, |active|) && WiredFrom(wirings, active, dram, data[2])
    requires forall l :: 0 <= l < |active| && active[l] ==> IsWiring(wirings[l]) && Carries(patterns, l, wirings[l])
    modifies m, m.table, data
    ensures forall i, l, j :: 0 <= i < BURST_LENGTH && 0 <= l < |active| && active[l] && 0 <= j < BUS_WIDTH_IN_BITS ==>
              LaneBit(data[i], l, j) == LaneBit(dram, l, 7 - j)
  {
    m.PinsMapping(patterns, active);
    ghost var rows, raw := m.AllRows(), data[2];
    MappingRecoversWiring(patterns, rows, wirings, active);
    m.DqDecode(data, active);
    forall i, l, j | 0 <= i < BURST_LENGTH && 0 <= l < |active| && active[l] && 0 <= j < BUS_WIDTH_IN_BITS
      ensures LaneBit(data[i], l, j) == LaneBit(dram, l, 7 - j)
    {
      DecodeInvertsWiring(rows, wirings, active, dram, raw, l, j);
    }
  }
}
