/** Snowflake ids: a 41-bit millisecond clock, a 10-bit node and a 12-bit sequence packed into an int64. */
module Snowflake {
  import opened Common

  const EPOCH := 1577836800000
  const TIMESTAMP_SPAN := 0x200_0000_0000
  const NODE_SPAN := 0x400
  const SEQUENCE_SPAN := 0x1000
  const MAX_SEQUENCE := 0xfff
  const WORD := 0x1_0000_0000_0000_0000

  // ------------------------------------------------------------ 64-bit words

  /** A number as an int64 holds it. */
  function Int64(x: int): (w: int)
    ensures -0x8000_0000_0000_0000 <= w < 0x8000_0000_0000_0000
  {
    (x + 0x8000_0000_0000_0000) % WORD - 0x8000_0000_0000_0000
  }

  /** The bitwise or of two's complement numbers. */
  function BitOr(a: int, b: int): int
    decreases if a < 0 then -a else a
  {
    if a == 0 then b
    else if b == 0 then a
    else if a == -1 || b == -1 then -1
    else 2 * BitOr(a / 2, b / 2) + (if a % 2 == 1 || b % 2 == 1 then 1 else 0)
  }

  /** The bitwise and of two non-negative numbers. */
  function BitAnd(a: nat, b: nat): nat {
    if a == 0 || b == 0 then 0 else 2 * BitAnd(a / 2, b / 2) + (if a % 2 == 1 && b % 2 == 1 then 1 else 0)
  }

  function Pow2(k: nat): (p: nat)
    ensures p >= 1
  {
    if k == 0 then 1 else 2 * Pow2(k - 1)
  }

  /** Or-ing a number into the zero bits below a shifted one adds it. */
  lemma {:induction false} OrOfShifted(x: int, k: nat, y: nat)
    requires y < Pow2(k)
    ensures BitOr(x * Pow2(k), y) == x * Pow2(k) + y
    decreases k
  {
    if k > 0 {
      var a, half := x * Pow2(k), x * Pow2(k - 1);
      assert a == 2 * half;
      OrOfShifted(x, k - 1, y / 2);
    }
  }

  function ShiftRight(a: nat, k: nat): nat {
    if k == 0 then a else ShiftRight(a / 2, k - 1)
  }

  lemma BitAppended(half: int, high: int, p: int, low: int, bit: int)
    requires half == high * p + low
    ensures 2 * half + bit == high * (2 * p) + (2 * low + bit)
  {
    assert 2 * (high * p) == high * (2 * p);
  }

  lemma MaskedBit(a: nat, k: nat)
    requires k > 0
    ensures BitAnd(a, Pow2(k) - 1) == 2 * BitAnd(a / 2, Pow2(k - 1) - 1) + a % 2
  {
    var mask := Pow2(k) - 1;
    assert mask / 2 == Pow2(k - 1) - 1 && mask % 2 == 1;
  }

  /** Masking keeps the k low bits, and the shift the others. */
  lemma {:induction false} MaskSplits(a: nat, k: nat)
    ensures var low := BitAnd(a, Pow2(k) - 1);
      0 <= low < Pow2(k) && a == ShiftRight(a, k) * Pow2(k) + low
    decreases k
  {
    if k > 0 {
      MaskSplits(a / 2, k - 1);
      MaskedBit(a, k);
      BitAppended(a / 2, ShiftRight(a, k), Pow2(k - 1), BitAnd(a / 2, Pow2(k - 1) - 1), a % 2);
      hide BitAnd;
    }
  }

  // ------------------------------------------------------------ packing

  /** A millisecond reading that the timestamp field can hold. */
  predicate InRange(now: int) {
    EPOCH <= now < EPOCH + TIMESTAMP_SPAN
  }

  predicate FieldsOk(now: int, node: int, sequence: int) {
    InRange(now) && 0 <= node < NODE_SPAN && 0 <= sequence < SEQUENCE_SPAN
  }

  /** The packed id: the fields shifted and or-ed on 64-bit words. */
  function Pack(now: int, node: int, sequence: int): int {
    BitOr(BitOr(Int64(Int64(now - EPOCH) * Pow2(22)), Int64(node * Pow2(12))), sequence)
  }

  /** The three fields as digits of a number. */
  function Sum(now: int, node: int, sequence: int): int {
    (now - EPOCH) * 0x40_0000 + node * 0x1000 + sequence
  }

  lemma Powers()
    ensures Pow2(12) == 0x1000 && Pow2(22) == 0x40_0000
  {
    assert Pow2(6) == 64 && Pow2(12) == 0x1000 && Pow2(18) == 0x4_0000 && Pow2(22) == 0x40_0000;
  }

  lemma Wraps(x: int) returns (k: int)
    ensures Int64(x) == x - k * WORD
  {
    k := (x + 0x8000_0000_0000_0000) / WORD;
  }

  lemma WrapIs(x: int, k: int, w: int)
    requires w == x - k * WORD && -0x8000_0000_0000_0000 <= w < 0x8000_0000_0000_0000
    ensures Int64(x) == w
  {
    var wraps := Wraps(x);
  }

  /** The shifted clock field is a multiple of the span below it, and adding lower fields cannot overflow. */
  lemma ShiftedTime(now: int, low: int) returns (digits: int)
    requires 0 <= low < 0x40_0000
    ensures Int64(Int64(now - EPOCH) * 0x40_0000) == digits * 0x40_0000
    ensures digits * 0x40_0000 + low == Int64((now - EPOCH) * 0x40_0000 + low)
  {
    var d := now - EPOCH;
    var first := Wraps(d);
    var second := Wraps(Int64(d) * 0x40_0000);
    var k := first * 0x40_0000 + second;
    digits := d - k * 0x400_0000_0000;
    assert digits * 0x40_0000 == d * 0x40_0000 - k * WORD;
    WrapIs(d * 0x40_0000 + low, k, digits * 0x40_0000 + low);
  }

  /** For every clock reading the id is that number, wrapped to 64 bits; within the clock's range it is the number. */
  lemma PackIsTheSum(now: int, node: int, sequence: int)
    requires 0 <= node < NODE_SPAN && 0 <= sequence < SEQUENCE_SPAN
    ensures Pack(now, node, sequence) == Int64(Sum(now, node, sequence))
    ensures InRange(now) ==> Pack(now, node, sequence) == Sum(now, node, sequence)
    ensures InRange(now) <==> 1577836800000 <= now < 3776860055552
  {
    hide BitOr, Pow2;
    Powers();
    var digits := ShiftedTime(now, node * 0x1000 + sequence);
    WrapIs(node * 0x1000, 0, node * 0x1000);
    OrOfShifted(digits, 22, node * 0x1000);
    OrOfShifted(digits * 0x400 + node, 12, sequence);
    if InRange(now) {
      WrapIs(Sum(now, node, sequence), 0, Sum(now, node, sequence));
    }
  }

  /** Masking the incremented sequence wraps it to zero after 4095. */
  lemma MaskWraps(sequence: nat)
    requires sequence < SEQUENCE_SPAN
    ensures BitAnd(sequence + 1, MAX_SEQUENCE) == if sequence == MAX_SEQUENCE then 0 else sequence + 1
  {
    hide BitAnd, Pow2, ShiftRight;
    Powers();
    MaskSplits(sequence + 1, 12);
  }

  function TimeOf(id: int): int { id / 0x40_0000 + EPOCH }
  function NodeOf(id: int): int { id / 0x1000 % NODE_SPAN }
  function SequenceOf(id: int): int { id % SEQUENCE_SPAN }

  /** The id is a non-negative int64 from which time, node and sequence read back. */
  lemma PackDecodes(now: int, node: int, sequence: int)
    requires FieldsOk(now, node, sequence)
    ensures var id := Pack(now, node, sequence);
      && 0 <= id < 0x8000_0000_0000_0000
      && TimeOf(id) == now && NodeOf(id) == node && SequenceOf(id) == sequence
  {
    hide Pack;
    PackIsTheSum(now, node, sequence);
    var id := Pack(now, node, sequence);
    assert id / 0x1000 == (now - EPOCH) * NODE_SPAN + node;
  }

  /** Ids of different nodes never collide, whatever their clocks and sequences. */
  lemma NodesNeverCollide(t1: int, n1: int, s1: int, t2: int, n2: int, s2: int)
    requires FieldsOk(t1, n1, s1) && FieldsOk(t2, n2, s2) && n1 != n2
    ensures Pack(t1, n1, s1) != Pack(t2, n2, s2)
  {
    hide Pack;
    PackDecodes(t1, n1, s1);
    PackDecodes(t2, n2, s2);
  }

  /** On one node, ids are ordered by (time, sequence). */
  lemma PackGrows(t1: int, s1: int, t2: int, s2: int, n: int)
    requires FieldsOk(t1, n, s1) && FieldsOk(t2, n, s2)
    ensures Pack(t1, n, s1) < Pack(t2, n, s2) <==> t1 < t2 || (t1 == t2 && s1 < s2)
  {
    hide Pack;
    PackIsTheSum(t1, n, s1);
    PackIsTheSum(t2, n, s2);
  }

  // ------------------------------------------------------------ runs of one generator

  /** What one id is made of, besides the node. */
  datatype Stamp = Stamp(time: int, sequence: int)

  /**
    How a stamp may follow another: the sequence counts on within a millisecond and restarts at zero in another
    one. Nothing keeps the clock from stepping back.
   */
  predicate Follows(p: Stamp, q: Stamp) {
    0 <= q.sequence < SEQUENCE_SPAN && q.sequence == if q.time == p.time then p.sequence + 1 else 0
  }

  /** The stamps of one generator, in the order of its ids. */
  predicate Chain(stamps: seq<Stamp>) {
    && (forall i :: 0 <= i < |stamps| ==> 0 <= stamps[i].sequence < SEQUENCE_SPAN)
    && forall i :: 0 < i < |stamps| ==> Follows(stamps[i - 1], stamps[i])
  }

  function Ids(stamps: seq<Stamp>, node: int): seq<int> {
    seq(|stamps|, i requires 0 <= i < |stamps| => Pack(stamps[i].time, node, stamps[i].sequence))
  }

  predicate Increasing(ids: seq<int>) {
    forall i, j :: 0 <= i < j < |ids| ==> ids[i] < ids[j]
  }

  /** The readings behind the ids never go back. */
  predicate Steady(stamps: seq<Stamp>) {
    forall i, j :: 0 <= i <= j < |stamps| ==> stamps[i].time <= stamps[j].time
  }

  predicate AllInRange(stamps: seq<Stamp>) {
    forall i :: 0 <= i < |stamps| ==> InRange(stamps[i].time)
  }

  lemma {:induction false} LaterStamp(stamps: seq<Stamp>, i: nat, j: nat)
    requires Chain(stamps) && Steady(stamps) && i < j < |stamps|
    ensures stamps[i].time < stamps[j].time
      || (stamps[i].time == stamps[j].time && stamps[i].sequence < stamps[j].sequence)
    decreases j
  {
    assert Follows(stamps[j - 1], stamps[j]) && stamps[j - 1].time <= stamps[j].time;
    if i < j - 1 {
      LaterStamp(stamps, i, j - 1);
    }
  }

  /** The ids of a generator are strictly increasing if and only if no reading it used stepped back. */
  lemma IncreasingExactlyWhenSteady(stamps: seq<Stamp>, node: int)
    requires Chain(stamps) && AllInRange(stamps) && 0 <= node < NODE_SPAN
    ensures Increasing(Ids(stamps, node)) <==> Steady(stamps)
  {
    hide Pack;
    var ids := Ids(stamps, node);
    forall i, j | 0 <= i < j < |stamps|
      ensures ids[i] < ids[j] <==>
        stamps[i].time < stamps[j].time || (stamps[i].time == stamps[j].time && stamps[i].sequence < stamps[j].sequence)
    {
      PackGrows(stamps[i].time, stamps[i].sequence, stamps[j].time, stamps[j].sequence, node);
    }
    if Steady(stamps) {
      forall i, j | 0 <= i < j < |stamps| ensures ids[i] < ids[j] {
        LaterStamp(stamps, i, j);
      }
    }
    if Increasing(ids) {
      forall i, j | 0 <= i <= j < |stamps| ensures stamps[i].time <= stamps[j].time {
        assert i < j ==> ids[i] < ids[j];
      }
    }
  }

  /** The clock, as the finite list of readings it gives while it is observed. */
  class Clock {
    const tape: seq<int>
    var pos: nat

    constructor (tape: seq<int>)
      ensures this.tape == tape && pos == 0
    {
      this.tape, pos := tape, 0;
    }

    method Now() returns (now: int)
      requires pos < |tape|
      modifies this
      ensures now == tape[old(pos)] && pos == old(pos) + 1
    {
      now := tape[pos];
      pos := pos + 1;
    }

    /** Reads on while the latest reading is not past last; absent if the observation ends first. */
    method WaitPast(reading: int, last: int) returns (now: Option<int>)
      requires 0 < pos <= |tape| && reading == tape[pos - 1]
      modifies this
      ensures old(pos) <= pos <= |tape|
      ensures now.Some? ==>
        now.value == tape[pos - 1] && now.value > last && forall j :: old(pos) - 1 <= j < pos - 1 ==> tape[j] <= last
      ensures now.None? <==> forall j :: old(pos) - 1 <= j < |tape| ==> tape[j] <= last
    {
      var current := reading;
      while current <= last
        invariant old(pos) <= pos <= |tape| && current == tape[pos - 1]
        invariant forall j :: old(pos) - 1 <= j < pos - 1 ==> tape[j] <= last
        decreases |tape| - pos
      {
        if pos >= |tape| {
          return None;
        }
        current := Now();
      }
      return Some(current);
    }
  }

  /** The readings still to come never go back, none before last, and stay inside the 41-bit range. */
  predicate SteadyFrom(tape: seq<int>, pos: nat, last: int) {
    && (forall i :: pos <= i < |tape| ==> InRange(tape[i]) && last <= tape[i])
    && forall i, j :: pos <= i <= j < |tape| ==> tape[i] <= tape[j]
  }

  /** The last stamp, or what a new generator starts from. */
  function LastOf(stamps: seq<Stamp>): Stamp {
    if stamps == [] then Stamp(0, 0) else stamps[|stamps| - 1]
  }

  /**
    The stamp that a call makes of the last one and the reading it ends with: the sequence counts on when the
    first reading repeats the last time, unless it is full, when the call has waited for a later reading.
   */
  predicate Issues(last: Stamp, tape: seq<int>, from: nat, to: nat, stamp: Stamp)
    requires from < to <= |tape|
  {
    && stamp.time == tape[to - 1]
    && if tape[from] == last.time && last.sequence == MAX_SEQUENCE then
         && stamp.sequence == 0 && stamp.time > last.time && forall j :: from <= j < to - 1 ==> tape[j] <= last.time
       else to == from + 1 && stamp.sequence == if tape[from] == last.time then last.sequence + 1 else 0
  }

  /** A call that ends extends the chain, and on a steady clock keeps it steady and in range. */
  lemma IssueExtendsChain(stamps: seq<Stamp>, tape: seq<int>, from: nat, to: nat, stamp: Stamp)
    requires Chain(stamps) && from < to <= |tape| && Issues(LastOf(stamps), tape, from, to, stamp)
    ensures Chain(stamps + [stamp])
    ensures Steady(stamps) && AllInRange(stamps) && SteadyFrom(tape, from, LastOf(stamps).time) ==>
      Steady(stamps + [stamp]) && AllInRange(stamps + [stamp]) && SteadyFrom(tape, to, stamp.time)
  {
  }

  /** The reading that a call starts with decides whether its id continues a growing list of ids. */
  lemma GrowsExactlyFromLast(stamps: seq<Stamp>, tape: seq<int>, from: nat, to: nat, stamp: Stamp, node: int)
    requires Chain(stamps) && stamps != [] && from < to <= |tape| && Issues(LastOf(stamps), tape, from, to, stamp)
    requires 0 <= node < NODE_SPAN
    ensures Steady(stamps) ==> (Steady(stamps + [stamp]) <==> tape[from] >= LastOf(stamps).time)
    ensures AllInRange(stamps + [stamp]) && Increasing(Ids(stamps, node)) ==>
      (Increasing(Ids(stamps + [stamp], node)) <==> tape[from] >= LastOf(stamps).time)
  {
    hide Pack, Increasing, AllInRange, Chain;
    if AllInRange(stamps + [stamp]) {
      IssueExtendsChain(stamps, tape, from, to, stamp);
      PrefixInRange(stamps, stamp);
      IncreasingExactlyWhenSteady(stamps, node);
      IncreasingExactlyWhenSteady(stamps + [stamp], node);
    }
    if Steady(stamps) {
      SteadyExactlyFromLast(stamps, tape, from, to, stamp);
    }
  }

  lemma SteadyExactlyFromLast(stamps: seq<Stamp>, tape: seq<int>, from: nat, to: nat, stamp: Stamp)
    requires stamps != [] && from < to <= |tape| && Issues(LastOf(stamps), tape, from, to, stamp) && Steady(stamps)
    ensures Steady(stamps + [stamp]) <==> tape[from] >= LastOf(stamps).time
  {
    var more := stamps + [stamp];
    assert more[|stamps| - 1] == LastOf(stamps) && more[|stamps|] == stamp;
  }

  lemma PrefixInRange(stamps: seq<Stamp>, stamp: Stamp)
    requires AllInRange(stamps + [stamp])
    ensures AllInRange(stamps)
  {
    forall i | 0 <= i < |stamps| ensures InRange(stamps[i].time) {
      assert (stamps + [stamp])[i] == stamps[i];
    }
  }

  class SnowflakeGenerator {
    const nodeID: int
    var sequence: int
    var lastTime: int
    ghost var stamps: seq<Stamp>
    /** A call that still waits for the next millisecond holds the mutex. */
    ghost var waiting: bool

    ghost predicate Valid()
      reads this
    {
      0 <= nodeID < NODE_SPAN && Chain(stamps) && LastOf(stamps) == Stamp(lastTime, sequence)
    }

    /** The ids issued so far. */
    ghost function Issued(): seq<int>
      reads this
    {
      Ids(stamps, nodeID)
    }

    /** No reading used so far stepped back, and none to come will. */
    ghost predicate OnSteadyClock(clock: Clock)
      reads this, clock
    {
      Steady(stamps) && AllInRange(stamps) && SteadyFrom(clock.tape, clock.pos, lastTime)
    }

    constructor (nodeID: int)
      requires 0 <= nodeID < NODE_SPAN
      ensures this.nodeID == nodeID && sequence == 0 && lastTime == 0 && stamps == [] && !waiting && Valid()
    {
      this.nodeID, sequence, lastTime, stamps, waiting := nodeID, 0, 0, [], false;
    }

    /** A generator for a node that fits its ten bits, and none for any other number. */
    static method NewSnowflakeGenerator(nodeID: int) returns (generator: SnowflakeGenerator?)
      ensures generator == null <==> nodeID < 0 || nodeID > 1023
      ensures generator != null ==>
        && fresh(generator) && generator.nodeID == nodeID && generator.sequence == 0 && generator.lastTime == 0
        && generator.stamps == [] && !generator.waiting && generator.Valid()
    {
      if nodeID < 0 || nodeID >= NODE_SPAN {
        return null;
      }
      generator := new SnowflakeGenerator(nodeID);
    }

    /**
      Issues the next id, for any clock; the result is absent exactly when the clock has run out of readings
      while the call was waiting for it. On a steady clock the ids issued so far are strictly increasing; on any
      clock a growing list of ids goes on growing exactly when the call's first reading is not before the last time.
     */
    method GenerateInt64(clock: Clock) returns (id: Option<int>)
      requires Valid() && !waiting
      modifies this, clock
      ensures waiting <==> id.None?
      ensures id.None? <==>
        || old(clock.pos) >= |clock.tape|
        || (clock.tape[old(clock.pos)] == old(lastTime) && old(sequence) == 4095
            && forall j :: old(clock.pos) <= j < |clock.tape| ==> clock.tape[j] <= old(lastTime))
      ensures id.None? ==> stamps == old(stamps)
      ensures id.Some? ==>
        && Valid() && old(clock.pos) < clock.pos <= |clock.tape|
        && Issues(Stamp(old(lastTime), old(sequence)), clock.tape, old(clock.pos), clock.pos, Stamp(lastTime, sequence))
        && stamps == old(stamps) + [Stamp(lastTime, sequence)] && Issued() == old(Issued()) + [id.value]
      ensures id.Some? ==>
        var first := clock.tape[old(clock.pos)];
        if first == old(lastTime) && old(sequence) == 4095 then
          && lastTime == clock.tape[clock.pos - 1] && lastTime > old(lastTime) && sequence == 0
          && forall j :: old(clock.pos) <= j < clock.pos - 1 ==> clock.tape[j] <= old(lastTime)
        else
          && clock.pos == old(clock.pos) + 1 && lastTime == first
          && sequence == if first == old(lastTime) then old(sequence) + 1 else 0
      ensures id.Some? ==>
        var sum := (lastTime - 1577836800000) * 4194304 + nodeID * 4096 + sequence;
        && id.value == (sum + 0x8000_0000_0000_0000) % 0x1_0000_0000_0000_0000 - 0x8000_0000_0000_0000
        && (1577836800000 <= lastTime < 3776860055552 ==> id.value == sum)
      ensures id.Some? && old(OnSteadyClock(clock)) ==> OnSteadyClock(clock) && Increasing(Issued())
      ensures id.Some? && old(stamps) != [] && old(Steady(stamps)) ==>
        (Steady(stamps) <==> clock.tape[old(clock.pos)] >= old(lastTime))
      ensures id.Some? && old(stamps) != [] && AllInRange(stamps) && Increasing(old(Issued())) ==>
        (Increasing(Issued()) <==> clock.tape[old(clock.pos)] >= old(lastTime))
    {
      hide Pack, Steady, AllInRange, SteadyFrom, Increasing, Chain, BitAnd;
      SequenceOfLast(stamps);
      var now := NextTime(clock);
      if now.None? {
        waiting := true;
        return None;
      }
      ghost var stamp := Stamp(now.value, sequence);
      IssueExtendsChain(stamps, clock.tape, old(clock.pos), clock.pos, stamp);
      if stamps != [] {
        GrowsExactlyFromLast(stamps, clock.tape, old(clock.pos), clock.pos, stamp, nodeID);
      }
      lastTime := now.value;
      stamps := stamps + [stamp];
      IncreasingOnSteadyClock(stamps, nodeID);
      SequenceOfLast(stamps);
      PackIsTheSum(lastTime, nodeID, sequence);
      return Some(Pack(lastTime, nodeID, sequence));
    }

    /** Reads the clock, advances the sequence, and waits for the next millisecond when the sequence is full. */
    method NextTime(clock: Clock) returns (time: Option<int>)
      requires 0 <= sequence < SEQUENCE_SPAN
      modifies this`sequence, clock
      ensures time.None? <==>
        || old(clock.pos) >= |clock.tape|
        || (clock.tape[old(clock.pos)] == lastTime && old(sequence) == MAX_SEQUENCE
            && forall j :: old(clock.pos) <= j < |clock.tape| ==> clock.tape[j] <= lastTime)
      ensures time.Some? ==>
        && old(clock.pos) < clock.pos <= |clock.tape|
        && Issues(Stamp(lastTime, old(sequence)), clock.tape, old(clock.pos), clock.pos, Stamp(time.value, sequence))
    {
      hide BitAnd;
      if clock.pos >= |clock.tape| {
        return None;
      }
      var now := clock.Now();
      if now == lastTime {
        MaskWraps(sequence);
        sequence := BitAnd(sequence + 1, MAX_SEQUENCE);
        if sequence == 0 {
          time := clock.WaitPast(now, lastTime);
          return time;
        }
      } else {
        sequence := 0;
      }
      return Some(now);
    }

    /** The same id in decimal. */
    method Generate(clock: Clock) returns (text: Option<string>)
      requires Valid() && !waiting
      modifies this, clock
      ensures waiting <==> text.None?
      ensures text.None? ==> stamps == old(stamps)
      ensures text.Some? ==>
        && Valid() && old(clock.pos) < clock.pos <= |clock.tape|
        && Issues(Stamp(old(lastTime), old(sequence)), clock.tape, old(clock.pos), clock.pos, Stamp(lastTime, sequence))
        && |stamps| == |old(stamps)| + 1 && stamps[..|old(stamps)|] == old(stamps)
        && text.value == Decimal(Issued()[|old(stamps)|])
        && var sum := (lastTime - 1577836800000) * 4194304 + nodeID * 4096 + sequence;
        text.value == Decimal((sum + 0x8000_0000_0000_0000) % 0x1_0000_0000_0000_0000 - 0x8000_0000_0000_0000)
      ensures text.Some? && old(OnSteadyClock(clock)) ==> OnSteadyClock(clock) && Increasing(Issued())
      ensures text.Some? && old(stamps) != [] && old(Steady(stamps)) ==>
        (Steady(stamps) <==> clock.tape[old(clock.pos)] >= old(lastTime))
      ensures text.Some? && old(stamps) != [] && AllInRange(stamps) && Increasing(old(Issued())) ==>
        (Increasing(Issued()) <==> clock.tape[old(clock.pos)] >= old(lastTime))
    {
      hide Pack, Steady, AllInRange, SteadyFrom, Increasing, Chain, Decimal;
      var id := GenerateInt64(clock);
      if id.None? {
        return None;
      }
      return Some(Decimal(id.value));
    }

    /** n ids in a row, or the ids issued before the clock ran out. */
    method GenerateN(clock: Clock, n: nat) returns (texts: seq<string>)
      requires Valid() && !waiting
      modifies this, clock
      ensures |texts| <= n && (|texts| < n <==> waiting)
      ensures !waiting ==> Valid()
      ensures |stamps| == |old(stamps)| + |texts| && stamps[..|old(stamps)|] == old(stamps)
      ensures forall i :: 0 <= i < |texts| ==> texts[i] == Decimal(Issued()[|old(stamps)| + i])
      ensures old(OnSteadyClock(clock)) ==> Increasing(Issued())
      ensures && old(stamps) == []
              && (forall i :: old(clock.pos) <= i < |clock.tape| ==> 1577836800000 <= clock.tape[i] < 3776860055552)
              && (forall i, j :: old(clock.pos) <= i <= j < |clock.tape| ==> clock.tape[i] <= clock.tape[j]) ==>
        Increasing(Issued())
    {
      hide Pack, Steady, AllInRange, SteadyFrom, Increasing, Chain, Decimal;
      if && stamps == []
         && (forall i :: clock.pos <= i < |clock.tape| ==> 1577836800000 <= clock.tape[i] < 3776860055552)
         && (forall i, j :: clock.pos <= i <= j < |clock.tape| ==> clock.tape[i] <= clock.tape[j]) {
        NewOnSteadyClock(this, clock);
      }
      texts := [];
      ghost var base := |stamps|;
      IncreasingOnSteadyClock(stamps, nodeID);
      while |texts| < n
        invariant |texts| <= n && !waiting && Valid() && |stamps| == base + |texts|
        invariant stamps[..base] == old(stamps)
        invariant forall i :: 0 <= i < |texts| ==> texts[i] == Decimal(Issued()[base + i])
        invariant old(OnSteadyClock(clock)) ==> OnSteadyClock(clock) && Increasing(Issued())
      {
        ghost var before := stamps;
        var text := Generate(clock);
        if text.None? {
          return;
        }
        assert stamps[..base] == before[..base];
        forall i | 0 <= i < |texts| ensures texts[i] == Decimal(Issued()[base + i]) {
          assert stamps[base + i] == before[base + i];
        }
        texts := texts + [text.value];
      }
    }
  }

  /** A clock that steps back and catches up again makes a generator repeat an id. */
  method SteppingBackRepeatsIds(node: int, time: int) returns (first: Option<int>, third: Option<int>)
    requires 0 <= node < NODE_SPAN && time > 1
    ensures first.Some? && third == first
  {
    hide Pack, BitAnd;
    var clock := new Clock([time, time - 1, time]);
    var generator := new SnowflakeGenerator(node);
    first := generator.GenerateInt64(clock);
    var second := generator.GenerateInt64(clock);
    third := generator.GenerateInt64(clock);
    assert generator.stamps == [Stamp(time, 0), Stamp(time - 1, 0), Stamp(time, 0)];
    ghost var issued := generator.Issued();
    assert issued[0] == first.value && issued[2] == third.value;
  }

  lemma NewOnSteadyClock(generator: SnowflakeGenerator, clock: Clock)
    requires generator.Valid() && generator.stamps == []
    requires forall i :: clock.pos <= i < |clock.tape| ==> 1577836800000 <= clock.tape[i] < 3776860055552
    requires forall i, j :: clock.pos <= i <= j < |clock.tape| ==> clock.tape[i] <= clock.tape[j]
    ensures generator.OnSteadyClock(clock)
  {
  }

  lemma SequenceOfLast(stamps: seq<Stamp>)
    requires Chain(stamps)
    ensures 0 <= LastOf(stamps).sequence < SEQUENCE_SPAN
  {
  }

  lemma IncreasingOnSteadyClock(stamps: seq<Stamp>, node: int)
    requires Chain(stamps) && 0 <= node < NODE_SPAN
    ensures Steady(stamps) && AllInRange(stamps) ==> Increasing(Ids(stamps, node))
  {
    if Steady(stamps) && AllInRange(stamps) {
      IncreasingExactlyWhenSteady(stamps, node);
    }
  }

  // ------------------------------------------------------------ decimal text

  function Decimal(n: int): (s: string)
    ensures s != ""
    decreases n < 0, if n < 0 then -n else n
  {
    if n < 0 then "-" + Decimal(-n)
    else if n < 10 then [('0' as int + n) as char] else Decimal(n / 10) + [('0' as int + n % 10) as char]
  }

  /** The digits are those of the number to the base ten, and a negative number has its sign in front. */
  lemma DecimalIs(n: int)
    ensures 0 <= n < 10 ==> Decimal(n) == ["0123456789"[n]]
    ensures n >= 10 ==> Decimal(n) == Decimal(n / 10) + ["0123456789"[n % 10]]
    ensures n < 0 ==> Decimal(n) == "-" + Decimal(-n)
  {
    forall d | 0 <= d < 10 ensures "0123456789"[d] == ('0' as int + d) as char {
    }
  }

  function ReadDecimal(s: string): nat {
    if s == "" then 0
    else ReadDecimal(s[..|s| - 1]) * 10 + (if '0' <= s[|s| - 1] <= '9' then s[|s| - 1] as int - '0' as int else 0)
  }

  /** The decimal text determines the id, so distinct ids have distinct texts. */
  lemma {:induction false} DecimalReadsBack(n: nat)
    ensures ReadDecimal(Decimal(n)) == n
  {
    if n >= 10 {
      DecimalReadsBack(n / 10);
      var s := Decimal(n);
      assert s[..|s| - 1] == Decimal(n / 10);
    } else {
      assert Decimal(n)[..0] == "";
    }
  }
}
