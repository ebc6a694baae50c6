/** The timestamp generators of org.maxkey.uuid: a clock read in milliseconds, a counter of the UUIDs issued within the
    millisecond, and a clock sequence that changes whenever the clock goes back. Version 1 of RFC 4122. */
module UuidTimestamp {
  import opened ByteNumbers
  import opened Calendar
  import opened JavaNumbers
  import opened JsNumbers
  import opened Options
  import opened Uuids
  import opened UuidObjects

  const EPOCH_OFFSET: int := 12219292800000
  const CLOCK_RES: int := 10000
  const SEQUENCES: int := 16384
  const STAMPS: int := 0x1000_0000_0000_0000

  /** A clock reading, with the random number that is drawn if the clock turns out to have gone back. */
  datatype Reading = Reading(time: int, draw: int)
  {
    /** Any long, and nextInt(16383). */
    predicate Valid() { Fits(time, LONGS) && 0 <= draw < SEQUENCES - 1 }
  }

  predicate IsSequence(s: int) { 0 <= s < SEQUENCES }

  function NextSequence(prev: int, draw: int): (next: int)
    requires IsSequence(prev) && 0 <= draw < SEQUENCES - 1
    ensures IsSequence(next) && next != prev
  {
    if draw >= prev then draw + 1 else draw
  }

  /** A clock sequence has 14 bits, all of which are used. */
  lemma SequencesFill()
    ensures SEQUENCES == Pow2(14)
  {
    Pow2Values();
    Pow2Add(14, 1);
    Pow2Add(1, 15);
  }

  /** UUIDRandomness.java line 49. */
  method NextRandomClockSequence(prev: int, draw: int) returns (next: int)
    requires IsSequence(prev) && 0 <= draw < SEQUENCES - 1
    ensures next == NextSequence(prev, draw)
  {
    next := draw;
    if next >= prev {
      next := next + 1;
    }
  }

  /** Every other sequence comes from exactly one draw, so the new one is uniform if the draw is. */
  lemma NextSequenceIsFair(prev: int, next: int)
    requires IsSequence(prev) && IsSequence(next) && next != prev
    ensures var draw := if next > prev then next - 1 else next;
      0 <= draw < SEQUENCES - 1 && forall e :: 0 <= e < SEQUENCES - 1 ==> (NextSequence(prev, e) == next <==> e == draw)
  {
  }

  /** The fields last_time, clock_adj and clock_sequence. */
  datatype Clock = Clock(lastTime: int, adj: int, sequence: int)
  {
    predicate Valid() { adj >= 0 && IsSequence(sequence) }

    /** unique_time, UnsynchronizedTimestampUUIDGenerator.java line 103: units of 100 ns since 1582. */
    function Time(): int { (lastTime + EPOCH_OFFSET) * CLOCK_RES + adj }
  }

  const NANOS_IN_MILLI: int := 1_000_000
  const MILLIS_IN_DAY: int := 24 * 60 * 60 * 1000

  /** Section 4.1.4 of RFC 4122: a timestamp counts units of 100 nanoseconds since 15 October 1582, and the counter takes
      the units of the millisecond that the clock shows. */
  lemma TimeCounts(c: Clock)
    ensures c.Time() * 100 ==
      ((17 + 30 + 31 + DaysOfYears(1583, 1970 - 1583)) * MILLIS_IN_DAY + c.lastTime) * NANOS_IN_MILLI + 100 * c.adj
    ensures CLOCK_RES * 100 == NANOS_IN_MILLI
  {
    DaysToEpoch();
    hide DaysOfYears;
  }

  /** What a UUID says about when it was issued. */
  datatype Stamp = Stamp(time: int, sequence: int)
  {
    predicate Valid() { IsSequence(sequence) }
  }

  /** checkSystemTime as a function of the state. */
  function Checked(c: Clock, r: Reading): (c': Clock)
    requires c.Valid() && r.Valid()
    ensures c'.Valid() && c'.lastTime == r.time
  {
    var sequence := if r.time < c.lastTime then NextSequence(c.sequence, r.draw) else c.sequence;
    if r.time != c.lastTime then Clock(r.time, 0, sequence) else Clock(c.lastTime, c.adj, sequence)
  }

  /** One nextUUID of the unsynchronized generator; no stamp stands for its IllegalStateException. */
  function Issue(c: Clock, r: Reading): (p: (Clock, Option<Stamp>))
    requires c.Valid() && r.Valid()
    ensures p.0.Valid()
  {
    var counted := c.(adj := c.adj + 1);
    var c' := if counted.adj > CLOCK_RES then Checked(counted, r) else counted;
    if counted.adj > CLOCK_RES && c'.adj >= CLOCK_RES then (c', None) else (c', Some(Stamp(c.Time(), c'.sequence)))
  }

  /** The two clock readings of one nextUUID of the synchronized generator. */
  datatype Call = Call(first: Reading, overflow: Reading)
  {
    predicate Valid() { first.Valid() && overflow.Valid() }
  }

  function IssueChecked(c: Clock, call: Call): (p: (Clock, Option<Stamp>))
    requires c.Valid() && call.Valid()
    ensures p.0.Valid()
  {
    Issue(Checked(c, call.first), call.overflow)
  }

  /** UnsynchronizedTimestampUUIDGenerator.java lines 106-111: the layout of section 4.1.2 of RFC 4122. */
  function Pack(s: Stamp, node: seq<int>): (f: Fields)
    requires s.Valid()
  {
    Fields(
      Cast(s.time, INTS),
      Cast(s.time / 0x1_0000_0000 % 0x1_0000, SHORTS),
      Cast(Or(0x1000, s.time / 0x1_0000_0000_0000 % 0x1000, 0x1000), SHORTS),
      Cast(Or(0x80, s.sequence / 0x100 % 0x40, 0x40), BYTES),
      Cast(s.sequence % 0x100, BYTES),
      node)
  }

  /** Sections 4.1.1 and 4.1.3 to 4.1.5 of RFC 4122: how a reader takes the fields apart. */
  function VariantOf(f: Fields): int { Bits(f.clockSeqHi, BYTES) / 0x40 }

  function VersionOf(f: Fields): int { Bits(f.timeHiAndVersion, SHORTS) / 0x1000 }

  function TimestampOf(f: Fields): int {
    Bits(f.timeLow, INTS) + 0x1_0000_0000 * Bits(f.timeMid, SHORTS)
    + 0x1_0000_0000_0000 * (Bits(f.timeHiAndVersion, SHORTS) % 0x1000)
  }

  function SequenceOf(f: Fields): int { 0x100 * (Bits(f.clockSeqHi, BYTES) % 0x40) + Bits(f.clockSeqLow, BYTES) }

  /** The UUID is of variant 10 (binary) and version 1, and holds the whole stamp as far as 60 bits go. */
  lemma PackReads(s: Stamp, node: seq<int>)
    requires s.Valid() && IsNode(node)
    ensures var f := Pack(s, node); f.Valid() && VariantOf(f) == 2 && VersionOf(f) == 1
    ensures var f := Pack(s, node); TimestampOf(f) == s.time % STAMPS && SequenceOf(f) == s.sequence && f.node == node
  {
    hide Cast, IsNode;
    CastKeepsBits(s.time, INTS);
    CastKeepsBits(s.time / 0x1_0000_0000 % 0x1_0000, SHORTS);
    VersionField(s.time / 0x1_0000_0000_0000 % 0x1000);
    VariantField(s.sequence);
    TimeParts(s.time);
  }

  lemma VersionField(hi: int)
    requires 0 <= hi < 0x1000
    ensures Bits(Cast(Or(0x1000, hi, 0x1000), SHORTS), SHORTS) == 0x1000 + hi
  {
    CastKeepsBits(0x1000 + hi, SHORTS);
  }

  lemma VariantField(sequence: int)
    requires IsSequence(sequence)
    ensures sequence / 0x100 % 0x40 == sequence / 0x100
    ensures Bits(Cast(Or(0x80, sequence / 0x100 % 0x40, 0x40), BYTES), BYTES) == 0x80 + sequence / 0x100
    ensures Bits(Cast(sequence % 0x100, BYTES), BYTES) == sequence % 0x100
  {
    CastKeepsBits(0x80 + sequence / 0x100, BYTES);
    CastKeepsBits(sequence % 0x100, BYTES);
  }

  /** Only the low 60 bits of unique_time are used, so it does not matter whether it wrapped around. */
  lemma PackWraps(time: int, sequence: int, node: seq<int>)
    requires IsSequence(sequence)
    ensures Pack(Stamp(Cast(time, LONGS), sequence), node) == Pack(Stamp(time, sequence), node)
  {
    hide Cast;
    FieldOfCast(time, LONGS, 1, INTS, INTS);
    FieldOfCast(time, LONGS, 0x1_0000_0000, 0x1_0000, 0x1_0000);
    FieldOfCast(time, LONGS, 0x1_0000_0000_0000, 0x1000, 0x10);
    CastSame(Cast(time, LONGS), time, INTS);
  }

  lemma TimeParts(t: int)
    ensures t % STAMPS == t % 0x1_0000_0000 + 0x1_0000_0000 * (t / 0x1_0000_0000 % 0x1_0000)
      + 0x1_0000_0000_0000 * (t / 0x1_0000_0000_0000 % 0x1000)
  {
    var low, mid, hi := t % 0x1_0000_0000, t / 0x1_0000_0000 % 0x1_0000, t / 0x1_0000_0000_0000 % 0x1000;
    assert t / 0x1_0000_0000 == 0x1_0000 * (t / 0x1_0000_0000_0000) + mid;
    assert t / 0x1_0000_0000_0000 == 0x1000 * (t / STAMPS) + hi;
  }

  /** Where the parts of a UUID stand among its 128 bits: the low, middle and high bits of the time, version 1, variant 10
      (binary), the clock sequence and the node. */
  lemma PackNumber(s: Stamp, node: seq<int>)
    requires s.Valid() && IsNode(node)
    ensures ByteNumber(BytesOf(Pack(s, node))) ==
      s.time % 0x1_0000_0000 * 0x1_0000_0000_0000_0000_0000_0000
      + s.time / 0x1_0000_0000 % 0x1_0000 * 0x1_0000_0000_0000_0000_0000
      + (0x1000 + s.time / 0x1_0000_0000_0000 % 0x1000) * 0x1_0000_0000_0000_0000
      + (0x8000 + s.sequence) * 0x1_0000_0000_0000 + ByteNumber(node)
  {
    hide Cast, IsNode, ByteNumber, BytesOf;
    PackReads(s, node);
    CastKeepsBits(s.time, INTS);
    CastKeepsBits(s.time / 0x1_0000_0000 % 0x1_0000, SHORTS);
    VersionField(s.time / 0x1_0000_0000_0000 % 0x1000);
    VariantField(s.sequence);
    BytesNumber(Pack(s, node));
  }

  /** Two UUIDs of a node are equal exactly if their clock sequences are and their times agree in 60 bits. */
  lemma PackAgrees(s: Stamp, t: Stamp, node: seq<int>)
    requires s.Valid() && t.Valid() && IsNode(node)
    ensures Pack(s, node) == Pack(t, node) <==> SameBits(s, t)
  {
    hide Cast, IsNode, TimestampOf, SequenceOf;
    if SameBits(s, t) {
      FieldAgrees(s.time, t.time, 1, INTS, 0x1000_0000);
      FieldAgrees(s.time, t.time, 0x1_0000_0000, 0x1_0000, 0x1000);
      FieldAgrees(s.time, t.time, 0x1_0000_0000_0000, 0x1000, 1);
      CastSame(s.time, t.time, INTS);
    } else {
      PackReads(s, node);
      PackReads(t, node);
    }
  }

  /** A UUID has room for the clock sequence and for 60 bits of the time. */
  predicate SameBits(s: Stamp, t: Stamp) { s.sequence == t.sequence && s.time % STAMPS == t.time % STAMPS }

  lemma FieldAgrees(x: int, y: int, p: int, m: int, r: int)
    requires x % STAMPS == y % STAMPS && p > 0 && m > 0 && r > 0 && p * (m * r) == STAMPS
    ensures x / p % m == y / p % m
  {
    var d := y / STAMPS - x / STAMPS;
    assert y == x + STAMPS * d;
    FieldShift(x, y, STAMPS, d, p, m, r);
  }

  class UnsynchronizedTimestampUUIDGenerator {
    var lastTime: int
    var clockAdj: int
    var clockSequence: int
    const node: array<int>

    ghost function State(): Clock
      reads this
    {
      Clock(lastTime, clockAdj, clockSequence)
    }

    ghost predicate Valid()
      reads this, node
    {
      State().Valid() && IsNode(node[..])
    }

    /** UnsynchronizedTimestampUUIDGenerator.java lines 62-64. */
    constructor (clockSequence: int, bytes: array<int>, r: Reading)
      requires IsSequence(clockSequence) && IsNode(bytes[..]) && r.Valid()
      ensures Valid() && fresh(node) && node[..] == bytes[..]
      ensures State() == Checked(Clock(0, 0, clockSequence), r)
    {
      lastTime, clockAdj := 0, 0;
      this.clockSequence := clockSequence;
      var copy := new int[6];
      node := copy;
      new;
      forall i | 0 <= i < 6 {
        node[i] := bytes[i];
      }
      assert node[..] == bytes[..];
      CheckSystemTime(r);
    }

    /** UnsynchronizedTimestampUUIDGenerator.java line 52: null for its exceptions. */
    static method Create(clockSequence: int, bytes: array?<int>, r: Reading) returns (g: UnsynchronizedTimestampUUIDGenerator?)
      requires (bytes != null ==> AreBytes(bytes[..])) && r.Valid()
      ensures g == null <==> !IsSequence(clockSequence) || bytes == null || bytes.Length != 6
      ensures g != null ==> fresh(g) && fresh(g.node) && g.Valid() && g.node[..] == bytes[..]
      ensures g != null ==> g.State() == Checked(Clock(0, 0, clockSequence), r)
    {
      if clockSequence < 0 || clockSequence >= 16384 || bytes == null || bytes.Length != 6 {
        return null;
      }
      g := new UnsynchronizedTimestampUUIDGenerator(clockSequence, bytes, r);
    }

    /** UnsynchronizedTimestampUUIDGenerator.java line 71. */
    method CheckSystemTime(r: Reading)
      requires Valid() && r.Valid()
      modifies `lastTime, `clockAdj, `clockSequence
      ensures Valid() && State() == Checked(old(State()), r)
    {
      if r.time < lastTime {
        clockSequence := NextRandomClockSequence(clockSequence, r.draw);
      }
      if r.time != lastTime {
        lastTime := r.time;
        clockAdj := 0;
      }
    }

    /** UnsynchronizedTimestampUUIDGenerator.java line 89: false for its IllegalStateException. */
    method AdjustmentOverflow(r: Reading) returns (ok: bool)
      requires Valid() && r.Valid()
      modifies `lastTime, `clockAdj, `clockSequence
      ensures Valid() && State() == Checked(old(State()), r) && (ok <==> State().adj < CLOCK_RES)
    {
      CheckSystemTime(r);
      ok := clockAdj < CLOCK_RES;
    }

    /** UnsynchronizedTimestampUUIDGenerator.java line 101: null for its exception. Until the counter passes CLOCK_RES it
        does not look at the clock. */
    method NextUUID(r: Reading) returns (u: UUID?)
      requires Valid() && r.Valid()
      modifies `lastTime, `clockAdj, `clockSequence
      ensures Valid() && State() == Issue(old(State()), r).0
      ensures u == null <==> Issue(old(State()), r).1 == None
      ensures u != null ==> fresh(u) && u.Valid() && u.Value() == Pack(Issue(old(State()), r).1.value, node[..])
    {
      hide Cast;
      var uniqueTime := Cast((lastTime + EPOCH_OFFSET) * CLOCK_RES + clockAdj, LONGS);
      clockAdj := clockAdj + 1;
      if clockAdj > CLOCK_RES {
        var ok := AdjustmentOverflow(r);
        if !ok {
          return null;
        }
      }
      PackReads(Stamp(uniqueTime, clockSequence), node[..]);
      PackWraps(old(State()).Time(), clockSequence, node[..]);
      u := new UUID(
        Cast(uniqueTime, INTS),
        Cast(uniqueTime / 0x1_0000_0000 % 0x1_0000, SHORTS),
        Cast(Or(0x1000, uniqueTime / 0x1_0000_0000_0000 % 0x1000, 0x1000), SHORTS),
        Cast(clockSequence % 0x100, BYTES),
        Cast(Or(0x80, clockSequence / 0x100 % 0x40, 0x40), BYTES),
        node);
    }
  }

  /** The subclass that reads the clock before every UUID; its superclass is the object `base`. */
  class TimestampUUIDGenerator {
    const base: UnsynchronizedTimestampUUIDGenerator

    constructor (clockSequence: int, bytes: array<int>, r: Reading)
      requires IsSequence(clockSequence) && IsNode(bytes[..]) && r.Valid()
      ensures fresh(base) && fresh(base.node) && base.Valid() && base.node[..] == bytes[..]
      ensures base.State() == Checked(Clock(0, 0, clockSequence), r)
    {
      base := new UnsynchronizedTimestampUUIDGenerator(clockSequence, bytes, r);
    }

    /** TimestampUUIDGenerator.java line 48. */
    method NextUUID(call: Call) returns (u: UUID?)
      requires base.Valid() && call.Valid()
      modifies base`lastTime, base`clockAdj, base`clockSequence
      ensures base.Valid() && base.State() == IssueChecked(old(base.State()), call).0
      ensures u == null <==> IssueChecked(old(base.State()), call).1 == None
      ensures u != null ==> fresh(u) && u.Valid()
      ensures u != null ==> u.Value() == Pack(IssueChecked(old(base.State()), call).1.value, base.node[..])
    {
      base.CheckSystemTime(call.first);
      u := base.NextUUID(call.overflow);
    }
  }
}
