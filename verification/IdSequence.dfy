/** org.maxkey.util.IdSequence: 20-character numbers from the date, a node number, the time and a counter that starts
    again with every second. */
module IdSequences {
  const LIMIT: int := 10000

  /** `yyyyMMddHHmmss`, in the server's time zone. */
  type Second = s: string | |s| == 14 witness seq(14, _ => '0')

  /** The fields OLD_DATETIME and STATIC_SEQUENCE. */
  datatype SequenceState = SequenceState(oldDatetime: string, sequence: int)

  const START := SequenceState("", 0)

  /** IdSequence.java lines 114-117 and 98: what one call makes of the state. */
  function Advance(s: SequenceState, now: Second): SequenceState {
    SequenceState(now, ((if now != s.oldDatetime then 0 else s.sequence) + 1) % LIMIT)
  }

  function DigitChar(n: int): char
    requires 0 <= n < 10
  {
    ('0' as int + n) as char
  }

  /** `String.format("%04d", n)` */
  function FourDigits(n: int): (s: string)
    requires 0 <= n < LIMIT
    ensures |s| == 4
  {
    [DigitChar(n / 1000), DigitChar(n / 100 % 10), DigitChar(n / 10 % 10), DigitChar(n % 10)]
  }

  const DECIMALS: string := "0123456789"

  /** s writes n in decimal digits: its last digit is the remainder by 10, and what stands before it writes the rest. */
  predicate WritesDecimal(s: string, n: int) {
    if s == "" then n == 0
    else 0 <= n && s[|s| - 1] == DECIMALS[n % 10] && WritesDecimal(s[..|s| - 1], n / 10)
  }

  lemma DecimalChar(n: int)
    requires 0 <= n < 10
    ensures DECIMALS[n] == DigitChar(n)
  {
  }

  /** The largest counter is the largest number of four digits. */
  lemma LastCounter()
    ensures FourDigits(LIMIT - 1) == "9999"
  {
  }

  /** Four digits write the number. */
  lemma FourDigitsAre(n: int)
    requires 0 <= n < LIMIT
    ensures |FourDigits(n)| == 4 && WritesDecimal(FourDigits(n), n)
  {
    hide DECIMALS, DigitChar;
    var s := FourDigits(n);
    TenthOf(n, 10);
    TenthOf(n, 100);
    assert n / 10 / 10 == n / 100 && n / 100 / 10 == n / 1000 && n / 1000 / 10 == 0 && n / 1000 % 10 == n / 1000;
    DecimalChar(n % 10);
    DecimalChar(n / 10 % 10);
    DecimalChar(n / 100 % 10);
    DecimalChar(n / 1000);
    assert s[..3] == [s[0], s[1], s[2]] && s[..3][..2] == [s[0], s[1]] && s[..3][..2][..1] == [s[0]];
    assert s[..3][..2][..1][..0] == "";
    assert WritesDecimal("", n / 1000 / 10);
    assert WritesDecimal([s[0]], n / 100 / 10);
    assert WritesDecimal([s[0], s[1]], n / 10 / 10);
    assert WritesDecimal([s[0], s[1], s[2]], n / 10);
  }

  lemma FourDigitsDetermine(m: int, n: int)
    requires 0 <= m < LIMIT && 0 <= n < LIMIT && FourDigits(m) == FourDigits(n)
    ensures m == n
  {
    var s, t := FourDigits(m), FourDigits(n);
    assert s[0] == t[0] && s[1] == t[1] && s[2] == t[2] && s[3] == t[3];
    FromDigits(m);
    FromDigits(n);
  }

  lemma FromDigits(n: int)
    requires 0 <= n < LIMIT
    ensures n == 1000 * (n / 1000) + 100 * (n / 100 % 10) + 10 * (n / 10 % 10) + n % 10
  {
    TenthOf(n, 10);
    TenthOf(n, 100);
  }

  lemma TenthOf(n: int, unit: int)
    requires unit == 10 || unit == 100
    ensures n / unit == 10 * (n / (10 * unit)) + n / unit % 10
  {
    assert n / unit / 10 == n / (10 * unit);
  }

  /** IdSequence.java lines 48-51. */
  function IdOf(now: Second, node: string, sequence: int): (id: string)
    requires 0 <= sequence < LIMIT
    ensures |id| == 18 + |node|
  {
    now[..8] + node + now[8..] + FourDigits(sequence)
  }

  /** The parts of an id, in order: the date, the node number, the time of day, and the counter. */
  lemma IdParts(now: Second, node: string, sequence: int)
    requires 0 <= sequence < LIMIT
    ensures var id, k := IdOf(now, node, sequence), |node|;
      && |id| == 18 + k && id[..8] == now[..8] && id[8..8 + k] == node && id[8 + k..14 + k] == now[8..14]
      && WritesDecimal(id[14 + k..], sequence)
  {
    hide WritesDecimal;
    FourDigitsAre(sequence);
    assert IdOf(now, node, sequence)[14 + |node|..] == FourDigits(sequence);
  }

  /** An id tells the second and the counter. */
  lemma IdDetermines(now: Second, sequence: int, now': Second, sequence': int, node: string)
    requires 0 <= sequence < LIMIT && 0 <= sequence' < LIMIT && IdOf(now, node, sequence) == IdOf(now', node, sequence')
    ensures now == now' && sequence == sequence'
  {
    var s, t, k := IdOf(now, node, sequence), IdOf(now', node, sequence'), 8 + |node|;
    assert s[..8] == now[..8] && t[..8] == now'[..8];
    assert s[k..k + 6] == now[8..] && t[k..k + 6] == now'[8..];
    assert s[k + 6..] == FourDigits(sequence) && t[k + 6..] == FourDigits(sequence');
    assert now == now[..8] + now[8..] && now' == now'[..8] + now'[8..];
    FourDigitsDetermine(sequence, sequence');
  }

  class IdSequence {
    var oldDatetime: string
    var staticSequence: int
    const nodeNumber: string

    /** nodeNumber is what getNodeNumber finds in the configuration, by default "01". */
    constructor (nodeNumber: string)
      ensures Current() == START && this.nodeNumber == nodeNumber
    {
      oldDatetime, staticSequence := "", 0;
      this.nodeNumber := nodeNumber;
    }

    ghost function Current(): SequenceState
      reads this
    {
      SequenceState(oldDatetime, staticSequence)
    }

    /** IdSequence.java line 106. */
    method GetCurrentSystemDateTime(now: Second)
      modifies this
      ensures oldDatetime == now && staticSequence == if now != old(oldDatetime) then 0 else old(staticSequence)
    {
      if now != oldDatetime {
        staticSequence := 0;
        oldDatetime := now;
      }
    }

    /** IdSequence.java line 97. */
    method NextSequence() returns (s: string)
      requires staticSequence >= 0
      modifies `staticSequence
      ensures staticSequence == (old(staticSequence) + 1) % LIMIT && s == FourDigits(staticSequence)
    {
      staticSequence := (staticSequence + 1) % 10000;
      s := FourDigits(staticSequence);
    }

    /** IdSequence.java line 38. */
    method Next(now: Second) returns (id: string)
      requires staticSequence >= 0
      modifies this
      ensures staticSequence >= 0 && Current() == Advance(old(Current()), now) && id == IdOf(now, nodeNumber, Current().sequence)
    {
      GetCurrentSystemDateTime(now);
      id := now[0..8];
      id := id + nodeNumber;
      id := id + now[8..];
      var s := NextSequence();
      id := id + s;
    }
  }

  /** The state after one call at each of the times. */
  function StateAfter(clock: seq<Second>): SequenceState {
    if clock == [] then START else Advance(StateAfter(clock[..|clock| - 1]), clock[|clock| - 1])
  }

  /** Call i is the n-th in a row that reads this second. */
  function Ordinal(clock: seq<Second>, i: nat): (n: int)
    requires i < |clock|
    ensures n >= 1
  {
    if i > 0 && clock[i - 1] == clock[i] then Ordinal(clock, i - 1) + 1 else 1
  }

  lemma {:induction false} OrdinalPrefix(clock: seq<Second>, i: nat, k: nat)
    requires i < k <= |clock|
    ensures Ordinal(clock[..k], i) == Ordinal(clock, i)
  {
    if i > 0 {
      OrdinalPrefix(clock, i - 1, k);
    }
  }

  /** The counter is the ordinal modulo 10000. */
  lemma {:induction false} CounterIs(clock: seq<Second>)
    requires clock != []
    ensures StateAfter(clock) == SequenceState(clock[|clock| - 1], Ordinal(clock, |clock| - 1) % LIMIT)
  {
    var n := |clock| - 1;
    var before := clock[..n];
    if n > 0 {
      CounterIs(before);
      OrdinalPrefix(clock, n - 1, n);
    }
  }

  /** The id of call i. */
  function Id(clock: seq<Second>, node: string, i: nat): string
    requires i < |clock|
  {
    IdOf(clock[i], node, Ordinal(clock, i) % LIMIT)
  }

  /** It is the id that the state after call i gives. */
  lemma IdIsDrawn(clock: seq<Second>, node: string, i: nat)
    requires i < |clock|
    ensures var s := StateAfter(clock[..i + 1]);
      && 0 <= s.sequence < LIMIT && s == Advance(StateAfter(clock[..i]), clock[i])
      && Id(clock, node, i) == IdOf(clock[i], node, s.sequence)
  {
    var run := clock[..i + 1];
    assert run[..|run| - 1] == clock[..i] && run[|run| - 1] == clock[i];
    CounterIs(run);
    OrdinalPrefix(clock, i, i + 1);
  }

  /** No second is read again after another one. */
  ghost predicate NeverReturns(clock: seq<Second>) {
    forall i, j, k :: 0 <= i <= j <= k < |clock| && clock[i] == clock[k] ==> clock[j] == clock[i]
  }

  lemma {:induction false} OrdinalsRise(clock: seq<Second>, i: nat, j: nat)
    requires i <= j < |clock| && NeverReturns(clock) && clock[i] == clock[j]
    ensures Ordinal(clock, j) == Ordinal(clock, i) + (j - i)
  {
    if i < j {
      assert clock[j - 1] == clock[i];
      OrdinalsRise(clock, i, j - 1);
    }
  }

  /** The first call of the second that call i reads. */
  lemma {:induction false} SecondStarts(clock: seq<Second>, i: nat) returns (first: nat)
    requires i < |clock|
    ensures first <= i && clock[first] == clock[i] && Ordinal(clock, first) == 1 && Ordinal(clock, i) == i - first + 1
    ensures (forall j :: first <= j <= i ==> clock[j] == clock[i]) && (first > 0 ==> clock[first - 1] != clock[first])
  {
    if Ordinal(clock, i) == 1 {
      first := i;
    } else {
      first := SecondStarts(clock, i - 1);
    }
  }

  ghost predicate NoIdTwice(clock: seq<Second>, node: string) {
    forall i, j :: 0 <= i < j < |clock| ==> Id(clock, node, i) != Id(clock, node, j)
  }

  ghost predicate WithinLimit(clock: seq<Second>) {
    forall i :: 0 <= i < |clock| ==> Ordinal(clock, i) <= LIMIT
  }

  /** Two calls draw the same id exactly if they read the same second and their counters agree. */
  lemma SameId(clock: seq<Second>, node: string, i: nat, j: nat)
    requires i < |clock| && j < |clock|
    ensures Id(clock, node, i) == Id(clock, node, j) <==>
      clock[i] == clock[j] && Ordinal(clock, i) % LIMIT == Ordinal(clock, j) % LIMIT
  {
    hide IdOf, Ordinal;
    if Id(clock, node, i) == Id(clock, node, j) {
      IdDetermines(clock[i], Ordinal(clock, i) % LIMIT, clock[j], Ordinal(clock, j) % LIMIT, node);
    }
  }

  lemma NoRepeat(clock: seq<Second>, node: string, i: nat, j: nat)
    requires i < j < |clock| && NeverReturns(clock) && WithinLimit(clock)
    ensures Id(clock, node, i) != Id(clock, node, j)
  {
    hide Id, Ordinal, NeverReturns;
    SameId(clock, node, i, j);
    if clock[i] == clock[j] {
      OrdinalsRise(clock, i, j);
    }
  }

  lemma Repeat(clock: seq<Second>, node: string, i: nat)
    requires i < |clock| && Ordinal(clock, i) > LIMIT && NeverReturns(clock)
    ensures !NoIdTwice(clock, node)
  {
    hide Id, Ordinal;
    var first := SecondStarts(clock, i);
    var again := first + LIMIT;
    assert clock[again] == clock[first];
    OrdinalsRise(clock, first, again);
    SameId(clock, node, first, again);
    assert Id(clock, node, first) == Id(clock, node, again);
  }

  /** A second that is read again after another one starts again from its first id. */
  lemma Returned(clock: seq<Second>, node: string, i: nat, j: nat, k: nat)
    requires i < j < k < |clock| && clock[i] == clock[k] && clock[j] != clock[i]
    ensures !NoIdTwice(clock, node)
  {
    hide Id, Ordinal;
    var first := SecondStarts(clock, i);
    var again := StartsAfter(clock, j, k);
    SameId(clock, node, first, again);
    assert Id(clock, node, first) == Id(clock, node, again);
  }

  /** The start of the second that call k reads, after call j read another one. */
  lemma {:induction false} StartsAfter(clock: seq<Second>, j: nat, k: nat) returns (first: nat)
    requires j < k < |clock| && clock[j] != clock[k]
    ensures j < first <= k && clock[first] == clock[k] && Ordinal(clock, first) == 1
  {
    if clock[k - 1] == clock[k] {
      first := StartsAfter(clock, j, k - 1);
    } else {
      first := k;
    }
  }

  /** On every clock: no id is drawn twice exactly if the clock never returns to an earlier second and no second draws
      more than 10000 ids. The counter runs 1, ..., 9999, 0. */
  lemma IdsAreUnique(clock: seq<Second>, node: string)
    ensures NoIdTwice(clock, node) <==> NeverReturns(clock) && WithinLimit(clock)
  {
    if !NeverReturns(clock) {
      var i, j, k :| 0 <= i <= j <= k < |clock| && clock[i] == clock[k] && clock[j] != clock[i];
      Returned(clock, node, i, j, k);
    } else if !WithinLimit(clock) {
      var i :| 0 <= i < |clock| && Ordinal(clock, i) > LIMIT;
      Repeat(clock, node, i);
    } else {
      forall i, j | 0 <= i < j < |clock|
        ensures Id(clock, node, i) != Id(clock, node, j)
      {
        NoRepeat(clock, node, i, j);
      }
    }
  }

  /** The shortest clock that returns, as the local time of day does once a year: the id of the first call again. */
  lemma ReturningClockRepeats(a: Second, b: Second, node: string)
    requires a != b
    ensures var clock := [a, b, a]; Id(clock, node, 0) == Id(clock, node, 2)
  {
    var clock := [a, b, a];
    assert Ordinal(clock, 0) == 1 && Ordinal(clock, 2) == 1;
  }

  /** 20 characters for a node number of two. */
  lemma IdLength(clock: seq<Second>, node: string, i: nat)
    requires i < |clock|
    ensures |Id(clock, node, i)| == 20 <==> |node| == 2
  {
  }
}
