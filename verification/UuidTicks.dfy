/** Runs of the synchronized generator on a clock that may tick inside a call, between its two readings. The counter can
    then run past CLOCK_RES, and a UUID can carry a timestamp that belongs to a later millisecond. */
module UuidTicks {
  import opened Options
  import opened Uuids
  import opened UuidRuns
  import opened UuidTimestamp

  /** The clock never goes back, neither between calls nor inside one. */
  predicate Advancing(last: int, calls: seq<Call>)
    decreases |calls|
  {
    calls == [] || (
      && calls[0].Valid() && last <= calls[0].first.time <= calls[0].overflow.time
      && Advancing(calls[0].overflow.time, calls[1..]))
  }

  lemma {:induction false} AdvancingValid(last: int, calls: seq<Call>)
    requires Advancing(last, calls)
    ensures AllValid(calls)
    decreases |calls|
  {
    if calls != [] {
      AdvancingValid(calls[0].overflow.time, calls[1..]);
      assert forall k :: 0 < k < |calls| ==> calls[k] == calls[1..][k - 1];
    }
  }

  lemma {:induction false} AdvancingFrom(last: int, last': int, calls: seq<Call>)
    requires Advancing(last, calls) && last' <= last
    ensures Advancing(last', calls)
  {
  }

  /** What the counter stands at when call k has read the clock for the first time: the number of calls before it in
      the same millisecond, those that threw included. */
  function Counter(c: Clock, calls: seq<Call>, k: nat): (n: int)
    requires c.Valid() && k < |calls|
    ensures n >= 0
  {
    if k == 0 then if calls[0].first.time == c.lastTime then c.adj else 0
    else if calls[k].first.time == calls[k - 1].first.time then Counter(c, calls, k - 1) + 1
    else 0
  }

  /** The clock ticks inside call k when the counter is used up. */
  predicate Overdrawn(c: Clock, calls: seq<Call>, k: nat)
    requires c.Valid() && k < |calls|
  {
    Counter(c, calls, k) >= CLOCK_RES && calls[k].overflow.time > calls[k].first.time
  }

  /** Call k does not throw. */
  predicate Issues(c: Clock, calls: seq<Call>, k: nat)
    requires c.Valid() && k < |calls|
  {
    Counter(c, calls, k) < CLOCK_RES || Overdrawn(c, calls, k)
  }

  /** The timestamp of call k, if it does not throw. */
  function TimeAt(c: Clock, calls: seq<Call>, k: nat): int
    requires c.Valid() && k < |calls|
  {
    (calls[k].first.time + EPOCH_OFFSET) * CLOCK_RES + Counter(c, calls, k)
  }

  /** One call, in terms of the counter. */
  lemma OneTick(c: Clock, calls: seq<Call>)
    requires c.Valid() && calls != [] && Advancing(c.lastTime, calls)
    ensures var (c', s) := IssueChecked(c, calls[0]);
      && Advancing(c'.lastTime, calls[1..]) && c'.sequence == c.sequence && Floor(c) <= Floor(c')
      && (s.Some? <==> Issues(c, calls, 0))
      && (s.Some? ==> s == Some(Stamp(TimeAt(c, calls, 0), c.sequence)) && Floor(c) <= TimeAt(c, calls, 0))
      && (s.Some? && !Overdrawn(c, calls, 0) ==> TimeAt(c, calls, 0) < Floor(c'))
  {
    var c' := IssueChecked(c, calls[0]).0;
    AdvancingFrom(calls[0].overflow.time, c'.lastTime, calls[1..]);
  }

  lemma FirstCounter(c: Clock, calls: seq<Call>)
    requires c.Valid() && |calls| > 1 && Advancing(c.lastTime, calls)
    ensures Counter(IssueChecked(c, calls[0]).0, calls[1..], 0) == Counter(c, calls, 1)
    ensures Overdrawn(c, calls, 0) ==> Counter(c, calls, 1) == 0
  {
    assert calls[1..][0] == calls[1];
  }

  /** The counters after the first call are those of a run that begins there. */
  lemma {:induction false} CounterLater(c: Clock, calls: seq<Call>, k: nat)
    requires c.Valid() && k + 1 < |calls| && Advancing(c.lastTime, calls)
    ensures Counter(IssueChecked(c, calls[0]).0, calls[1..], k) == Counter(c, calls, k + 1)
  {
    FirstCounter(c, calls);
    if k > 0 {
      hide IssueChecked, Advancing;
      CounterLater(c, calls, k - 1);
      assert calls[1..][k] == calls[k + 1] && calls[1..][k - 1] == calls[k];
    }
  }

  lemma CallLater(c: Clock, calls: seq<Call>, k: nat)
    requires c.Valid() && k + 1 < |calls| && Advancing(c.lastTime, calls)
    ensures var c' := IssueChecked(c, calls[0]).0;
      && (Issues(c', calls[1..], k) <==> Issues(c, calls, k + 1)) && TimeAt(c', calls[1..], k) == TimeAt(c, calls, k + 1)
      && (Overdrawn(c', calls[1..], k) <==> Overdrawn(c, calls, k + 1)) && calls[1..][k] == calls[k + 1]
  {
    hide IssueChecked, Advancing, Counter;
    CounterLater(c, calls, k);
  }

  /** Whenever the clock ticks inside a call, the next call finds it further on than the counter had run ahead. */
  ghost predicate Caught(c: Clock, calls: seq<Call>)
    requires c.Valid()
  {
    forall k :: 0 <= k < |calls| - 1 && Overdrawn(c, calls, k) ==>
      (calls[k + 1].first.time - calls[k].first.time) * CLOCK_RES > Counter(c, calls, k)
  }

  /** No later call has the timestamp of a call in which the clock ticked. */
  ghost predicate NeverReached(c: Clock, calls: seq<Call>)
    requires c.Valid()
  {
    forall p, q :: 0 <= p < q < |calls| && Overdrawn(c, calls, p) && Issues(c, calls, q) ==>
      (calls[q].first.time - calls[p].first.time) * CLOCK_RES + Counter(c, calls, q) != Counter(c, calls, p)
  }

  lemma CaughtLater(c: Clock, calls: seq<Call>)
    requires c.Valid() && calls != [] && Advancing(c.lastTime, calls)
    ensures Caught(c, calls) <==>
      && Caught(IssueChecked(c, calls[0]).0, calls[1..])
      && (|calls| > 1 && Overdrawn(c, calls, 0) ==> TimeAt(c, calls, 0) < TimeAt(c, calls, 1))
  {
    hide IssueChecked, Advancing, Counter, Overdrawn, Issues;
    AdvancingValid(c.lastTime, calls);
    var c', rest := IssueChecked(c, calls[0]).0, calls[1..];
    forall k | 0 <= k < |rest|
      ensures (Overdrawn(c', rest, k) <==> Overdrawn(c, calls, k + 1)) && Counter(c', rest, k) == Counter(c, calls, k + 1)
      ensures rest[k] == calls[k + 1]
    {
      CallLater(c, calls, k);
      CounterLater(c, calls, k);
    }
    if |calls| > 1 && Overdrawn(c, calls, 0) {
      FirstCounter(c, calls);
    }
    if Caught(c', rest) {
      forall k | 0 < k < |calls| - 1 && Overdrawn(c, calls, k)
        ensures (calls[k + 1].first.time - calls[k].first.time) * CLOCK_RES > Counter(c, calls, k)
      {
        assert Overdrawn(c', rest, k - 1);
        assert rest[k] == calls[k + 1];
      }
    }
    if Caught(c, calls) {
      forall k | 0 <= k < |rest| - 1 && Overdrawn(c', rest, k)
        ensures (rest[k + 1].first.time - rest[k].first.time) * CLOCK_RES > Counter(c', rest, k)
      {
        assert Overdrawn(c, calls, k + 1);
        assert rest[k + 1] == calls[k + 2];
      }
    }
  }

  /** A call that does not throw has the timestamp t. */
  ghost predicate IssuedAt(c: Clock, calls: seq<Call>, t: int)
    requires c.Valid()
  {
    exists k: nat :: k < |calls| && Issues(c, calls, k) && TimeAt(c, calls, k) == t
  }

  lemma IssuedLater(c: Clock, calls: seq<Call>, t: int)
    requires c.Valid() && calls != [] && Advancing(c.lastTime, calls)
    ensures IssuedAt(c, calls, t) <==>
      (Issues(c, calls, 0) && TimeAt(c, calls, 0) == t) || IssuedAt(IssueChecked(c, calls[0]).0, calls[1..], t)
  {
    AdvancingValid(c.lastTime, calls);
    hide IssueChecked, Advancing, Counter, Issues, TimeAt;
    var c', rest := IssueChecked(c, calls[0]).0, calls[1..];
    forall k: nat | k < |rest|
      ensures (Issues(c', rest, k) <==> Issues(c, calls, k + 1)) && TimeAt(c', rest, k) == TimeAt(c, calls, k + 1)
    {
      CallLater(c, calls, k);
    }
    if IssuedAt(c, calls, t) {
      var k: nat :| k < |calls| && Issues(c, calls, k) && TimeAt(c, calls, k) == t;
      assert k > 0 ==> Issues(c', rest, k - 1) && TimeAt(c', rest, k - 1) == t;
    }
    if IssuedAt(c', rest, t) {
      var k: nat :| k < |rest| && Issues(c', rest, k) && TimeAt(c', rest, k) == t;
      assert Issues(c, calls, k + 1) && TimeAt(c, calls, k + 1) == t;
    }
  }

  lemma TimesAgree(c: Clock, calls: seq<Call>, p: nat, q: nat)
    requires c.Valid() && p < |calls| && q < |calls|
    ensures (calls[q].first.time - calls[p].first.time) * CLOCK_RES + Counter(c, calls, q) == Counter(c, calls, p)
      <==> TimeAt(c, calls, q) == TimeAt(c, calls, p)
  {
    hide Counter;
  }

  lemma NeverReachedLater(c: Clock, calls: seq<Call>)
    requires c.Valid() && calls != [] && Advancing(c.lastTime, calls)
    ensures NeverReached(c, calls) <==>
      && NeverReached(IssueChecked(c, calls[0]).0, calls[1..])
      && (Overdrawn(c, calls, 0) ==> !IssuedAt(IssueChecked(c, calls[0]).0, calls[1..], TimeAt(c, calls, 0)))
  {
    AdvancingValid(c.lastTime, calls);
    hide IssueChecked, Advancing, Counter, Overdrawn, Issues, TimeAt;
    var c', rest := IssueChecked(c, calls[0]).0, calls[1..];
    forall k: nat | k < |rest|
      ensures (Overdrawn(c', rest, k) <==> Overdrawn(c, calls, k + 1)) && (Issues(c', rest, k) <==> Issues(c, calls, k + 1))
      ensures TimeAt(c', rest, k) == TimeAt(c, calls, k + 1)
    {
      CallLater(c, calls, k);
    }
    NeverReachedTimes(c, calls);
    NeverReachedTimes(c', rest);
    if NoneMeets(c', rest) && (Overdrawn(c, calls, 0) ==> !IssuedAt(c', rest, TimeAt(c, calls, 0))) {
      forall p: nat, q: nat | p < q < |calls| && Overdrawn(c, calls, p) && Issues(c, calls, q)
        ensures TimeAt(c, calls, q) != TimeAt(c, calls, p)
      {
        assert Issues(c', rest, q - 1);
        assert p > 0 ==> Overdrawn(c', rest, p - 1);
      }
    }
    if NoneMeets(c, calls) {
      forall p: nat, q: nat | p < q < |rest| && Overdrawn(c', rest, p) && Issues(c', rest, q)
        ensures TimeAt(c', rest, q) != TimeAt(c', rest, p)
      {
        assert Overdrawn(c, calls, p + 1) && Issues(c, calls, q + 1);
      }
      forall k: nat | k < |rest| && Overdrawn(c, calls, 0) && Issues(c', rest, k)
        ensures TimeAt(c', rest, k) != TimeAt(c, calls, 0)
      {
        assert Issues(c, calls, k + 1);
      }
    }
  }

  /** NeverReached, in terms of timestamps. */
  ghost predicate NoneMeets(c: Clock, calls: seq<Call>)
    requires c.Valid()
  {
    forall p: nat, q: nat :: p < q < |calls| && Overdrawn(c, calls, p) && Issues(c, calls, q) ==>
      TimeAt(c, calls, q) != TimeAt(c, calls, p)
  }

  lemma NeverReachedTimes(c: Clock, calls: seq<Call>)
    requires c.Valid()
    ensures NeverReached(c, calls) <==> NoneMeets(c, calls)
  {
    hide Counter, Overdrawn, Issues, TimeAt;
    forall p: nat, q: nat | p < q < |calls|
      ensures (calls[q].first.time - calls[p].first.time) * CLOCK_RES + Counter(c, calls, q) == Counter(c, calls, p)
        <==> TimeAt(c, calls, q) == TimeAt(c, calls, p)
    {
      TimesAgree(c, calls, p, q);
    }
  }

  /** The timestamps of a run. */
  function TimesOf(s: seq<Stamp>): (t: seq<int>)
    ensures |t| == |s| && forall i :: 0 <= i < |s| ==> t[i] == s[i].time
  {
    seq(|s|, i requires 0 <= i < |s| => s[i].time)
  }

  lemma TimesOfListed(s: Option<Stamp>, rest: seq<Stamp>)
    ensures TimesOf(Listed(s) + rest) == (if s.Some? then [s.value.time] else []) + TimesOf(rest)
  {
  }

  /** A run issues the timestamps of its calls, all with one clock sequence and none below the floor. */
  lemma {:induction false} StampsAre(c: Clock, calls: seq<Call>)
    requires c.Valid() && Advancing(c.lastTime, calls)
    ensures AllValid(calls)
    ensures forall t :: t in TimesOf(Stamps(c, calls)) <==> IssuedAt(c, calls, t)
    ensures forall s :: s in Stamps(c, calls) ==> s.sequence == c.sequence
    ensures forall t :: t in TimesOf(Stamps(c, calls)) ==> t >= Floor(c)
    decreases |calls|
  {
    AdvancingValid(c.lastTime, calls);
    if calls != [] {
      OneTick(c, calls);
      var (c', s) := IssueChecked(c, calls[0]);
      var rest := Stamps(c', calls[1..]);
      assert Stamps(c, calls) == Listed(s) + rest;
      hide IssueChecked, Stamps, Issues, TimeAt, Overdrawn, Advancing, Floor, IssuedAt, TimesOf;
      StampsAre(c', calls[1..]);
      TimesOfListed(s, rest);
      forall t
        ensures t in TimesOf(Listed(s) + rest) <==> IssuedAt(c, calls, t)
      {
        IssuedLater(c, calls, t);
      }
    }
  }

  ghost predicate NoTimeTwice(t: seq<int>) { forall i, j :: 0 <= i < j < |t| ==> t[i] != t[j] }

  lemma NoTimeTwiceCons(x: int, t: seq<int>)
    ensures NoTimeTwice([x] + t) <==> x !in t && NoTimeTwice(t)
  {
    var s := [x] + t;
    if NoTimeTwice(s) {
      forall i | 0 <= i < |t|
        ensures s[0] != t[i]
      {
        assert t[i] == s[i + 1];
      }
      assert forall i :: 0 <= i < |t| ==> t[i] == s[i + 1];
    }
  }

  /** On every clock that does not go back, no timestamp is issued twice exactly if none that was drawn in advance is
      reached by a later call. */
  lemma {:induction false} TimesDiffer(c: Clock, calls: seq<Call>)
    requires c.Valid() && Advancing(c.lastTime, calls)
    ensures AllValid(calls) && (NoTimeTwice(TimesOf(Stamps(c, calls))) <==> NeverReached(c, calls))
    decreases |calls|
  {
    AdvancingValid(c.lastTime, calls);
    if calls != [] {
      OneTick(c, calls);
      var (c', s) := IssueChecked(c, calls[0]);
      var rest := Stamps(c', calls[1..]);
      assert Stamps(c, calls) == Listed(s) + rest;
      hide IssueChecked, Stamps, TimeAt, Advancing, Floor, IssuedAt, TimesOf, NoTimeTwice, NeverReached, Counter, Overdrawn;
      TimesDiffer(c', calls[1..]);
      StampsAre(c', calls[1..]);
      TimesOfListed(s, rest);
      NeverReachedLater(c, calls);
      if s.Some? {
        NoTimeTwiceCons(s.value.time, TimesOf(rest));
      } else {
        assert [] + TimesOf(rest) == TimesOf(rest);
      }
    }
  }

  lemma SortedFirst(x: int, t: seq<int>)
    ensures Sorted([x] + t) <==> (t != [] ==> x < t[0]) && Sorted(t)
  {
    if t == [] {
      assert [x] + t == [x];
    } else {
      SortedCons(x, t);
    }
  }

  lemma FirstStamp(c: Clock, calls: seq<Call>)
    requires c.Valid() && calls != [] && Advancing(c.lastTime, calls) && Issues(c, calls, 0)
    ensures AllValid(calls) && TimesOf(Stamps(c, calls)) != [] && TimesOf(Stamps(c, calls))[0] == TimeAt(c, calls, 0)
  {
    AdvancingValid(c.lastTime, calls);
    OneTick(c, calls);
  }

  /** What follows the first call comes after it, exactly if the second call catches up with a timestamp drawn in advance. */
  lemma FirstIsLeast(c: Clock, calls: seq<Call>)
    requires c.Valid() && calls != [] && Advancing(c.lastTime, calls) && Issues(c, calls, 0)
    ensures AllValid(calls[1..])
    ensures var rest := TimesOf(Stamps(IssueChecked(c, calls[0]).0, calls[1..]));
      (rest != [] ==> TimeAt(c, calls, 0) < rest[0]) <==>
      (|calls| > 1 && Overdrawn(c, calls, 0) ==> TimeAt(c, calls, 0) < TimeAt(c, calls, 1))
  {
    AdvancingValid(c.lastTime, calls);
    OneTick(c, calls);
    var c' := IssueChecked(c, calls[0]).0;
    hide IssueChecked, Floor, Counter, Advancing, TimeAt, Stamps, TimesOf;
    StampsAre(c', calls[1..]);
    if |calls| > 1 {
      FirstCounter(c, calls);
      CallLater(c, calls, 0);
      if Overdrawn(c, calls, 0) {
        FirstStamp(c', calls[1..]);
      }
    } else {
      NoStamps(c');
    }
  }

  lemma NoStamps(c: Clock)
    requires c.Valid()
    ensures TimesOf(Stamps(c, [])) == []
  {
  }

  /** On every clock that does not go back, timestamps strictly rise exactly if, whenever the clock ticked inside a call,
      the next call finds it further on than the counter had run ahead. */
  lemma {:induction false} TimesRise(c: Clock, calls: seq<Call>)
    requires c.Valid() && Advancing(c.lastTime, calls)
    ensures AllValid(calls) && (Sorted(TimesOf(Stamps(c, calls))) <==> Caught(c, calls))
    decreases |calls|
  {
    AdvancingValid(c.lastTime, calls);
    if calls != [] {
      OneTick(c, calls);
      var (c', s) := IssueChecked(c, calls[0]);
      var rest := Stamps(c', calls[1..]);
      assert Stamps(c, calls) == Listed(s) + rest;
      hide IssueChecked, Stamps, TimeAt, Advancing, Floor, TimesOf, Sorted, Caught, Counter, Overdrawn;
      TimesRise(c', calls[1..]);
      TimesOfListed(s, rest);
      CaughtLater(c, calls);
      if s.Some? {
        FirstIsLeast(c, calls);
        SortedFirst(s.value.time, TimesOf(rest));
      } else {
        assert [] + TimesOf(rest) == TimesOf(rest);
      }
    }
  }

  /** No two timestamps that differ agree in their low 60 bits. */
  ghost predicate Apart(s: seq<Stamp>) {
    forall x, y :: x in s && y in s && x.time % STAMPS == y.time % STAMPS ==> x.time == y.time
  }

  /** Timestamps are apart if they lie within 3653 years of each other, whatever the first one is. */
  lemma ApartWithin(s: seq<Stamp>, lo: int)
    requires forall x :: x in s ==> lo <= x.time < lo + STAMPS
    ensures Apart(s)
  {
    forall x, y | x in s && y in s && x.time % STAMPS == y.time % STAMPS
      ensures x.time == y.time
    {
      NearAndSame(x.time, y.time);
    }
  }

  lemma NearAndSame(x: int, y: int)
    requires x % STAMPS == y % STAMPS && -STAMPS < x - y < STAMPS
    ensures x == y
  {
  }

  lemma SameStamps(s: seq<Stamp>, sequence: int, node: seq<int>)
    requires IsNode(node) && (forall x :: x in s ==> x.sequence == sequence) && IsSequence(sequence)
    ensures AreStamps(s) && (AllDistinct(s, node) <==> NoTimeTwice(TimesOf(s)) && Apart(s))
  {
    hide Pack;
    assert forall i :: 0 <= i < |s| ==> s[i] in s;
    forall i, j | 0 <= i < j < |s|
      ensures Pack(s[i], node) == Pack(s[j], node) <==> s[i].time % STAMPS == s[j].time % STAMPS
    {
      PackAgrees(s[i], s[j], node);
    }
    if AllDistinct(s, node) {
      assert forall i, j :: 0 <= i < j < |s| ==> s[i].time % STAMPS != s[j].time % STAMPS;
      forall x, y | x in s && y in s && x.time % STAMPS == y.time % STAMPS
        ensures x.time == y.time
      {
        var i :| 0 <= i < |s| && s[i] == x;
        var j :| 0 <= j < |s| && s[j] == y;
      }
    }
  }

  /** No UUID is issued twice on a clock that does not go back, exactly if no timestamp drawn in advance is reached and
      the timestamps of the run are apart. */
  lemma RunIsUniqueIf(c: Clock, calls: seq<Call>, node: seq<int>)
    requires c.Valid() && Advancing(c.lastTime, calls) && IsNode(node)
    ensures AllValid(calls) && AreStamps(Stamps(c, calls))
    ensures AllDistinct(Stamps(c, calls), node) <==> NeverReached(c, calls) && Apart(Stamps(c, calls))
  {
    StampsAre(c, calls);
    TimesDiffer(c, calls);
    SameStamps(Stamps(c, calls), c.sequence, node);
  }

  /** The same if the clock goes back once, between the runs a and b: the parts have different clock sequences. */
  lemma StepBackIsUniqueIf(c: Clock, a: seq<Call>, b: seq<Call>, node: seq<int>)
    requires c.Valid() && Advancing(c.lastTime, a) && AllValid(a) && IsNode(node)
    requires b != [] && b[0].first.time < After(c, a).lastTime && Advancing(b[0].first.time, b) && AllValid(b)
    ensures AllValid(a + b) && AreStamps(Stamps(c, a + b))
    ensures var c' := Checked(After(c, a), b[0].first);
      AllDistinct(Stamps(c, a + b), node) <==>
      NeverReached(c, a) && Apart(Stamps(c, a)) && NeverReached(c', b) && Apart(Stamps(c', b))
  {
    hide Stamps, After, Checked, AllDistinct, AreStamps, Advancing, NeverReached, Apart;
    var c1 := After(c, a);
    var c2 := Checked(c1, b[0].first);
    NewEra(c1, b);
    StampsJoin(c, a, b);
    SequenceStays(c, a);
    StampsAre(c, a);
    StampsAre(c2, b);
    RunIsUniqueIf(c, a, node);
    RunIsUniqueIf(c2, b, node);
    ErasJoin(Stamps(c, a), Stamps(c2, b), c.sequence, c2.sequence, node);
  }

  /** And if it goes back inside call x, between its two readings. That call carries its first reading with the new clock
      sequence, so that its timestamp is drawn in advance as well: b must not reach it. */
  lemma StepInsideCallIsUniqueIf(c: Clock, a: seq<Call>, x: Call, b: seq<Call>, node: seq<int>)
    requires c.Valid() && Advancing(c.lastTime, a) && AllValid(a) && IsNode(node) && x.Valid()
    requires After(c, a).lastTime <= x.first.time && x.overflow.time < x.first.time
    requires Checked(After(c, a), x.first).adj >= CLOCK_RES && Advancing(x.overflow.time, b)
    ensures AllValid(b) && AllValid([x] + b) && AllValid(a + ([x] + b)) && AreStamps(Stamps(c, a + ([x] + b)))
    ensures var c' := IssueChecked(After(c, a), x).0;
      AllDistinct(Stamps(c, a + ([x] + b)), node) <==>
      && NeverReached(c, a) && Apart(Stamps(c, a))
      && NeverReached(c', b) && !IssuedAt(c', b, Checked(After(c, a), x.first).Time())
      && Apart(Stamps(After(c, a), [x] + b))
  {
    hide Stamps, After, AllDistinct, AreStamps, Advancing, NeverReached, Apart, IssuedAt, TimesOf, NoTimeTwice, Counter;
    var c1 := After(c, a);
    SequenceStays(c, a);
    var (c2, s) := IssueChecked(c1, x);
    var t := Checked(c1, x.first).Time();
    assert c2.lastTime == x.overflow.time && c2.sequence != c.sequence && s == Some(Stamp(t, c2.sequence));
    hide IssueChecked, Checked;
    AdvancingValid(c2.lastTime, b);
    StampsCons(c1, x, b);
    StampsJoin(c, a, [x] + b);
    StampsAre(c, a);
    StampsAre(c2, b);
    TimesDiffer(c2, b);
    RunIsUniqueIf(c, a, node);
    var rest := Stamps(c1, [x] + b);
    assert rest == [s.value] + Stamps(c2, b);
    SameStamps(rest, c2.sequence, node);
    TimesOfListed(s, Stamps(c2, b));
    NoTimeTwiceCons(t, TimesOf(Stamps(c2, b)));
    ErasJoin(Stamps(c, a), rest, c.sequence, c2.sequence, node);
  }

  /** The smallest such step: the clock shows the millisecond before, and then the one after. */
  lemma StepInsideCall(c: Clock, a: Reading, b: Reading, d: Reading)
    requires c.Valid() && a.Valid() && b.Valid() && d.Valid() && c.adj == CLOCK_RES
    requires a.time == c.lastTime && b.time == c.lastTime - 1 && d.time == c.lastTime + 1
    ensures var s := Stamps(c, [Call(a, b), Call(d, d)]); |s| == 2 && s[0] == s[1]
  {
    var c1 := IssueChecked(c, Call(a, b)).0;
    assert IssueChecked(c, Call(a, b)).1 == Some(Stamp(c.Time(), c1.sequence));
    assert IssueChecked(c1, Call(d, d)).1 == Some(Stamp(c.Time(), c1.sequence));
    hide IssueChecked, Stamps;
    StampsCons(c1, Call(d, d), []);
    StampsCons(c, Call(a, b), [Call(d, d)]);
    NoStamps(IssueChecked(c1, Call(d, d)).0);
  }

  lemma {:induction false} SequenceStays(c: Clock, calls: seq<Call>)
    requires c.Valid() && Advancing(c.lastTime, calls) && AllValid(calls)
    ensures After(c, calls).sequence == c.sequence
    decreases |calls|
  {
    if calls != [] {
      OneTick(c, calls);
      var c' := IssueChecked(c, calls[0]).0;
      hide IssueChecked, Advancing;
      SequenceStays(c', calls[1..]);
    }
  }

  lemma ErasJoin(s: seq<Stamp>, t: seq<Stamp>, sequence: int, sequence': int, node: seq<int>)
    requires AreStamps(s) && AreStamps(t) && IsNode(node) && sequence != sequence'
    requires (forall x :: x in s ==> x.sequence == sequence) && (forall x :: x in t ==> x.sequence == sequence')
    ensures AreStamps(s + t) && (AllDistinct(s + t, node) <==> AllDistinct(s, node) && AllDistinct(t, node))
  {
    hide Pack, IsNode;
    var u := s + t;
    assert forall i :: 0 <= i < |s| ==> u[i] == s[i];
    assert forall i :: 0 <= i < |t| ==> t[i] == u[i + |s|];
    if AllDistinct(s, node) && AllDistinct(t, node) {
      forall i, j | 0 <= i < j < |u|
        ensures Pack(u[i], node) != Pack(u[j], node)
      {
        if i < |s| <= j {
          assert u[i] in s && u[j] in t;
          PackAgrees(u[i], u[j], node);
        }
      }
    }
  }

  /** The guard that stops at CLOCK_RES UUIDs a millisecond lets one more through if the clock ticks inside that call. Its
      timestamp lies before that of the next call exactly if the clock has moved on further than the counter had run
      ahead, and is the same exactly if it has moved on just as far. */
  lemma TickInsideCall(c: Clock, call: Call, next: Call)
    requires c.Valid() && call.Valid() && next.Valid() && c.adj >= CLOCK_RES
    requires call.first.time == c.lastTime < call.overflow.time <= next.first.time <= next.overflow.time
    ensures var (c', s) := IssueChecked(c, call);
      var (c'', s') := IssueChecked(c', next);
      var ahead := (next.first.time - c.lastTime) * CLOCK_RES;
      s.Some? && s'.Some? && (s.value.time < s'.value.time <==> ahead > c.adj) && (s == s' <==> ahead == c.adj)
  {
  }

  /** A call that throws, a call in which the clock ticks, and two calls in the next millisecond: timestamps fall, and
      the last UUID is the first one again. */
  lemma TickAfterException(c: Clock, a: Reading, b: Reading)
    requires c.Valid() && a.Valid() && b.Valid() && c.adj == CLOCK_RES && a.time == c.lastTime && b.time == c.lastTime + 1
    ensures var s := Stamps(c, [Call(a, a), Call(a, b), Call(b, b), Call(b, b)]);
      |s| == 3 && s[1].time < s[0].time && s[2] == s[0]
  {
    var c1, c2, c3 := Clock(c.lastTime, CLOCK_RES + 1, c.sequence), Clock(b.time, 0, c.sequence), Clock(b.time, 1, c.sequence);
    assert IssueChecked(c, Call(a, a)) == (c1, None);
    assert IssueChecked(c1, Call(a, b)) == (c2, Some(Stamp(c1.Time(), c.sequence)));
    assert IssueChecked(c2, Call(b, b)) == (c3, Some(Stamp(c2.Time(), c.sequence)));
    assert IssueChecked(c3, Call(b, b)).1 == Some(Stamp(c3.Time(), c.sequence));
    hide IssueChecked, Stamps;
    StampsCons(c3, Call(b, b), []);
    StampsCons(c2, Call(b, b), [Call(b, b)]);
    StampsCons(c1, Call(a, b), [Call(b, b), Call(b, b)]);
    StampsCons(c, Call(a, a), [Call(a, b), Call(b, b), Call(b, b)]);
    NoStamps(IssueChecked(c3, Call(b, b)).0);
  }
}
