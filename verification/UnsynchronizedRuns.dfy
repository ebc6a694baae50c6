/** Runs of the unsynchronized generator, which reads the clock only when its counter is used up. */
module UnsynchronizedRuns {
  import AnyClock
  import opened JavaNumbers
  import opened Uuids
  import opened UuidRuns
  import opened UuidTicks
  import opened UuidTimestamp

  /** The clock does not go back, as far as the generator sees: one reading a call, taken only if the counter is used
      up. */
  predicate NotBack(c: Clock, rs: seq<Reading>)
    requires c.Valid()
    decreases |rs|
  {
    rs == [] || (
      && rs[0].Valid() && (c.adj >= CLOCK_RES ==> rs[0].time >= c.lastTime)
      && NotBack(Issue(c, rs[0]).0, rs[1..]))
  }

  /** The times of the UUIDs of a run, and then the time of the next one. */
  function Times(c: Clock, rs: seq<Reading>): (t: seq<int>)
    requires c.Valid() && NotBack(c, rs)
    ensures t != []
    decreases |rs|
  {
    if rs == [] then [c.Time()]
    else (if Issue(c, rs[0]).1.Some? then [c.Time()] else []) + Times(Issue(c, rs[0]).0, rs[1..])
  }

  /** Whenever the generator takes a new millisecond, the counter had not run ahead as far as that. */
  predicate Steady(c: Clock, rs: seq<Reading>)
    requires c.Valid() && NotBack(c, rs)
    decreases |rs|
  {
    rs == [] || (
      && (c.adj >= CLOCK_RES && rs[0].time > c.lastTime ==> (rs[0].time - c.lastTime) * CLOCK_RES > c.adj)
      && Steady(Issue(c, rs[0]).0, rs[1..]))
  }

  lemma {:induction false} FirstTime(c: Clock, rs: seq<Reading>)
    requires c.Valid() && NotBack(c, rs)
    ensures Times(c, rs)[0] >= c.Time() && (c.adj < CLOCK_RES ==> Times(c, rs)[0] == c.Time())
    decreases |rs|
  {
    if rs != [] {
      FirstTime(Issue(c, rs[0]).0, rs[1..]);
    }
  }

  lemma NoMoreCalls(c: Clock)
    requires c.Valid()
    ensures Sorted(Times(c, [])) && Steady(c, [])
  {
  }

  /** What one call adds to the times, and when that keeps them in order. */
  lemma OneMoreCall(c: Clock, rs: seq<Reading>)
    requires c.Valid() && rs != [] && NotBack(c, rs)
    ensures var (c', s) := Issue(c, rs[0]);
      && Times(c, rs) == (if s.Some? then [c.Time()] + Times(c', rs[1..]) else Times(c', rs[1..]))
      && (Steady(c, rs) <==> Steady(c', rs[1..]) && (s.Some? ==> c.Time() < c'.Time()))
      && (s.Some? && c.adj >= CLOCK_RES ==> c'.adj == 0)
      && (c.adj < CLOCK_RES ==> s.Some? && c'.Time() == c.Time() + 1)
  {
  }

  /** Without a look at the clock before each UUID, timestamps strictly increase on a clock that does not go back exactly
      if the run is steady: the first time, that is, unless the clock shows the very next millisecond when the counter
      is used up. */
  lemma {:induction false} TimesIncrease(c: Clock, rs: seq<Reading>)
    requires c.Valid() && NotBack(c, rs)
    ensures Sorted(Times(c, rs)) <==> Steady(c, rs)
    decreases |rs|
  {
    hide Sorted, Times, Steady;
    if rs == [] {
      NoMoreCalls(c);
    } else {
      var (c', s) := Issue(c, rs[0]);
      TimesIncrease(c', rs[1..]);
      FirstTime(c', rs[1..]);
      OneMoreCall(c, rs);
      SortedCons(c.Time(), Times(c', rs[1..]));
      hide *;
    }
  }

  /** A counter that stands at CLOCK_RES when the clock ticks: the next UUID is the same one again. */
  lemma NextMillisecondRepeats(c: Clock, r: Reading, r': Reading)
    requires c.Valid() && r.Valid() && r'.Valid() && c.adj == CLOCK_RES && r.time == c.lastTime + 1
    ensures var (c', s) := Issue(c, r); s.Some? && s == Issue(c', r').1
  {
  }

  /** A run can be out of order and not have repeated anything yet: the counter had run past CLOCK_RES. */
  lemma OutOfOrderOnly(c: Clock, r: Reading, r': Reading)
    requires c.Valid() && r.Valid() && r'.Valid()
    requires c.adj == CLOCK_RES && r.time == c.lastTime && r'.time == c.lastTime + 1
    ensures NotBack(c, [r, r']) && !Steady(c, [r, r']) && NoTimeTwice(Times(c, [r, r']))
  {
    var c1, c2 := Issue(c, r).0, Clock(r'.time, 0, c.sequence);
    assert [r, r'][1..] == [r'] && [r'][1..] == [];
    assert Issue(c1, r').0 == c2;
    assert Times(c2, []) == [c2.Time()];
    assert Times(c1, [r']) == [c1.Time(), c2.Time()];
  }

  predicate AllReadings(rs: seq<Reading>) { forall k :: 0 <= k < |rs| ==> rs[k].Valid() }

  /** The state after a run. */
  function AfterReadings(c: Clock, rs: seq<Reading>): (c': Clock)
    requires c.Valid() && AllReadings(rs)
    ensures c'.Valid()
    decreases |rs|
  {
    if rs == [] then c else AfterReadings(Issue(c, rs[0]).0, rs[1..])
  }

  /** The stamps that a run issues. */
  function Issued(c: Clock, rs: seq<Reading>): seq<Stamp>
    requires c.Valid() && AllReadings(rs)
    decreases |rs|
  {
    if rs == [] then [] else Listed(Issue(c, rs[0]).1) + Issued(Issue(c, rs[0]).0, rs[1..])
  }

  /** The times are those of the stamps that the run issues, and then that of the next one. */
  lemma {:induction false} TimesAre(c: Clock, rs: seq<Reading>)
    requires c.Valid() && NotBack(c, rs)
    ensures AllReadings(rs) && Times(c, rs) == TimesOf(Issued(c, rs)) + [AfterReadings(c, rs).Time()]
    decreases |rs|
  {
    NotBackValid(c, rs);
    if rs != [] {
      var (c', s) := Issue(c, rs[0]);
      assert s.Some? ==> s.value.time == c.Time();
      assert Times(c, rs) == (if s.Some? then [c.Time()] else []) + Times(c', rs[1..]);
      assert Issued(c, rs) == Listed(s) + Issued(c', rs[1..]);
      hide Issue, Times, Issued, TimesOf;
      TimesAre(c', rs[1..]);
      TimesOfListed(s, Issued(c', rs[1..]));
    } else {
      assert TimesOf([]) == [];
    }
  }

  /** The call of the synchronized generator that does the same: it finds the clock where it was, and what it reads when
      the counter is used up is the reading of this generator. */
  function AsCall(c: Clock, r: Reading): (call: Call)
    requires c.Valid() && r.Valid() && Fits(c.lastTime, LONGS)
    ensures call.Valid() && call.first.time == c.lastTime
  {
    var same := Reading(c.lastTime, 0);
    Call(same, if c.adj >= CLOCK_RES then r else same)
  }

  lemma SameCall(c: Clock, r: Reading)
    requires c.Valid() && r.Valid() && Fits(c.lastTime, LONGS)
    ensures IssueChecked(c, AsCall(c, r)) == Issue(c, r) && Fits(Issue(c, r).0.lastTime, LONGS)
    ensures Issue(c, r).0.lastTime == AsCall(c, r).overflow.time
  {
  }

  function AsCalls(c: Clock, rs: seq<Reading>): (calls: seq<Call>)
    requires c.Valid() && AllReadings(rs) && Fits(c.lastTime, LONGS)
    ensures AllValid(calls) && |calls| == |rs|
    decreases |rs|
  {
    SameRest(c, rs);
    if rs == [] then [] else [AsCall(c, rs[0])] + AsCalls(Issue(c, rs[0]).0, rs[1..])
  }

  lemma SameRest(c: Clock, rs: seq<Reading>)
    requires c.Valid() && AllReadings(rs) && Fits(c.lastTime, LONGS)
    ensures rs != [] ==> rs[0].Valid() && AllReadings(rs[1..]) && Fits(Issue(c, rs[0]).0.lastTime, LONGS)
  {
    if rs != [] {
      SameCall(c, rs[0]);
    }
  }

  /** A run of this generator is a run of the other one. */
  lemma {:induction false} SameRun(c: Clock, rs: seq<Reading>)
    requires c.Valid() && AllReadings(rs) && Fits(c.lastTime, LONGS)
    ensures Stamps(c, AsCalls(c, rs)) == Issued(c, rs) && After(c, AsCalls(c, rs)) == AfterReadings(c, rs)
    ensures Fits(AfterReadings(c, rs).lastTime, LONGS)
    decreases |rs|
  {
    if rs != [] {
      SameCall(c, rs[0]);
      var c' := Issue(c, rs[0]).0;
      var call, rest := AsCall(c, rs[0]), AsCalls(c', rs[1..]);
      assert AsCalls(c, rs) == [call] + rest;
      hide Issue, IssueChecked, AsCall;
      SameRun(c', rs[1..]);
      StampsCons(c, call, rest);
      AfterCons(c, call, rest);
    }
  }

  lemma AfterCons(c: Clock, call: Call, rest: seq<Call>)
    requires c.Valid() && call.Valid() && AllValid(rest)
    ensures AllValid([call] + rest) && After(c, [call] + rest) == After(IssueChecked(c, call).0, rest)
  {
    hide IssueChecked;
    assert ([call] + rest)[1..] == rest;
  }

  lemma {:induction false} RunJoin(c: Clock, a: seq<Reading>, b: seq<Reading>)
    requires c.Valid() && AllReadings(a) && AllReadings(b) && Fits(c.lastTime, LONGS)
    ensures AllReadings(a + b) && Fits(AfterReadings(c, a).lastTime, LONGS)
    ensures AsCalls(c, a + b) == AsCalls(c, a) + AsCalls(AfterReadings(c, a), b)
    decreases |a|
  {
    assert AllReadings(a + b);
    if a == [] {
      assert a + b == b;
    } else {
      assert (a + b)[1..] == a[1..] + b;
      SameRest(c, a);
      RunJoin(Issue(c, a[0]).0, a[1..], b);
    }
  }

  lemma {:induction false} NotBackValid(c: Clock, rs: seq<Reading>)
    requires c.Valid() && NotBack(c, rs)
    ensures AllReadings(rs)
    decreases |rs|
  {
    if rs != [] {
      NotBackValid(Issue(c, rs[0]).0, rs[1..]);
      assert forall k :: 0 < k < |rs| ==> rs[k] == rs[1..][k - 1];
    }
  }

  lemma {:induction false} NotBackAdvances(c: Clock, rs: seq<Reading>)
    requires c.Valid() && NotBack(c, rs) && Fits(c.lastTime, LONGS)
    ensures AllReadings(rs) && Advancing(c.lastTime, AsCalls(c, rs))
    decreases |rs|
  {
    NotBackValid(c, rs);
    if rs != [] {
      SameCall(c, rs[0]);
      var c' := Issue(c, rs[0]).0;
      var call, rest := AsCall(c, rs[0]), AsCalls(c', rs[1..]);
      assert AsCalls(c, rs) == [call] + rest && ([call] + rest)[1..] == rest;
      NotBackAdvances(c', rs[1..]);
    }
  }

  /** On every clock that does not go back: no UUID is issued twice exactly if no timestamp drawn in advance is reached. */
  lemma RunIsUniqueIf(c: Clock, rs: seq<Reading>, node: seq<int>)
    requires c.Valid() && NotBack(c, rs) && Fits(c.lastTime, LONGS) && IsNode(node)
    ensures AllReadings(rs) && AreStamps(Issued(c, rs))
    ensures AllDistinct(Issued(c, rs), node) <==> NeverReached(c, AsCalls(c, rs)) && Apart(Issued(c, rs))
  {
    hide Issue, IssueChecked, AllDistinct, NeverReached, Apart, Stamps, Issued, AsCalls;
    NotBackAdvances(c, rs);
    SameRun(c, rs);
    UuidTicks.RunIsUniqueIf(c, AsCalls(c, rs), node);
  }

  /** The clock goes back once, at reading r, the only place where this generator can see it. */
  lemma StepBackIsUniqueIf(c: Clock, a: seq<Reading>, r: Reading, b: seq<Reading>, node: seq<int>)
    requires c.Valid() && NotBack(c, a) && AllReadings(a) && Fits(c.lastTime, LONGS) && IsNode(node) && r.Valid()
    requires AfterReadings(c, a).adj >= CLOCK_RES && r.time < AfterReadings(c, a).lastTime
    requires NotBack(Issue(AfterReadings(c, a), r).0, b) && AllReadings(b)
    ensures AllReadings(a + ([r] + b)) && AreStamps(Issued(c, a + ([r] + b))) && AllReadings([r] + b)
    ensures var c1 := AfterReadings(c, a);
      var c2 := Issue(c1, r).0;
      AllDistinct(Issued(c, a + ([r] + b)), node) <==>
      && NeverReached(c, AsCalls(c, a)) && Apart(Issued(c, a))
      && NeverReached(c2, AsCalls(c2, b)) && !IssuedAt(c2, AsCalls(c2, b), c1.Time())
      && Apart(Issued(c1, [r] + b))
  {
    hide AllDistinct, NeverReached, Apart, Stamps, Issued, IssuedAt, After, AsCalls, AreStamps, Advancing, NotBack;
    var c1 := AfterReadings(c, a);
    SameRun(c, a);
    SameCall(c1, r);
    var x, c2 := AsCall(c1, r), Issue(c1, r).0;
    assert Checked(c1, x.first) == c1 && c2.lastTime == r.time == x.overflow.time;
    assert AsCalls(c1, [r] + b) == [x] + AsCalls(c2, b) by { FirstAsCall(c1, r, b); }
    hide Issue, IssueChecked, Checked, AsCall;
    NotBackAdvances(c, a);
    NotBackAdvances(c2, b);
    RunJoin(c, a, [r] + b);
    SameRun(c1, [r] + b);
    SameRun(c, a + ([r] + b));
    StepInsideCallIsUniqueIf(c, AsCalls(c, a), x, AsCalls(c2, b), node);
  }

  lemma FirstAsCall(c: Clock, r: Reading, b: seq<Reading>)
    requires c.Valid() && r.Valid() && AllReadings(b) && Fits(c.lastTime, LONGS)
    ensures AllReadings([r] + b) && Fits(Issue(c, r).0.lastTime, LONGS)
    ensures AsCalls(c, [r] + b) == [AsCall(c, r)] + AsCalls(Issue(c, r).0, b)
  {
    SameCall(c, r);
    hide Issue, AsCall;
    assert ([r] + b)[1..] == b;
  }

  /** And on every clock, however often it goes back. */
  lemma AnyRunIsUniqueIf(c: Clock, rs: seq<Reading>, node: seq<int>)
    requires c.Valid() && AllReadings(rs) && Fits(c.lastTime, LONGS) && IsNode(node)
    ensures AreStamps(Issued(c, rs))
    ensures var calls := AsCalls(c, rs);
      AllDistinct(Issued(c, rs), node) <==>
      forall p: nat, q: nat :: p < q < |calls| && AnyClock.MayCollide(c, calls, p, q) ==>
        !AnyClock.Collide(AnyClock.StampAt(c, calls, p), AnyClock.StampAt(c, calls, q))
  {
    hide AllDistinct, Stamps, Issued, AsCalls, AreStamps;
    SameRun(c, rs);
    AnyClock.RunIsUniqueIf(c, AsCalls(c, rs), node);
  }
}
