/** What the timestamp generators promise over whole runs. */
module UuidRuns {
  import opened Options
  import opened Uuids
  import opened UuidTimestamp

  predicate AllValid(calls: seq<Call>) { forall k :: 0 <= k < |calls| ==> calls[k].Valid() }

  predicate AreStamps(s: seq<Stamp>) { forall i :: 0 <= i < |s| ==> s[i].Valid() }

  /** The state after a run of the synchronized generator. */
  function After(c: Clock, calls: seq<Call>): (c': Clock)
    requires c.Valid() && AllValid(calls)
    ensures c'.Valid()
    decreases |calls|
  {
    if calls == [] then c else After(IssueChecked(c, calls[0]).0, calls[1..])
  }

  function Listed(s: Option<Stamp>): seq<Stamp> { if s.Some? then [s.value] else [] }

  /** The stamps that a run issues; calls that throw issue none. */
  function Stamps(c: Clock, calls: seq<Call>): seq<Stamp>
    requires c.Valid() && AllValid(calls)
    decreases |calls|
  {
    if calls == [] then []
    else Listed(IssueChecked(c, calls[0]).1) + Stamps(IssueChecked(c, calls[0]).0, calls[1..])
  }

  lemma StampsCons(c: Clock, call: Call, rest: seq<Call>)
    requires c.Valid() && call.Valid() && AllValid(rest)
    ensures AllValid([call] + rest)
    ensures Stamps(c, [call] + rest) == Listed(IssueChecked(c, call).1) + Stamps(IssueChecked(c, call).0, rest)
  {
    hide IssueChecked;
    assert ([call] + rest)[1..] == rest;
  }

  /** The least time that the next UUID may still have. */
  function Floor(c: Clock): int {
    (c.lastTime + EPOCH_OFFSET) * CLOCK_RES + if c.adj < CLOCK_RES then c.adj else CLOCK_RES
  }

  ghost predicate AllDistinct(s: seq<Stamp>, node: seq<int>)
    requires AreStamps(s)
  {
    forall i, j :: 0 <= i < j < |s| ==> Pack(s[i], node) != Pack(s[j], node)
  }

  lemma {:induction false} StampsJoin(c: Clock, a: seq<Call>, b: seq<Call>)
    requires c.Valid() && AllValid(a) && AllValid(b)
    ensures AllValid(a + b) && Stamps(c, a + b) == Stamps(c, a) + Stamps(After(c, a), b)
    decreases |a|
  {
    assert AllValid(a + b);
    if a == [] {
      assert a + b == b;
    } else {
      assert (a + b)[1..] == a[1..] + b;
      StampsJoin(IssueChecked(c, a[0]).0, a[1..], b);
    }
  }

  /** The first call after the step back starts a new era: as if the generator were new, with another clock sequence. */
  lemma NewEra(c: Clock, b: seq<Call>)
    requires c.Valid() && b != [] && AllValid(b) && b[0].first.time < c.lastTime
    ensures var c' := Checked(c, b[0].first);
      c'.sequence != c.sequence && c'.lastTime == b[0].first.time && Stamps(c, b) == Stamps(c', b)
  {
    var c' := Checked(c, b[0].first);
    assert Checked(c', b[0].first) == c';
    hide Issue, Checked;
  }

  ghost predicate Sorted(t: seq<int>) { forall i, j :: 0 <= i < j < |t| ==> t[i] < t[j] }

  lemma SortedCons(x: int, t: seq<int>)
    requires t != []
    ensures Sorted([x] + t) <==> x < t[0] && Sorted(t)
  {
    var s := [x] + t;
    if Sorted(s) {
      assert s[0] < s[1];
      assert forall i :: 0 <= i < |t| ==> t[i] == s[i + 1];
    }
  }
}
