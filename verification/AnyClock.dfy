/** Runs of the synchronized generator on any clock: it may tick and go back as often as it likes, between calls and
    inside them. Which pairs of calls can issue the same UUID at all. */
module AnyClock {
  import opened Options
  import opened Uuids
  import opened UuidRuns
  import opened UuidTimestamp

  /** The state in which call k finds the generator. */
  function StateAt(c: Clock, calls: seq<Call>, k: nat): (s: Clock)
    requires c.Valid() && AllValid(calls) && k <= |calls|
    ensures s.Valid()
    decreases k
  {
    if k == 0 then c else StateAt(IssueChecked(c, calls[0]).0, calls[1..], k - 1)
  }

  /** What call k issues. */
  function StampAt(c: Clock, calls: seq<Call>, k: nat): (s: Option<Stamp>)
    requires c.Valid() && AllValid(calls) && k < |calls|
    ensures s.Some? ==> s.value.Valid()
  {
    IssueChecked(StateAt(c, calls, k), calls[k]).1
  }

  /** The clock moves inside the call, in either direction, when the counter is used up. */
  predicate Ticks(c: Clock, call: Call)
    requires c.Valid() && call.Valid()
  {
    Checked(c, call.first).adj >= CLOCK_RES && call.overflow.time != call.first.time
  }

  /** The call sees the clock go back, at its first reading or at the other one if it takes that. */
  predicate StepsBack(c: Clock, call: Call)
    requires c.Valid() && call.Valid()
  {
    call.first.time < c.lastTime || (Ticks(c, call) && call.overflow.time < call.first.time)
  }

  predicate TicksAt(c: Clock, calls: seq<Call>, k: nat)
    requires c.Valid() && AllValid(calls) && k < |calls|
  {
    Ticks(StateAt(c, calls, k), calls[k])
  }

  predicate StepsBackAt(c: Clock, calls: seq<Call>, k: nat)
    requires c.Valid() && AllValid(calls) && k < |calls|
  {
    StepsBack(StateAt(c, calls, k), calls[k])
  }

  /** The clock goes back twice after call p, up to call q. */
  ghost predicate BackTwice(c: Clock, calls: seq<Call>, p: nat, q: nat)
    requires c.Valid() && AllValid(calls) && p <= q < |calls|
  {
    exists r1: nat, r2: nat :: p < r1 < r2 <= q && StepsBackAt(c, calls, r1) && StepsBackAt(c, calls, r2)
  }

  /** 2^60 units of time, 3653 years, lie between the two timestamps. */
  predicate FarApart(s: Option<Stamp>, t: Option<Stamp>) {
    s.Some? && t.Some? && t.value.time - s.value.time >= STAMPS
  }

  predicate Collide(s: Option<Stamp>, t: Option<Stamp>) { s.Some? && t.Some? && SameBits(s.value, t.value) }

  /** One call: the clock sequence changes exactly if the clock goes back, and otherwise the timestamp is not below
      the floor. It is below the next floor unless the clock ticked. */
  lemma OneCall(c: Clock, call: Call)
    requires c.Valid() && call.Valid()
    ensures var (c', s) := IssueChecked(c, call);
      && (c'.sequence != c.sequence <==> StepsBack(c, call))
      && (s.Some? ==> s.value.sequence == c'.sequence)
      && (!StepsBack(c, call) ==> Floor(c) <= Floor(c') && (s.Some? ==> Floor(c) <= s.value.time))
      && (s.Some? && !Ticks(c, call) ==> s.value.time < Floor(c'))
  {
  }

  lemma TailValid(calls: seq<Call>)
    requires AllValid(calls) && calls != []
    ensures calls[0].Valid() && AllValid(calls[1..])
  {
  }

  /** Call k + 1 of a run is call k of the run that its first call leaves. */
  lemma Later(c: Clock, calls: seq<Call>, k: nat)
    requires c.Valid() && AllValid(calls) && k + 1 < |calls|
    ensures AllValid(calls[1..]) && calls[1..][k] == calls[k + 1]
    ensures var c' := IssueChecked(c, calls[0]).0;
      && StateAt(c, calls, k + 1) == StateAt(c', calls[1..], k) && StampAt(c, calls, k + 1) == StampAt(c', calls[1..], k)
      && (TicksAt(c, calls, k + 1) <==> TicksAt(c', calls[1..], k))
      && (StepsBackAt(c, calls, k + 1) <==> StepsBackAt(c', calls[1..], k))
  {
    hide IssueChecked, Ticks, StepsBack;
    TailValid(calls);
  }

  lemma Now(c: Clock, calls: seq<Call>)
    requires c.Valid() && AllValid(calls) && calls != []
    ensures StateAt(c, calls, 0) == c && StampAt(c, calls, 0) == IssueChecked(c, calls[0]).1
    ensures (TicksAt(c, calls, 0) <==> Ticks(c, calls[0])) && (StepsBackAt(c, calls, 0) <==> StepsBack(c, calls[0]))
  {
    hide IssueChecked, Ticks, StepsBack;
  }

  /** The state after call k is the one in which call k + 1 begins. */
  lemma {:induction false} NextState(c: Clock, calls: seq<Call>, k: nat)
    requires c.Valid() && AllValid(calls) && k < |calls|
    ensures StateAt(c, calls, k + 1) == IssueChecked(StateAt(c, calls, k), calls[k]).0
    decreases k
  {
    TailValid(calls);
    if k > 0 {
      hide IssueChecked;
      NextState(IssueChecked(c, calls[0]).0, calls[1..], k - 1);
    }
  }

  /** The clock does not go back in calls i, ..., j - 1. */
  ghost predicate NotBackIn(c: Clock, calls: seq<Call>, i: nat, j: nat)
    requires c.Valid() && AllValid(calls) && j <= |calls|
  {
    forall r: nat :: i <= r < j ==> !StepsBackAt(c, calls, r)
  }

  /** As long as the clock does not go back, the clock sequence stays and the floor does not sink. */
  lemma {:induction false} Kept(c: Clock, calls: seq<Call>, i: nat, j: nat)
    requires c.Valid() && AllValid(calls) && i <= j <= |calls| && NotBackIn(c, calls, i, j)
    ensures StateAt(c, calls, j).sequence == StateAt(c, calls, i).sequence
    ensures Floor(StateAt(c, calls, i)) <= Floor(StateAt(c, calls, j))
    decreases j
  {
    hide IssueChecked, Ticks, StepsBack, Floor;
    if i < j {
      Kept(c, calls, i, j - 1);
      NextState(c, calls, j - 1);
      assert !StepsBackAt(c, calls, j - 1);
      OneCall(StateAt(c, calls, j - 1), calls[j - 1]);
    }
  }

  lemma Ordered(c: Clock, calls: seq<Call>, p: nat, q: nat)
    requires c.Valid() && AllValid(calls) && p < q < |calls| && NotBackIn(c, calls, p + 1, q + 1) && !TicksAt(c, calls, p)
    requires StampAt(c, calls, p).Some? && StampAt(c, calls, q).Some?
    ensures StampAt(c, calls, p).value.time < StampAt(c, calls, q).value.time
  {
    hide IssueChecked, Ticks, StepsBack, Floor, StateAt;
    NextState(c, calls, p);
    OneCall(StateAt(c, calls, p), calls[p]);
    Kept(c, calls, p + 1, q);
    assert !StepsBackAt(c, calls, q);
    OneCall(StateAt(c, calls, q), calls[q]);
  }

  lemma SequencesDiffer(c: Clock, calls: seq<Call>, p: nat, r: nat, q: nat)
    requires c.Valid() && AllValid(calls) && p < r <= q < |calls| && StepsBackAt(c, calls, r)
    requires NotBackIn(c, calls, p + 1, r) && NotBackIn(c, calls, r + 1, q + 1)
    requires StampAt(c, calls, p).Some? && StampAt(c, calls, q).Some?
    ensures StampAt(c, calls, p).value.sequence != StampAt(c, calls, q).value.sequence
  {
    hide IssueChecked, Ticks, StepsBack, Floor, StateAt;
    NextState(c, calls, p);
    NextState(c, calls, r);
    NextState(c, calls, q);
    OneCall(StateAt(c, calls, p), calls[p]);
    OneCall(StateAt(c, calls, r), calls[r]);
    OneCall(StateAt(c, calls, q), calls[q]);
    Kept(c, calls, p + 1, r);
    Kept(c, calls, r + 1, q + 1);
  }

  /** Only these pairs can issue the same UUID: the clock ticked inside call p and has not gone back since; or it has
      gone back twice, so that the first clock sequence may be back; or 3653 years have passed. */
  ghost predicate MayCollide(c: Clock, calls: seq<Call>, p: nat, q: nat)
    requires c.Valid() && AllValid(calls) && p < q < |calls|
  {
    || (TicksAt(c, calls, p) && NotBackIn(c, calls, p + 1, q + 1))
    || BackTwice(c, calls, p, q)
    || FarApart(StampAt(c, calls, p), StampAt(c, calls, q))
  }

  /** The others do not. */
  lemma NoCollision(c: Clock, calls: seq<Call>, p: nat, q: nat)
    requires c.Valid() && AllValid(calls) && p < q < |calls| && !MayCollide(c, calls, p, q)
    ensures !Collide(StampAt(c, calls, p), StampAt(c, calls, q))
  {
    hide StampAt, StateAt, StepsBackAt, TicksAt;
    if StampAt(c, calls, p).Some? && StampAt(c, calls, q).Some? {
      if NotBackIn(c, calls, p + 1, q + 1) {
        Ordered(c, calls, p, q);
        Near(StampAt(c, calls, p).value.time, StampAt(c, calls, q).value.time);
      } else {
        var r: nat :| p + 1 <= r < q + 1 && StepsBackAt(c, calls, r);
        SequencesDiffer(c, calls, p, r, q);
      }
    }
  }

  lemma Near(x: int, y: int)
    requires x < y < x + STAMPS
    ensures x % STAMPS != y % STAMPS
  {
  }

  lemma {:induction false} InStamps(c: Clock, calls: seq<Call>, x: Stamp)
    requires c.Valid() && AllValid(calls)
    ensures x in Stamps(c, calls) <==> exists k: nat :: k < |calls| && StampAt(c, calls, k) == Some(x)
    decreases |calls|
  {
    if calls != [] {
      TailValid(calls);
      Now(c, calls);
      var (c', s) := IssueChecked(c, calls[0]);
      var rest := calls[1..];
      assert Stamps(c, calls) == Listed(s) + Stamps(c', rest);
      hide IssueChecked, StampAt, StateAt, Stamps, TicksAt, StepsBackAt;
      InStamps(c', rest, x);
      forall k: nat | k + 1 < |calls|
        ensures StampAt(c, calls, k + 1) == StampAt(c', rest, k)
      {
        Later(c, calls, k);
      }
      if k: nat :| k < |calls| && StampAt(c, calls, k) == Some(x) {
        assert k > 0 ==> StampAt(c', rest, k - 1) == Some(x);
      }
      if k: nat :| k < |rest| && StampAt(c', rest, k) == Some(x) {
        assert StampAt(c, calls, k + 1) == Some(x);
      }
    }
  }

  lemma DistinctCons(s: Stamp, rest: seq<Stamp>, node: seq<int>)
    requires IsNode(node) && AreStamps(rest) && s.Valid()
    ensures AreStamps([s] + rest)
    ensures AllDistinct([s] + rest, node) <==> AllDistinct(rest, node) && forall i :: 0 <= i < |rest| ==> !SameBits(s, rest[i])
  {
    hide Pack, IsNode, SameBits;
    var u := [s] + rest;
    forall i | 0 <= i < |rest|
      ensures rest[i] == u[i + 1] && (Pack(u[0], node) == Pack(u[i + 1], node) <==> SameBits(s, rest[i]))
    {
      PackAgrees(s, rest[i], node);
    }
    if AllDistinct(u, node) {
      forall i, j | 0 <= i < j < |rest|
        ensures Pack(rest[i], node) != Pack(rest[j], node)
      {
        assert Pack(u[i + 1], node) != Pack(u[j + 1], node);
      }
      forall i | 0 <= i < |rest|
        ensures !SameBits(s, rest[i])
      {
        assert Pack(u[0], node) != Pack(u[i + 1], node);
      }
    }
  }

  lemma DistinctListed(s: Option<Stamp>, rest: seq<Stamp>, node: seq<int>)
    requires IsNode(node) && AreStamps(rest) && (s.Some? ==> s.value.Valid())
    ensures AreStamps(Listed(s) + rest)
    ensures AllDistinct(Listed(s) + rest, node) <==>
      AllDistinct(rest, node) && forall x :: x in rest ==> !Collide(s, Some(x))
  {
    hide AllDistinct, SameBits;
    if s.Some? {
      DistinctCons(s.value, rest, node);
      assert forall i :: 0 <= i < |rest| ==> rest[i] in rest;
    } else {
      assert Listed(s) + rest == rest;
    }
  }

  ghost predicate NoPair(c: Clock, calls: seq<Call>)
    requires c.Valid() && AllValid(calls)
  {
    forall p: nat, q: nat :: p < q < |calls| ==> !Collide(StampAt(c, calls, p), StampAt(c, calls, q))
  }

  lemma NoPairCons(c: Clock, calls: seq<Call>)
    requires c.Valid() && AllValid(calls) && calls != []
    ensures var (c', s) := IssueChecked(c, calls[0]);
      NoPair(c, calls) <==> NoPair(c', calls[1..]) && forall x :: x in Stamps(c', calls[1..]) ==> !Collide(s, Some(x))
  {
    hide IssueChecked, StampAt, StateAt, Stamps, TicksAt, StepsBackAt, SameBits;
    TailValid(calls);
    Now(c, calls);
    var (c', s) := IssueChecked(c, calls[0]);
    var rest := calls[1..];
    forall k: nat | k + 1 < |calls|
      ensures StampAt(c, calls, k + 1) == StampAt(c', rest, k)
    {
      Later(c, calls, k);
    }
    if NoPair(c, calls) {
      forall x | x in Stamps(c', rest)
        ensures !Collide(s, Some(x))
      {
        InStamps(c', rest, x);
        var k: nat :| k < |rest| && StampAt(c', rest, k) == Some(x);
        assert !Collide(StampAt(c, calls, 0), StampAt(c, calls, k + 1));
      }
      forall p: nat, q: nat | p < q < |rest|
        ensures !Collide(StampAt(c', rest, p), StampAt(c', rest, q))
      {
        assert !Collide(StampAt(c, calls, p + 1), StampAt(c, calls, q + 1));
      }
    }
    if NoPair(c', rest) && forall x :: x in Stamps(c', rest) ==> !Collide(s, Some(x)) {
      forall p: nat, q: nat | p < q < |calls|
        ensures !Collide(StampAt(c, calls, p), StampAt(c, calls, q))
      {
        assert StampAt(c, calls, q) == StampAt(c', rest, q - 1);
        if p > 0 {
          assert !Collide(StampAt(c', rest, p - 1), StampAt(c', rest, q - 1));
        } else if StampAt(c, calls, q).Some? {
          InStamps(c', rest, StampAt(c, calls, q).value);
        }
      }
    }
  }

  lemma {:induction false} DistinctPairs(c: Clock, calls: seq<Call>, node: seq<int>)
    requires c.Valid() && AllValid(calls) && IsNode(node)
    ensures AreStamps(Stamps(c, calls)) && (AllDistinct(Stamps(c, calls), node) <==> NoPair(c, calls))
    decreases |calls|
  {
    if calls != [] {
      TailValid(calls);
      Now(c, calls);
      var (c', s) := IssueChecked(c, calls[0]);
      assert Stamps(c, calls) == Listed(s) + Stamps(c', calls[1..]);
      assert s.Some? ==> s.value.Valid();
      NoPairCons(c, calls);
      hide IssueChecked, Stamps, AllDistinct, NoPair;
      DistinctPairs(c', calls[1..], node);
      DistinctListed(s, Stamps(c', calls[1..]), node);
    }
  }

  /** On every clock no UUID is issued twice exactly if none of the pairs that may collide does. */
  lemma RunIsUniqueIf(c: Clock, calls: seq<Call>, node: seq<int>)
    requires c.Valid() && AllValid(calls) && IsNode(node)
    ensures AreStamps(Stamps(c, calls))
    ensures AllDistinct(Stamps(c, calls), node) <==>
      forall p: nat, q: nat :: p < q < |calls| && MayCollide(c, calls, p, q) ==>
        !Collide(StampAt(c, calls, p), StampAt(c, calls, q))
  {
    hide Stamps, AllDistinct, MayCollide, StampAt, Collide;
    DistinctPairs(c, calls, node);
    forall p: nat, q: nat | p < q < |calls| && !MayCollide(c, calls, p, q)
      ensures !Collide(StampAt(c, calls, p), StampAt(c, calls, q))
    {
      NoCollision(c, calls, p, q);
    }
  }

  /** So no UUID is issued twice in a run of less than 3653 years in which the clock goes back at most once and never
      moves inside a call that finds the counter used up. */
  lemma RunIsUnique(c: Clock, calls: seq<Call>, node: seq<int>)
    requires c.Valid() && AllValid(calls) && IsNode(node)
    requires forall p: nat :: p < |calls| ==> !TicksAt(c, calls, p)
    requires forall p: nat, q: nat :: p < q < |calls| ==>
      !(StepsBackAt(c, calls, p) && StepsBackAt(c, calls, q)) && !FarApart(StampAt(c, calls, p), StampAt(c, calls, q))
    ensures AreStamps(Stamps(c, calls)) && AllDistinct(Stamps(c, calls), node)
  {
    hide Stamps, AllDistinct, StampAt, StepsBackAt, TicksAt, Collide;
    RunIsUniqueIf(c, calls, node);
  }
}
