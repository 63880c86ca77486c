/** When a live session with failing probes is given up: FOG.Agent/SessionRecoveryPolicy.cs, over a whole run. */
module SessionRecovery {
  import opened Options

  /** DateTimeOffset and TimeSpan count ticks of 100 ns; the default DateTimeOffset is 0. */
  const SECOND := 10_000_000
  const FAILURE_SPAN := 60 * SECOND
  const COOLDOWN := 300 * SECOND

  /** One call of Observe and what it returned. */
  datatype Observation = Observation(healthy: bool, at: nat, fired: bool)

  // ---------- the rule, as a property of the run so far ----------

  /** How many failures in a row end the run, counting from the last success or recovery. */
  function Streak(h: seq<Observation>): (n: nat)
    ensures n <= |h|
  {
    if h == [] || h[|h| - 1].healthy || h[|h| - 1].fired then 0 else 1 + Streak(h[..|h| - 1])
  }

  function LastFire(h: seq<Observation>): Option<nat> {
    if h == [] then None else if h[|h| - 1].fired then Some(h[|h| - 1].at) else LastFire(h[..|h| - 1])
  }

  /** When the current streak of failures began, `now` being a failure. */
  function Since(h: seq<Observation>, now: nat): nat {
    if Streak(h) == 0 then now else h[|h| - Streak(h)].at
  }

  /** A recovery is due: the third failure in a row or a later one, 60 seconds after the first, and 5 minutes
      after the last recovery. */
  predicate Due(h: seq<Observation>, healthy: bool, now: nat) {
    && !healthy && Streak(h) + 1 >= 3 && now - Since(h, now) >= FAILURE_SPAN
    && (LastFire(h).Some? ==> now >= LastFire(h).value + COOLDOWN)
  }

  /** The run kept to the rule at every step, in both directions. */
  ghost predicate Ruled(h: seq<Observation>) {
    h == [] || (Ruled(h[..|h| - 1]) && (h[|h| - 1].fired <==> Due(h[..|h| - 1], h[|h| - 1].healthy, h[|h| - 1].at)))
  }

  class Policy {
    var failedSince: Option<nat>
    var nextRecovery: nat
    var failures: nat
    ghost var history: seq<Observation>

    ghost predicate Valid()
      reads this
    {
      && Ruled(history) && failures == Streak(history)
      && failedSince == (if failures == 0 then None else Some(history[|history| - failures].at))
      && nextRecovery == (if LastFire(history).None? then 0 else LastFire(history).value + COOLDOWN)
    }

    constructor ()
      ensures Valid() && history == []
    {
      failedSince, nextRecovery, failures, history := None, 0, 0, [];
    }

    method Observe(healthy: bool, now: nat) returns (recover: bool)
      requires Valid()
      modifies this
      ensures Valid() && recover == Due(old(history), healthy, now)
      ensures history == old(history) + [Observation(healthy, now, recover)]
    {
      ghost var h := history;
      recover := false;
      if healthy {
        failedSince, failures := None, 0;
      } else {
        if failedSince.None? {
          failedSince := Some(now);
        }
        failures := failures + 1;
        if !(failures < 3 || now - failedSince.value < FAILURE_SPAN || now < nextRecovery) {
          nextRecovery := now + COOLDOWN;
          failedSince, failures := None, 0;
          recover := true;
        }
      }
      history := h + [Observation(healthy, now, recover)];
      assert history[..|h|] == h;
    }
  }

  // ---------- consequences for a whole run ----------

  lemma {:induction false} RuledPrefix(h: seq<Observation>, n: nat)
    requires Ruled(h) && n <= |h|
    ensures Ruled(h[..n])
  {
    if n < |h| {
      RuledPrefix(h[..|h| - 1], n);
      assert h[..|h| - 1][..n] == h[..n];
    } else {
      assert h[..n] == h;
    }
  }

  lemma RuledAt(h: seq<Observation>, i: nat)
    requires Ruled(h) && i < |h|
    ensures h[i].fired <==> Due(h[..i], h[i].healthy, h[i].at)
  {
    RuledPrefix(h, i + 1);
    assert h[..i + 1][..i] == h[..i];
  }

  /** The last recovery is no earlier than any before it. */
  lemma {:induction false} LastFireIsLatest(h: seq<Observation>, i: nat)
    requires Ruled(h) && i < |h| && h[i].fired
    ensures LastFire(h).Some? && h[i].at <= LastFire(h).value
  {
    var n := |h| - 1;
    if i < n {
      LastFireIsLatest(h[..n], i);
    }
  }

  /** Recoveries come at least five minutes apart, whatever the clock does in between. */
  lemma RecoveriesApart(h: seq<Observation>, i: nat, k: nat)
    requires Ruled(h) && i < k < |h| && h[i].fired && h[k].fired
    ensures h[i].at + COOLDOWN <= h[k].at
  {
    RuledPrefix(h, k);
    RuledAt(h, k);
    LastFireIsLatest(h[..k], i);
  }

  /** The observations of a streak are failures. */
  lemma {:induction false} StreakFails(h: seq<Observation>, j: nat)
    requires |h| - Streak(h) <= j < |h|
    ensures !h[j].healthy && !h[j].fired
  {
    if j < |h| - 1 {
      StreakFails(h[..|h| - 1], j);
    }
  }

  /** Each recovery ends at least three failures in a row, the first of them a minute or more ago, and no success
      or recovery lies between. */
  lemma RecoveryIsEarned(h: seq<Observation>, k: nat) returns (j: nat)
    requires Ruled(h) && k < |h| && h[k].fired
    ensures j + 2 <= k && h[k].at - h[j].at >= FAILURE_SPAN
    ensures forall i :: j <= i <= k ==> !h[i].healthy
    ensures forall i :: j <= i < k ==> !h[i].fired
  {
    RuledAt(h, k);
    j := k - Streak(h[..k]);
    forall i | j <= i < k
      ensures !h[i].healthy && !h[i].fired
    {
      StreakFails(h[..k], i);
    }
  }
}
