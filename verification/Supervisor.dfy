/** The engine supervisor (FOG.Agent/EngineSupervisor.cs) as a step machine.  Tunnels, probes, the clock, driver
    pauses, adoption of a running engine and the death of the engine are chosen freely at every point, and what a search is told
    and what it launches is on record; a step that throws is not modelled.
 */
module Supervisor {
  import opened Options
  import opened ProfileSearch
  import SessionRecovery

  /** State of the snapshot a step returns. */
  datatype Snapshot = Stopped | Ready | Degraded | Recovering

  /** How a search ends. */
  datatype Ending = NotWanted | OnHold | Direct | Adopted | Trying | NothingStarts

  const INITIAL_HEALTH_INTERVAL := 3 * SessionRecovery.SECOND
  const VOICE_GRACE := 30 * SessionRecovery.SECOND
  const SEARCH_DELAY := 300 * SessionRecovery.SECOND

  // ---------- lists of profiles ----------

  ghost function Ids(s: seq<Id>): set<Id> {
    if s == [] then {} else Ids(s[..|s| - 1]) + {s[|s| - 1]}
  }

  ghost predicate NoRepeats(s: seq<Id>) {
    s == [] || (s[|s| - 1] !in Ids(s[..|s| - 1]) && NoRepeats(s[..|s| - 1]))
  }

  lemma {:induction false} IdsAre(s: seq<Id>, id: Id)
    ensures id in Ids(s) <==> id in s
  {
    if s != [] {
      IdsAre(s[..|s| - 1], id);
    }
  }

  lemma {:induction false} IdsCount(s: seq<Id>)
    ensures |Ids(s)| <= |s| && (NoRepeats(s) ==> |Ids(s)| == |s|)
  {
    if s != [] {
      IdsCount(s[..|s| - 1]);
    }
  }

  lemma IdsPush(s: seq<Id>, id: Id)
    ensures Ids(s + [id]) == Ids(s) + {id}
    ensures NoRepeats(s) && id !in Ids(s) ==> NoRepeats(s + [id])
  {
    assert (s + [id])[..|s|] == s;
  }

  lemma EmptyCycle()
    ensures NoRepeats([]) && Ids([]) == {}
  {
  }

  lemma OrderListsAll(catalog: seq<Id>, next: Option<Id>)
    ensures Ids(Order(catalog, next)) == Ids(catalog)
  {
    OrderIsPermutation(catalog, next);
    forall id
      ensures id in Ids(Order(catalog, next)) <==> id in Ids(catalog)
    {
      IdsAre(Order(catalog, next), id);
      IdsAre(catalog, id);
      assert id in multiset(Order(catalog, next)) <==> id in multiset(catalog);
    }
  }

  lemma OrderInCatalog(catalog: seq<Id>, next: Option<Id>)
    ensures Ids(Order(catalog, next)) == Ids(catalog)
    ensures forall i :: 0 <= i < |Order(catalog, next)| ==> Order(catalog, next)[i] in catalog
  {
    var order := Order(catalog, next);
    OrderListsAll(catalog, next);
    forall i | 0 <= i < |order|
      ensures order[i] in catalog
    {
      IdsAre(order, order[i]);
      IdsAre(catalog, order[i]);
    }
  }

  lemma {:induction false} SubsetCount(a: set<Id>, b: set<Id>)
    requires a <= b
    ensures |a| <= |b| && (|b| <= |a| ==> a == b)
  {
    if a != {} {
      var x :| x in a;
      SubsetCount(a - {x}, b - {x});
    }
  }

  /** The scores are of catalog profiles. */
  ghost predicate ScoresIn(scores: seq<Entry>, catalog: seq<Id>) {
    scores == [] || (scores[0].id in catalog && ScoresIn(scores[1..], catalog))
  }

  lemma {:induction false} ScoresInAt(scores: seq<Entry>, catalog: seq<Id>, e: Entry)
    requires ScoresIn(scores, catalog) && e in scores
    ensures e.id in catalog
  {
    if scores[0] != e {
      ScoresInAt(scores[1..], catalog, e);
    }
  }

  lemma {:induction false} RecordedIn(scores: seq<Entry>, catalog: seq<Id>, id: Id, score: nat)
    requires ScoresIn(scores, catalog) && id in catalog
    ensures ScoresIn(Recorded(scores, id, score), catalog)
  {
    var r := Recorded(scores, id, score);
    if scores == [] {
      assert r[1..] == [];
    } else if scores[0].id == id {
      assert r[1..] == scores[1..];
    } else {
      RecordedIn(scores[1..], catalog, id, score);
      assert r[1..] == Recorded(scores[1..], id, score);
    }
  }

  /** What a cycle has launched while it searched, and the best profile that it launched again at its end, if any. */
  datatype Cycle = Cycle(launched: seq<Id>, restored: Option<Id>)

  /** In every closed cycle the search launched each profile at most once. */
  ghost predicate ClosedCycles(cycles: seq<Cycle>, n: nat) {
    cycles == [] || (NoRepeats(cycles[0].launched) && |cycles[0].launched| <= n && ClosedCycles(cycles[1..], n))
  }

  lemma {:induction false} CycleCloses(cycles: seq<Cycle>, c: Cycle, n: nat)
    requires ClosedCycles(cycles, n) && NoRepeats(c.launched) && |c.launched| <= n
    ensures ClosedCycles(cycles + [c], n)
  {
    if cycles == [] {
      assert ([] + [c])[1..] == [] && [] + [c] == [c];
    } else {
      CycleCloses(cycles[1..], c, n);
      assert (cycles + [c])[1..] == cycles[1..] + [c];
    }
  }

  /** A list of different attempted profiles is no longer than the catalog. */
  lemma LaunchedFew(launched: seq<Id>, attempted: set<Id>, catalog: seq<Id>)
    requires NoRepeats(launched) && Ids(launched) <= attempted <= Ids(catalog)
    ensures |launched| <= |catalog|
  {
    IdsCount(launched);
    IdsCount(catalog);
    SubsetCount(Ids(launched), Ids(catalog));
  }

  // ---------- the record of a search ----------

  /** What the supervisor is told, and the engines it starts, in order: the tunnel that is up, if one is; whether launches are on
      hold; the profile of the lease that is found; whether the wish to run has been withdrawn; whether the running engine has
      exited. */
  datatype Event = Tunnel(identity: Option<string>) | Pause(active: bool) | Lease(found: Option<Id>) | Withdrawn(yes: bool)
                 | Exited(yes: bool) | Started(profile: Id)

  /** The profiles started. */
  function Starts(said: seq<Event>): seq<Id> {
    if said == [] then []
    else
      var e := said[|said| - 1];
      Starts(said[..|said| - 1]) + if e.Started? then [e.profile] else []
  }

  /** The last engine started has not been reported to have exited. */
  predicate Up(said: seq<Event>) {
    if said == [] then false
    else
      var e := said[|said| - 1];
      e.Started? || (e != Exited(true) && Up(said[..|said| - 1]))
  }

  /** No engine is started before the one started last is known to have exited. */
  ghost predicate OneAtATime(said: seq<Event>) {
    forall j :: 0 <= j < |said| && said[j].Started? ==> !Up(said[..j])
  }

  /** Reasons to launch nothing more: launches are on hold, the wish is withdrawn, an engine of the catalog is there already. */
  predicate Halting(e: Event, catalog: seq<Id>) {
    e == Pause(true) || e == Withdrawn(true) || (e.Lease? && e.found.Some? && e.found.value in catalog)
  }

  ghost predicate NoHalt(said: seq<Event>, catalog: seq<Id>) {
    forall i :: 0 <= i < |said| ==> !Halting(said[i], catalog)
  }

  /** Nothing is started after a reason not to. */
  ghost predicate HaltsAtOnce(said: seq<Event>, catalog: seq<Id>) {
    forall i, j :: 0 <= i < j < |said| && Halting(said[i], catalog) ==> !said[j].Started?
  }

  predicate TunnelSeen(said: seq<Event>) {
    exists i :: 0 <= i < |said| && said[i].Tunnel? && said[i].identity.Some?
  }

  lemma {:induction false} StartsConcat(a: seq<Event>, b: seq<Event>)
    ensures Starts(a + b) == Starts(a) + Starts(b)
  {
    if b == [] {
      assert a + b == a;
    } else {
      assert (a + b)[..|a + b| - 1] == a + b[..|b| - 1];
      StartsConcat(a, b[..|b| - 1]);
    }
  }

  lemma {:induction false} UpConcat(a: seq<Event>, b: seq<Event>)
    requires !Up(a)
    ensures Up(a + b) == Up(b)
  {
    if b == [] {
      assert a + b == a;
    } else {
      assert (a + b)[..|a + b| - 1] == a + b[..|b| - 1];
      UpConcat(a, b[..|b| - 1]);
    }
  }

  /** Two stretches of the record, one after the other. */
  lemma RecordsJoin(a: seq<Event>, b: seq<Event>, catalog: seq<Id>)
    requires !Up(a) && OneAtATime(a) && OneAtATime(b) && NoHalt(a, catalog) && HaltsAtOnce(b, catalog)
    ensures Starts(a + b) == Starts(a) + Starts(b) && Up(a + b) == Up(b)
    ensures OneAtATime(a + b) && HaltsAtOnce(a + b, catalog) && (NoHalt(b, catalog) ==> NoHalt(a + b, catalog))
    ensures TunnelSeen(b) ==> TunnelSeen(a + b)
    ensures forall e :: e in b ==> e in a + b
  {
    StartsConcat(a, b);
    UpConcat(a, b);
    forall j | 0 <= j < |a + b| && (a + b)[j].Started?
      ensures !Up((a + b)[..j])
    {
      if j < |a| {
        assert (a + b)[..j] == a[..j];
      } else {
        assert (a + b)[..j] == a + b[..j - |a|];
        UpConcat(a, b[..j - |a|]);
      }
    }
    if TunnelSeen(b) {
      var i :| 0 <= i < |b| && b[i].Tunnel? && b[i].identity.Some?;
      assert (a + b)[|a| + i] == b[i];
    }
  }

  function Answer(asked: bool, e: Event): seq<Event> {
    if asked then [e] else []
  }

  ghost predicate NoStarts(said: seq<Event>) {
    forall i :: 0 <= i < |said| ==> !said[i].Started?
  }

  lemma {:induction false} NothingStarted(said: seq<Event>, catalog: seq<Id>)
    requires NoStarts(said)
    ensures Starts(said) == [] && !Up(said) && OneAtATime(said) && HaltsAtOnce(said, catalog)
  {
    if said != [] {
      NothingStarted(said[..|said| - 1], catalog);
    }
  }

  lemma {:induction false} UpUntilExit(id: Id, rest: seq<Event>)
    requires NoStarts(rest)
    ensures Up([Started(id)] + rest) <==> Exited(true) !in rest
  {
    var said := [Started(id)] + rest;
    if rest == [] {
      assert said[|said| - 1].Started?;
    } else {
      var n := |rest| - 1;
      assert said[..|said| - 1] == [Started(id)] + rest[..n] && said[|said| - 1] == rest[n];
      UpUntilExit(id, rest[..n]);
      assert rest == rest[..n] + [rest[n]];
    }
  }

  /** The record from a launch on. */
  lemma AfterLaunch(id: Id, rest: seq<Event>, catalog: seq<Id>)
    requires NoStarts(rest)
    ensures var said := [Started(id)] + rest;
            && Starts(said) == [id] && OneAtATime(said) && HaltsAtOnce(said, catalog) && (Up(said) <==> Exited(true) !in rest)
            && (NoHalt(rest, catalog) ==> NoHalt(said, catalog)) && (TunnelSeen(rest) ==> TunnelSeen(said))
            && forall e :: e in rest ==> e in said
  {
    var said := [Started(id)] + rest;
    UpUntilExit(id, rest);
    StartsConcat([Started(id)], rest);
    NothingStarted(rest, catalog);
    assert [Started(id)][..0] == [] && Starts([Started(id)]) == [id];
    assert said[1..] == rest && said[..0] == [];
    if TunnelSeen(rest) {
      var i :| 0 <= i < |rest| && rest[i].Tunnel? && rest[i].identity.Some?;
      assert said[i + 1] == rest[i];
    }
  }

  /** Profiles are started in turn: a first few of those to do, each when the one before has exited, and none when there is a
      reason not to. */
  ghost predicate InTurn(said: seq<Event>, todo: seq<Id>, catalog: seq<Id>) {
    Starts(said) <= todo && OneAtATime(said) && HaltsAtOnce(said, catalog)
  }

  /** A stretch of a search: not done when all there was to do has been started and has exited; and when it is done, why. */
  ghost predicate Heard(said: seq<Event>, todo: seq<Id>, done: bool, ending: Ending, catalog: seq<Id>, probes: seq<Probe>) {
    && InTurn(said, todo, catalog)
    && (!done ==> NoHalt(said, catalog) && !Up(said) && Starts(said) == todo)
    && (done && ending == Trying ==> NoHalt(said, catalog) && Starts(said) != [])
    && (done && ending == OnHold ==> Pause(true) in said)
    && (done && ending == NotWanted ==> Withdrawn(true) in said)
    && (done && ending == Direct ==> AllOk(probes) && TunnelSeen(said))
  }

  /** A launch, and what was heard after it: that a healthy tunnel takes over; that the engine stays up; that it exited. */
  lemma LaunchHeard(id: Id, rest: seq<Event>, done: bool, ending: Ending, catalog: seq<Id>, probes: seq<Probe>)
    requires NoStarts(rest) && (!done ==> NoHalt(rest, catalog) && Exited(true) in rest)
    requires done ==> match ending
                      case Direct => AllOk(probes) && TunnelSeen(rest)
                      case Trying => NoHalt(rest, catalog)
                      case OnHold => Pause(true) in rest
                      case _ => false
    ensures Heard([Started(id)] + rest, [id], done, ending, catalog, probes)
  {
    AfterLaunch(id, rest, catalog);
  }

  lemma QuietJoin(a: seq<Event>, b: seq<Event>, catalog: seq<Id>)
    requires NoStarts(a) && NoStarts(b)
    ensures NoStarts(a + b) && (NoHalt(a, catalog) && NoHalt(b, catalog) ==> NoHalt(a + b, catalog))
    ensures forall e :: e in a + b <==> e in a || e in b
  {
  }

  lemma HeardJoin(a: seq<Event>, before: seq<Id>, b: seq<Event>, id: Id, todo: seq<Id>, done: bool, ending: Ending,
                  catalog: seq<Id>, probes: seq<Probe>)
    requires Starts(a) == before && !Up(a) && OneAtATime(a) && NoHalt(a, catalog) && todo == before + [id]
    requires Heard(b, [id], done, ending, catalog, probes)
    ensures Heard(a + b, todo, done, ending, catalog, probes) && Starts(a + b) == before + Starts(b)
  {
    RecordsJoin(a, b, catalog);
    if Starts(b) != [] {
      assert Starts(b) == [id];
    }
  }

  /** A round that ends before its launch, and one with what came before the launch. */
  lemma PreludeHeard(said: seq<Event>, id: Id, ending: Ending, catalog: seq<Id>, probes: seq<Probe>)
    requires NoStarts(said) && (ending == NotWanted || ending == Direct)
    requires if ending == NotWanted then Withdrawn(true) in said else AllOk(probes) && TunnelSeen(said)
    ensures Heard(said, [id], true, ending, catalog, probes)
  {
    NothingStarted(said, catalog);
  }

  lemma RoundHeard(a: seq<Event>, b: seq<Event>, id: Id, done: bool, ending: Ending, catalog: seq<Id>, probes: seq<Probe>)
    requires NoStarts(a) && NoHalt(a, catalog) && Heard(b, [id], done, ending, catalog, probes)
    ensures Heard(a + b, [id], done, ending, catalog, probes)
  {
    NothingStarted(a, catalog);
    HeardJoin(a, [], b, id, [id], done, ending, catalog, probes);
  }

  /** One more round, of profile k of the order.  When the search ends with it, what was to do is the beginning of all there is
      to do. */
  lemma TurnHeard(said: seq<Event>, more: seq<Event>, order: seq<Id>, k: nat, attempted: set<Id>, done: bool, ending: Ending,
                  catalog: seq<Id>, probes: seq<Probe>)
    requires k < |order| && order[k] !in attempted
    requires Heard(said, Untried(order[..k], attempted), false, OnHold, catalog, probes)
    requires Heard(more, [order[k]], done, ending, catalog, probes)
    ensures done ==> Heard(said + more, Untried(order, attempted), true, ending, catalog, probes)
    ensures !done ==> Heard(said + more, Untried(order[..k + 1], attempted), false, OnHold, catalog, probes)
    ensures Starts(more) != [] ==> Starts(said + more) != [] && Starts(said + more)[|Starts(said + more)| - 1] == order[k]
  {
    var todo := Untried(order[..k], attempted);
    assert order[..k + 1][..k] == order[..k];
    HeardJoin(said, todo, more, order[k], todo + [order[k]], done, ending, catalog, probes);
    UntriedPrefix(order, attempted, k + 1);
  }

  lemma NothingHeard(order: seq<Id>, attempted: set<Id>, catalog: seq<Id>, probes: seq<Probe>)
    ensures Heard([], Untried(order[..0], attempted), false, OnHold, catalog, probes) && Starts([]) == [] && Ids(order[..0]) == {}
  {
    assert order[..0] == [];
  }

  lemma NextOfOrder(order: seq<Id>, k: nat, attempted: set<Id>)
    requires k < |order|
    ensures Ids(order[..k + 1]) == Ids(order[..k]) + {order[k]}
    ensures order[k] in attempted ==> Untried(order[..k + 1], attempted) == Untried(order[..k], attempted)
  {
    assert order[..k + 1][..k] == order[..k];
  }

  /** Every ending of a search has its reason. */
  ghost predicate Reason(said: seq<Event>, todo: seq<Id>, ending: Ending, catalog: seq<Id>, wanted: bool, probes: seq<Probe>) {
    match ending
    case NotWanted => !wanted || Withdrawn(true) in said
    case OnHold => Pause(true) in said || todo == []
    case Direct => AllOk(probes) && TunnelSeen(said)
    case Adopted => !NoHalt(said, catalog)
    case Trying => NoHalt(said, catalog) && Starts(said) != []
    case NothingStarts => NoHalt(said, catalog) && Starts(said) == todo && !Up(said)
  }

  lemma HeardHasReason(said: seq<Event>, todo: seq<Id>, ending: Ending, catalog: seq<Id>, probes: seq<Probe>)
    requires Heard(said, todo, true, ending, catalog, probes) && ending in {NotWanted, OnHold, Direct, Trying}
    ensures InTurn(said, todo, catalog) && Reason(said, todo, ending, catalog, true, probes)
  {
  }

  /** All there was to do has been done, and then an engine was still found running, or none. */
  lemma EndHasReason(said: seq<Event>, more: seq<Event>, todo: seq<Id>, ending: Ending, catalog: seq<Id>, probes: seq<Probe>)
    requires Heard(said, todo, false, OnHold, catalog, probes) && NoStarts(more) && NoHalt(more, catalog)
    requires ending == NothingStarts || (ending == OnHold && Starts(said) == [])
    ensures InTurn(said + more, todo, catalog) && Reason(said + more, todo, ending, catalog, true, probes)
  {
    NothingStarted(more, catalog);
    RecordsJoin(said, more, catalog);
  }

  /** The questions before the search, and the search. */
  lemma ReasonCarries(first: seq<Event>, said: seq<Event>, todo: seq<Id>, ending: Ending, catalog: seq<Id>, probes: seq<Probe>)
    requires NoStarts(first) && NoHalt(first, catalog)
    requires InTurn(said, todo, catalog) && Reason(said, todo, ending, catalog, true, probes) && ending != Adopted
    ensures InTurn(first + said, todo, catalog) && Reason(first + said, todo, ending, catalog, true, probes)
    ensures Starts(first + said) == Starts(said)
    ensures forall e :: e in first || e in said <==> e in first + said
  {
    NothingStarted(first, catalog);
    RecordsJoin(first, said, catalog);
  }

  /** Nothing was started, for a reason. */
  lemma NotLaunchedHasReason(said: seq<Event>, todo: seq<Id>, ending: Ending, lease: Option<Id>, catalog: seq<Id>, wanted: bool,
                             probes: seq<Probe>)
    requires NoStarts(said) && ending in {NotWanted, OnHold, Direct, Adopted}
    requires ending == NotWanted ==> !wanted
    requires ending == OnHold ==> Pause(true) in said
    requires ending == Direct ==> AllOk(probes) && TunnelSeen(said)
    requires ending == Adopted ==> Lease(lease) in said && lease.Some? && lease.value in catalog
    ensures InTurn(said, todo, catalog) && Reason(said, todo, ending, catalog, wanted, probes)
  {
    NothingStarted(said, catalog);
    if ending == Adopted {
      var i :| 0 <= i < |said| && said[i] == Lease(lease);
      assert Halting(said[i], catalog);
    }
  }

  /** A search that is wanted and has no reason not to launch launches the first profile to do; and it ends with an engine that
      is being tried, or with none because every profile to do has been started and has exited. */
  lemma WantedSearchLaunches(said: seq<Event>, todo: seq<Id>, ending: Ending, catalog: seq<Id>, probes: seq<Probe>)
    requires InTurn(said, todo, catalog) && Reason(said, todo, ending, catalog, true, probes)
    requires NoHalt(said, catalog) && !(AllOk(probes) && TunnelSeen(said))
    ensures todo != [] ==> Starts(said) != [] && Starts(said)[0] == todo[0] && ending in {Trying, NothingStarts}
    ensures todo == [] ==> Starts(said) == [] && ending in {OnHold, NothingStarts}
    ensures ending == NothingStarts ==> Starts(said) == todo && !Up(said)
  {
  }

  /** The profiles of an order that have not been attempted. */
  function Untried(order: seq<Id>, attempted: set<Id>): seq<Id> {
    if order == [] then []
    else
      var id := order[|order| - 1];
      Untried(order[..|order| - 1], attempted) + if id in attempted then [] else [id]
  }

  lemma {:induction false} UntriedPrefix(order: seq<Id>, attempted: set<Id>, k: nat)
    requires k <= |order|
    ensures Untried(order[..k], attempted) <= Untried(order, attempted)
  {
    if k == |order| {
      assert order[..k] == order;
    } else {
      UntriedPrefix(order[..|order| - 1], attempted, k);
      assert order[..|order| - 1][..k] == order[..k];
    }
  }

  lemma {:induction false} CountNoRepeats(s: seq<Id>)
    requires |Ids(s)| == |s|
    ensures NoRepeats(s)
  {
    if s != [] {
      IdsCount(s[..|s| - 1]);
      CountNoRepeats(s[..|s| - 1]);
    }
  }

  lemma OrderNoRepeats(catalog: seq<Id>, next: Option<Id>)
    requires NoRepeats(catalog)
    ensures NoRepeats(Order(catalog, next))
  {
    OrderIsPermutation(catalog, next);
    OrderListsAll(catalog, next);
    IdsCount(catalog);
    assert |multiset(Order(catalog, next))| == |multiset(catalog)|;
    CountNoRepeats(Order(catalog, next));
  }

  lemma {:induction false} NotAmongEarlier(s: seq<Id>, k: nat)
    requires NoRepeats(s) && k < |s|
    ensures s[k] !in Ids(s[..k])
  {
    if k < |s| - 1 {
      NotAmongEarlier(s[..|s| - 1], k);
      assert s[..|s| - 1][..k] == s[..k];
    }
  }

  /** What the supervisor learns from outside, and what it does there. */
  class World {
    ghost var log: seq<Event>

    constructor ()
      ensures log == []
    {
      log := [];
    }

    /** FindActiveTunnel: the identity of the tunnel, if one is up. */
    method FindActiveTunnel() returns (t: Option<string>)
      modifies this
      ensures log == old(log) + [Tunnel(t)]
    {
      t := *;
      log := log + [Tunnel(t)];
    }

    method Check() returns (probes: seq<Probe>) {
      probes := *;
    }

    method Now() returns (t: nat) {
      t := *;
    }

    /** A driver conflict has put launches on hold. */
    method Paused() returns (b: bool)
      modifies this
      ensures log == old(log) + [Pause(b)]
    {
      b := *;
      log := log + [Pause(b)];
    }

    /** The stored session lease names a live engine of this profile. */
    method FindLease() returns (id: Option<Id>)
      modifies this
      ensures log == old(log) + [Lease(id)]
    {
      id := *;
      log := log + [Lease(id)];
    }

    /** Whether the running engine has exited. */
    method HasExited() returns (b: bool)
      modifies this
      ensures log == old(log) + [Exited(b)]
    {
      b := *;
      log := log + [Exited(b)];
    }

    /** Whether the wish to run has been withdrawn. */
    method IsWithdrawn() returns (b: bool)
      modifies this
      ensures log == old(log) + [Withdrawn(b)]
    {
      b := *;
      log := log + [Withdrawn(b)];
    }

    /** Starts the process of a profile. */
    method Run(id: Id)
      modifies this
      ensures log == old(log) + [Started(id)]
    {
      log := log + [Started(id)];
    }
  }

  class Supervisor {
    const catalog: seq<Id>
    const world: World
    const recovery: SessionRecovery.Policy
    const search: Search

    var engine: Option<Id>            // _engine and _activeProfile, which are set and cleared together
    var alive: bool                   // its process has not exited
    var directMode: bool
    var desiredRunning: bool
    var lastProbes: seq<Probe>
    var activeTunnelIdentity: Option<string>
    var nextProfile: Option<Id>       // profile rotation
    var qualificationPending: bool
    var qualificationFailures: nat
    var qualificationStartedAt: nat
    var nextQualificationAt: nat
    var nextProfileSearchAt: nat
    var attempted: set<Id>
    ghost var launched: seq<Id>       // profiles the search has launched since the cycle was last reset
    ghost var restored: Option<Id>    // the best profile, launched again at the end of the cycle
    ghost var cycles: seq<Cycle>      // the cycles closed so far

    predicate Live()
      reads this
    {
      engine.Some? && alive
    }

    /** The attempted profiles are of the catalog, and cover everything launched in this cycle, each profile once. */
    ghost predicate CycleValid()
      reads this
    {
      NoRepeats(launched) && Ids(launched) <= attempted <= Ids(catalog) && ClosedCycles(cycles, |catalog|)
    }

    ghost predicate Core()
      reads this, recovery, search
    {
      && catalog != [] && NoRepeats(catalog) && CycleValid() && recovery.Valid() && search.Valid()
      && ScoresIn(search.scores, catalog) && (engine.Some? ==> engine.value in catalog)
    }

    /** What holds throughout a step, except while the best profile is being restored. */
    ghost predicate Inner()
      reads this, recovery, search
    {
      Core() && restored.None?
    }

    /** What holds between steps: direct mode and a live engine exclude each other; and while the engine is wanted,
        direct mode rests on healthy probes unless no tunnel is known any more. */
    ghost predicate Valid()
      reads this, recovery, search
    {
      && Inner() && !(directMode && Live())
      && (directMode && desiredRunning ==> AllOk(lastProbes) || activeTunnelIdentity.None?)
    }

    constructor (catalog: seq<Id>, world: World)
      requires catalog != [] && NoRepeats(catalog)
      ensures Valid() && !Live() && this.catalog == catalog && cycles == []
    {
      this.catalog, this.world := catalog, world;
      recovery := new SessionRecovery.Policy();
      search := new Search();
      engine, alive, directMode, desiredRunning := None, false, false, false;
      lastProbes, activeTunnelIdentity, nextProfile := [], None, None;
      qualificationPending, qualificationFailures := false, 0;
      qualificationStartedAt, nextQualificationAt, nextProfileSearchAt := 0, 0, 0;
      attempted, launched, restored, cycles := {}, [], None, [];
    }

    // ---------- the engine process ----------

    /** IsRunning: the engine may have exited at any time; then the rotation has moved past its profile. */
    method IsRunning() returns (b: bool)
      requires Inner()
      modifies this`alive, this`nextProfile, world
      ensures Inner() && b == Live() && (alive ==> old(alive))
      ensures world.log == old(world.log) + Answer(old(Live()), Exited(!b))
      ensures nextProfile == if old(Live()) && !b then Some(NextAfter(catalog, engine.value)) else old(nextProfile)
    {
      if Live() {
        var exited := world.HasExited();
        if exited {
          alive := false;
          nextProfile := Some(NextAfter(catalog, engine.value));
        }
      }
      return Live();
    }

    /** StopInternalAsync */
    method StopInternal()
      requires Inner()
      modifies this`engine, this`alive
      ensures Inner() && engine.None? && !Live()
    {
      engine, alive := None, false;
    }

    /** _desiredRunning, which StopAsync clears before it waits for its turn. */
    method Wanted() returns (b: bool)
      requires Inner()
      modifies this`desiredRunning, world
      ensures Inner() && b == desiredRunning && (b ==> old(desiredRunning))
      ensures world.log == old(world.log) + Answer(old(desiredRunning), Withdrawn(!b))
    {
      if desiredRunning {
        var withdrawn := world.IsWithdrawn();
        if withdrawn {
          desiredRunning := false;
        }
      }
      return desiredRunning;
    }

    /** StartProfile during a search: only for a profile that has not been launched in this cycle. */
    method Launch(id: Id)
      requires Inner() && id in catalog && id in attempted && id !in Ids(launched) && !directMode
      modifies this`engine, this`alive, this`launched, world
      ensures Inner() && engine == Some(id) && Live() && launched == old(launched) + [id]
      ensures world.log == old(world.log) + [Started(id)]
    {
      world.Run(id);
      engine, alive := Some(id), true;
      LogLaunch(id);
    }

    ghost method LogLaunch(id: Id)
      requires Inner() && id in attempted && id !in Ids(launched)
      modifies this`launched
      ensures Inner() && launched == old(launched) + [id]
    {
      IdsPush(launched, id);
      launched := launched + [id];
    }

    /** StartProfile of the best profile after an exhausted search. */
    method Restore(id: Id)
      requires Inner() && id in catalog && !directMode
      modifies this`engine, this`alive, this`restored, world
      ensures Core() && engine == Some(id) && Live() && restored == Some(id)
    {
      world.Run(id);
      engine, alive, restored := Some(id), true, Some(id);
    }

    // ---------- bookkeeping ----------

    /** The cycle is over, and with it what it has launched is on record. */
    method CompleteStartupQualification()
      requires Core()
      modifies this`qualificationPending, this`qualificationFailures, this`nextQualificationAt, this`attempted, this`launched
      modifies this`restored, this`cycles
      ensures Inner() && !qualificationPending && attempted == {} && launched == []
      ensures cycles == old(cycles) + [Cycle(old(launched), old(restored))]
    {
      LaunchedFew(launched, attempted, catalog);
      CycleCloses(cycles, Cycle(launched, restored), |catalog|);
      EmptyCycle();
      qualificationPending, qualificationFailures, nextQualificationAt := false, 0, 0;
      attempted, launched, restored, cycles := {}, [], None, cycles + [Cycle(launched, restored)];
    }

    method ResetStartupCycle()
      requires Inner()
      modifies this, search
      ensures Inner() && attempted == {} && launched == [] && search.scores == [] && lastProbes == []
      ensures unchanged(this`engine, this`alive, this`directMode, this`desiredRunning, this`activeTunnelIdentity)
    {
      CompleteStartupQualification();
      search.Reset();
      nextProfileSearchAt, lastProbes := 0, [];
    }

    method MarkStartupQualificationPending()
      requires Inner()
      modifies this`qualificationPending, this`qualificationFailures, this`qualificationStartedAt, this`nextQualificationAt, this`lastProbes
      ensures Inner() && qualificationPending && lastProbes == []
    {
      var now := world.Now();
      qualificationPending, qualificationFailures, qualificationStartedAt := true, 0, now;
      nextQualificationAt, lastProbes := now + INITIAL_HEALTH_INTERVAL, [];
    }

    method UpdateCompatibility()
      requires Inner()
      modifies this`activeTunnelIdentity, world
      ensures Inner() && world.log == old(world.log) + [Tunnel(activeTunnelIdentity)]
    {
      activeTunnelIdentity := world.FindActiveTunnel();
    }

    method MovePast(id: Id)
      requires Inner()
      modifies this`nextProfile
      ensures Inner() && nextProfile == Some(NextAfter(catalog, id))
    {
      nextProfile := Some(NextAfter(catalog, id));
    }

    // ---------- the search ----------

    /** DeferToActiveTunnelAsync: a healthy tunnel takes over unless an engine runs. */
    method DeferToActiveTunnel() returns (deferred: bool, ghost said: seq<Event>)
      requires Inner() && !directMode
      modifies this, world
      ensures Inner() && directMode == deferred && world.log == old(world.log) + said
      ensures deferred ==> !Live() && AllOk(lastProbes) && launched == [] && TunnelSeen(said)
      ensures !deferred ==> attempted == old(attempted) && launched == old(launched) && engine == old(engine)
      ensures lastProbes == old(lastProbes) && desiredRunning == old(desiredRunning)
      ensures !deferred ==> (Live() ==> old(Live())) && (old(Live()) && !Live() <==> Exited(true) in said)
      ensures !deferred ==> nextProfile == if old(Live()) && !Live() then Some(NextAfter(catalog, engine.value)) else old(nextProfile)
      ensures NoStarts(said) && NoHalt(said, catalog)
      ensures TunnelSeen(said) && AllOk(lastProbes) && !old(Live()) ==> deferred
    {
      var tunnel := world.FindActiveTunnel();
      ghost var was := Live();
      var running := IsRunning();
      said := [Tunnel(tunnel)] + Answer(was, Exited(!running));
      assert said[0] == Tunnel(tunnel);
      if !CanUseDirectMode(tunnel, lastProbes, running) {
        return false, said;
      }
      running := IsRunning();
      assert !running;    // the stop of a running engine at this point in the source is never reached
      GoDirect(tunnel);
      deferred := true;
    }

    /** Traffic goes through the tunnel; the search, if there was one, is over. */
    method GoDirect(tunnel: Option<string>)
      requires Inner() && !Live() && AllOk(lastProbes)
      modifies this
      ensures Valid() && directMode && !Live() && launched == [] && lastProbes == old(lastProbes) && desiredRunning == old(desiredRunning)
    {
      directMode := true;
      CompleteStartupQualification();
      activeTunnelIdentity := tunnel;
    }

    /** What a round of the loop in StartBestInternalAsync leaves: done with a snapshot, or ready for the next profile. */
    ghost predicate Round(id: Id, done: bool, ending: Ending)
      reads this, recovery, search
    {
      && Inner() && (done ==> Valid() && ending != NothingStarts) && (!done ==> !directMode && !Live())
      && (done && ending == Direct ==> directMode) && (done && ending == Trying ==> engine == Some(id) && id in attempted && alive)
    }

    /** The launched profile stays up. */
    method KeepTrying(id: Id) returns (s: Snapshot)
      requires Inner() && !directMode && engine == Some(id) && id in attempted && alive
      modifies this, world
      ensures Round(id, true, Trying) && world.log == old(world.log) + [Tunnel(activeTunnelIdentity)]
    {
      nextProfile := Some(id);
      MarkStartupQualificationPending();
      UpdateCompatibility();
      return Recovering;
    }

    /** The launched profile has exited at once; a driver conflict may put the search on hold. */
    method GiveUpOn(id: Id) returns (onHold: bool, ghost said: seq<Event>)
      requires Inner() && !directMode && !Live()
      modifies this`nextProfile, this`activeTunnelIdentity, world
      ensures Round(id, onHold, OnHold) && world.log == old(world.log) + said
      ensures said == [Pause(onHold)] + (if onHold then [Tunnel(activeTunnelIdentity)] else [])
    {
      MovePast(id);
      onHold := world.Paused();
      said := [Pause(onHold)];
      if onHold {
        UpdateCompatibility();
        said := said + [Tunnel(activeTunnelIdentity)];
      }
    }

    /** Whether the launched engine stays up. */
    method Watch(id: Id) returns (done: bool, s: Snapshot, ghost ending: Ending, ghost said: seq<Event>)
      requires Inner() && !directMode && engine == Some(id) && id in attempted
      modifies this, world
      ensures Round(id, done, ending) && world.log == old(world.log) + said && NoStarts(said)
      ensures if done then ending == OnHold || ending == Trying
              else attempted == old(attempted) && lastProbes == old(lastProbes) && desiredRunning == old(desiredRunning)
      ensures !done || ending == Trying ==> NoHalt(said, catalog)
      ensures done && ending == OnHold ==> Pause(true) in said
      ensures !done && old(Live()) ==> Exited(true) in said
    {
      ghost var was, verdict := Live(), [];
      var running := IsRunning();
      said := Answer(was, Exited(!running));
      if running {
        s := KeepTrying(id);
        return true, s, Trying, said + [Tunnel(activeTunnelIdentity)];
      }
      done, verdict := GiveUpOn(id);
      s, ending := Recovering, OnHold;
      said := said + verdict;
    }

    /** The launch, after which a healthy tunnel still comes first. */
    method LaunchUnlessDeferred(id: Id) returns (done: bool, ghost rest: seq<Event>)
      requires Inner() && !directMode && id in catalog && id in attempted && id !in Ids(launched)
      modifies this, world
      ensures Inner() && (done ==> Valid()) && directMode == done && NoStarts(rest)
      ensures world.log == old(world.log) + ([Started(id)] + rest)
      ensures lastProbes == old(lastProbes) && desiredRunning == old(desiredRunning)
      ensures done ==> AllOk(lastProbes) && TunnelSeen(rest)
      ensures !done ==> engine == Some(id) && attempted == old(attempted) && NoHalt(rest, catalog) && (Live() || Exited(true) in rest)
    {
      Launch(id);
      done, rest := DeferToActiveTunnel();
    }

    method LaunchAndWatch(id: Id) returns (done: bool, s: Snapshot, ghost ending: Ending, ghost said: seq<Event>)
      requires Inner() && !directMode && id in catalog && id in attempted && id !in Ids(launched)
      modifies this, world
      ensures Round(id, done, ending) && world.log == old(world.log) + said
      ensures Heard(said, [id], done, ending, catalog, old(lastProbes))
      ensures if done then ending in {OnHold, Direct, Trying}
              else attempted == old(attempted) && lastProbes == old(lastProbes) && desiredRunning == old(desiredRunning)
    {
      ghost var rest, more;
      done, rest := LaunchUnlessDeferred(id);
      s, ending := Ready, Direct;
      if !done {
        done, s, ending, more := Watch(id);
        QuietJoin(rest, more, catalog);
        rest := rest + more;
      }
      LaunchHeard(id, rest, done, ending, catalog, old(lastProbes));
      said := [Started(id)] + rest;
    }

    /** What comes before the launch: the wish may be withdrawn, and a healthy tunnel comes first. */
    method Prepare(id: Id) returns (done: bool, s: Snapshot, ghost ending: Ending, ghost said: seq<Event>)
      requires Inner() && !directMode && id in catalog && id !in attempted && desiredRunning
      modifies this, world
      ensures Inner() && (done ==> Valid()) && world.log == old(world.log) + said && NoStarts(said)
      ensures done ==> ending == NotWanted || ending == Direct
      ensures done && ending == NotWanted ==> !desiredRunning && Withdrawn(true) in said
      ensures done && ending == Direct ==> directMode && AllOk(old(lastProbes)) && TunnelSeen(said)
      ensures !done ==> !directMode && attempted == old(attempted) + {id} && id !in Ids(launched) && NoHalt(said, catalog)
      ensures !done ==> lastProbes == old(lastProbes) && desiredRunning
    {
      var wanted := Wanted();
      said := [Withdrawn(!wanted)];
      if !wanted {
        return true, Stopped, NotWanted, said;
      }
      ghost var more;
      Attempt(id);
      StopInternal();
      done, more := DeferToActiveTunnel();
      QuietJoin(said, more, catalog);
      assert (said + more)[1..] == more;
      s, ending, said := Ready, Direct, said + more;
    }

    /** One round of the loop in StartBestInternalAsync; not done when the engine exits right after its launch. */
    method TryProfile(id: Id) returns (done: bool, s: Snapshot, ghost ending: Ending, ghost said: seq<Event>)
      requires Inner() && !directMode && id in catalog && id !in attempted && desiredRunning
      modifies this, world
      ensures Round(id, done, ending) && world.log == old(world.log) + said
      ensures Heard(said, [id], done, ending, catalog, old(lastProbes))
      ensures !done ==> attempted == old(attempted) + {id} && lastProbes == old(lastProbes) && desiredRunning
      ensures done ==> ending in {NotWanted, OnHold, Direct, Trying} && (ending == NotWanted ==> !desiredRunning)
    {
      ghost var more;
      done, s, ending, said := Prepare(id);
      if done {
        PreludeHeard(said, id, ending, catalog, old(lastProbes));
        return;
      }
      done, s, ending, more := LaunchAndWatch(id);
      RoundHeard(said, more, id, done, ending, catalog, old(lastProbes));
      said := said + more;
    }

    method Attempt(id: Id)
      requires Inner() && id in catalog
      modifies this`attempted
      ensures Inner() && attempted == old(attempted) + {id}
    {
      IdsAre(catalog, id);
      attempted := attempted + {id};
    }

    /** The first questions of a search: whether it is wanted, and whether launches are on hold. */
    method AskFirst() returns (done: bool, s: Snapshot, ghost ending: Ending, ghost said: seq<Event>)
      requires Inner() && !directMode
      modifies this`activeTunnelIdentity, world
      ensures Inner() && world.log == old(world.log) + said && NoStarts(said) && Exited(true) !in said
      ensures done ==> ending == NotWanted || ending == OnHold
      ensures done && ending == NotWanted ==> !desiredRunning
      ensures done && ending == OnHold ==> Pause(true) in said
      ensures !done ==> desiredRunning && NoHalt(said, catalog)
    {
      UpdateCompatibility();
      said := [Tunnel(activeTunnelIdentity)];
      if !desiredRunning {
        return true, Stopped, NotWanted, said;
      }
      var paused := world.Paused();
      said := said + [Pause(paused)];
      return paused, Recovering, OnHold, said;
    }

    /** Why a search need not launch anything: not wanted, on hold, a healthy tunnel, or an engine that still runs. */
    method NeedNotLaunch() returns (done: bool, s: Snapshot, ghost ending: Ending, ghost said: seq<Event>)
      requires Inner() && !directMode
      modifies this, world
      ensures Inner() && (done ==> Valid()) && world.log == old(world.log) + said && NoStarts(said)
      ensures done ==> ending in {NotWanted, OnHold, Direct, Adopted}
      ensures done && ending == NotWanted ==> !desiredRunning && !old(desiredRunning)
      ensures done && ending == OnHold ==> Pause(true) in said
      ensures done && ending == Direct ==> directMode && AllOk(old(lastProbes)) && TunnelSeen(said)
      ensures done && ending == Adopted ==> Live() && engine.value in catalog && Lease(engine) in said
      ensures !done ==> !directMode && attempted == old(attempted) && lastProbes == old(lastProbes) && desiredRunning
      ensures !done ==> NoHalt(said, catalog) && (Exited(true) in said ==> old(Live()))
      ensures !done ==> nextProfile == if Exited(true) in said then Some(NextAfter(catalog, old(engine).value)) else old(nextProfile)
    {
      done, s, ending, said := AskFirst();
      if done {
        return;
      }
      ghost var first, more := said, [];
      done, more := DeferToActiveTunnel();
      said := first + more;
      QuietJoin(first, more, catalog);
      if done {
        assert said[|first|..] == more;
        return true, Ready, Direct, said;
      }
      first, ending, s := said, Adopted, Recovering;
      done, more := Adopt();
      said := first + more;
      QuietJoin(first, more, catalog);
    }

    /** TryAdoptSessionEngine */
    method Adopt() returns (done: bool, ghost said: seq<Event>)
      requires Inner() && !directMode
      modifies this, world
      ensures Inner() && !directMode && attempted == old(attempted) && desiredRunning == old(desiredRunning)
      ensures world.log == old(world.log) + said && NoStarts(said) && Exited(true) !in said
      ensures done ==> Live() && engine.value in catalog && Lease(engine) in said
      ensures !done ==> NoHalt(said, catalog) && nextProfile == old(nextProfile) && lastProbes == old(lastProbes)
    {
      var lease := world.FindLease();
      said := [Lease(lease)];
      done := lease.Some? && lease.value in catalog;
      if done {
        TakeOver(lease.value);
        said := said + [Tunnel(activeTunnelIdentity)];
      }
    }

    method TakeOver(id: Id)
      requires Inner() && !directMode && id in catalog
      modifies this, world
      ensures Inner() && !directMode && attempted == old(attempted) && desiredRunning == old(desiredRunning)
      ensures engine == Some(id) && Live() && world.log == old(world.log) + [Tunnel(activeTunnelIdentity)]
    {
      engine, alive, nextProfile := Some(id), true, Some(id);
      MarkStartupQualificationPending();
      UpdateCompatibility();
    }

    /** StartBestInternalAsync: launch profiles of this cycle that have not been tried, until one stays up.  The record of the call
        shows what it was told and what it started: untried profiles in the order of the rotation, each once the one before has
        exited, none once there is a reason not to; and every ending has its reason. */
    method StartBestInternal() returns (s: Snapshot, ghost ending: Ending, ghost said: seq<Event>, ghost next: Option<Id>)
      requires Inner() && !directMode
      modifies this, search, world
      ensures Valid() && search.scores == old(search.scores) && search.voiceRequired == old(search.voiceRequired)
      ensures world.log == old(world.log) + said
      ensures next == old(nextProfile) || (old(Live()) && next == Some(NextAfter(catalog, old(engine).value)) && Exited(true) in said)
      ensures InTurn(said, Untried(Order(catalog, next), old(attempted)), catalog)
      ensures Reason(said, Untried(Order(catalog, next), old(attempted)), ending, catalog, old(desiredRunning), old(lastProbes))
      ensures ending == NothingStarts ==> engine.None? && attempted == Ids(catalog)
      ensures ending == NotWanted ==> !desiredRunning
      ensures ending == OnHold && Pause(true) !in said ==> Live()
      ensures ending == Direct ==> directMode
      ensures ending == Adopted ==> Live() && engine.value in catalog && Lease(engine) in said
      ensures ending == Trying ==> Live() && engine.value in attempted && engine.value !in old(attempted)
      ensures ending == Trying ==> Starts(said) != [] && engine.value == Starts(said)[|Starts(said)| - 1]
    {
      var done;
      ghost var probes, attempted0, wanted := lastProbes, attempted, desiredRunning;
      done, s, ending, said := NeedNotLaunch();
      next := old(nextProfile);
      if done {
        NotLaunchedHasReason(said, Untried(Order(catalog, next), attempted0), ending, engine, catalog, wanted, probes);
        return;
      }
      next := nextProfile;
      s, ending, said := SearchFrom(said, old(world.log));
    }

    /** The search, after the first questions of the record. */
    method SearchFrom(ghost first: seq<Event>, ghost log0: seq<Event>) returns (s: Snapshot, ghost ending: Ending, ghost said: seq<Event>)
      requires Inner() && !directMode && desiredRunning && world.log == log0 + first && NoStarts(first) && NoHalt(first, catalog)
      modifies this, world
      ensures Valid() && world.log == log0 + said && first <= said
      ensures ending in {NotWanted, OnHold, Direct, Trying, NothingStarts}
      ensures InTurn(said, Untried(Order(catalog, old(nextProfile)), old(attempted)), catalog)
      ensures Reason(said, Untried(Order(catalog, old(nextProfile)), old(attempted)), ending, catalog, true, old(lastProbes))
      ensures ending == NothingStarts ==> engine.None? && attempted == Ids(catalog)
      ensures ending == NotWanted ==> !desiredRunning
      ensures ending == OnHold && Pause(true) !in said ==> Live()
      ensures ending == Direct ==> directMode
      ensures ending == Trying ==> Live() && engine.value in attempted && engine.value !in old(attempted)
      ensures ending == Trying ==> Starts(said) != [] && engine.value == Starts(said)[|Starts(said)| - 1]
    {
      ghost var more;
      s, ending, more := SearchOn();
      ReasonCarries(first, more, Untried(Order(catalog, old(nextProfile)), old(attempted)), ending, catalog, old(lastProbes));
      said := first + more;
      assert log0 + first + more == log0 + said;
    }

    /** The loop, and what is left when no profile stays up. */
    method SearchOn() returns (s: Snapshot, ghost ending: Ending, ghost said: seq<Event>)
      requires Inner() && !directMode && desiredRunning
      modifies this, world
      ensures Valid() && world.log == old(world.log) + said
      ensures ending in {NotWanted, OnHold, Direct, Trying, NothingStarts}
      ensures InTurn(said, Untried(Order(catalog, old(nextProfile)), old(attempted)), catalog)
      ensures Reason(said, Untried(Order(catalog, old(nextProfile)), old(attempted)), ending, catalog, true, old(lastProbes))
      ensures ending == NothingStarts ==> engine.None? && attempted == Ids(catalog)
      ensures ending == NotWanted ==> !desiredRunning
      ensures ending == OnHold && Pause(true) !in said ==> Live()
      ensures ending == Direct ==> directMode
      ensures ending == Trying ==> Live() && engine.value in attempted && engine.value !in old(attempted)
      ensures ending == Trying ==> Starts(said) != [] && engine.value == Starts(said)[|Starts(said)| - 1]
    {
      ghost var todo := Untried(Order(catalog, nextProfile), attempted);
      var done;
      done, s, ending, said := TryAll();
      if done {
        HeardHasReason(said, todo, ending, catalog, old(lastProbes));
        return;
      }
      s, ending, said := EndSearch(todo, said, old(world.log), old(lastProbes));
    }

    /** What is left when no profile stays up, at the end of the record of the search. */
    method EndSearch(ghost todo: seq<Id>, ghost before: seq<Event>, ghost log0: seq<Event>, ghost probes: seq<Probe>)
      returns (s: Snapshot, ghost ending: Ending, ghost said: seq<Event>)
      requires Inner() && !directMode && attempted == Ids(catalog) && world.log == log0 + before
      requires Heard(before, todo, false, OnHold, catalog, probes) && (Starts(before) != [] ==> !Live())
      modifies this, world
      ensures Valid() && world.log == log0 + said && ending in {OnHold, NothingStarts}
      ensures InTurn(said, todo, catalog) && Reason(said, todo, ending, catalog, true, probes)
      ensures if ending == OnHold then Live() else engine.None? && attempted == Ids(catalog)
    {
      ghost var more;
      s, ending, more := NoneStayedUp();
      EndHasReason(before, more, todo, ending, catalog, probes);
      said := before + more;
      assert log0 + before + more == log0 + said;
    }

    /** Round k of the loop, for a profile that has not been attempted. */
    method Turn(order: seq<Id>, k: nat, ghost attempted0: set<Id>, ghost before: seq<Event>, ghost log0: seq<Event>)
      returns (done: bool, s: Snapshot, ghost ending: Ending, ghost said: seq<Event>)
      requires Inner() && !directMode && desiredRunning && k < |order| && order[k] in catalog && order[k] !in attempted
      requires attempted0 <= attempted && world.log == log0 + before
      requires Heard(before, Untried(order[..k], attempted0), false, OnHold, catalog, lastProbes)
      modifies this, world
      ensures Round(order[k], done, ending) && world.log == log0 + said
      ensures done ==> Heard(said, Untried(order, attempted0), true, ending, catalog, old(lastProbes))
      ensures !done ==> Heard(said, Untried(order[..k + 1], attempted0), false, OnHold, catalog, old(lastProbes))
      ensures done && ending == Trying ==> Starts(said) != [] && engine.value == Starts(said)[|Starts(said)| - 1]
      ensures !done ==> attempted == old(attempted) + {order[k]} && lastProbes == old(lastProbes) && desiredRunning
      ensures done ==> ending in {NotWanted, OnHold, Direct, Trying} && (ending == NotWanted ==> !desiredRunning)
    {
      ghost var more;
      done, s, ending, more := TryProfile(order[k]);
      TurnHeard(before, more, order, k, attempted0, done, ending, catalog, old(lastProbes));
      said := before + more;
      assert log0 + before + more == log0 + said;
    }

    /** The loop. */
    method TryAll() returns (done: bool, s: Snapshot, ghost ending: Ending, ghost said: seq<Event>)
      requires Inner() && !directMode && desiredRunning
      modifies this, world
      ensures Inner() && (done ==> Valid()) && (!done ==> !directMode && attempted == Ids(catalog))
      ensures world.log == old(world.log) + said
      ensures done ==> Heard(said, Untried(Order(catalog, old(nextProfile)), old(attempted)), true, ending, catalog, old(lastProbes))
      ensures !done ==> Heard(said, Untried(Order(catalog, old(nextProfile)), old(attempted)), false, OnHold, catalog, old(lastProbes))
      ensures done ==> ending in {NotWanted, OnHold, Direct, Trying} && (ending == NotWanted ==> !desiredRunning)
      ensures done && ending == Direct ==> directMode
      ensures done && ending == Trying ==> Live() && engine.value in attempted && engine.value !in old(attempted)
      ensures done && ending == Trying ==> Starts(said) != [] && engine.value == Starts(said)[|Starts(said)| - 1]
      ensures !done && Starts(said) != [] ==> !Live()
    {
      var order := Order(catalog, nextProfile);
      OrderInCatalog(catalog, nextProfile);
      OrderNoRepeats(catalog, nextProfile);
      done, s, ending, said := TryInOrder(order);
    }

    method TryInOrder(order: seq<Id>) returns (done: bool, s: Snapshot, ghost ending: Ending, ghost said: seq<Event>)
      requires Inner() && !directMode && desiredRunning && NoRepeats(order) && Ids(order) == Ids(catalog)
      requires forall i :: 0 <= i < |order| ==> order[i] in catalog
      modifies this, world
      ensures Inner() && (done ==> Valid()) && (!done ==> !directMode && attempted == Ids(catalog))
      ensures world.log == old(world.log) + said
      ensures done ==> Heard(said, Untried(order, old(attempted)), true, ending, catalog, old(lastProbes))
      ensures !done ==> Heard(said, Untried(order, old(attempted)), false, OnHold, catalog, old(lastProbes))
      ensures done ==> ending in {NotWanted, OnHold, Direct, Trying} && (ending == NotWanted ==> !desiredRunning)
      ensures done && ending == Direct ==> directMode
      ensures done && ending == Trying ==> Live() && engine.value in attempted && engine.value !in old(attempted)
      ensures done && ending == Trying ==> Starts(said) != [] && engine.value == Starts(said)[|Starts(said)| - 1]
      ensures !done && Starts(said) != [] ==> !Live()
    {
      ghost var attempted0, probes := attempted, lastProbes;
      var k := 0;
      s, ending, said := Recovering, OnHold, [];
      NothingHeard(order, attempted0, catalog, probes);
      while k < |order|
        invariant k <= |order| && Inner() && !directMode && desiredRunning && lastProbes == probes
        invariant attempted == attempted0 + Ids(order[..k])
        invariant world.log == old(world.log) + said
        invariant Heard(said, Untried(order[..k], attempted0), false, OnHold, catalog, probes)
        invariant Starts(said) != [] ==> !Live()
      {
        NotAmongEarlier(order, k);
        NextOfOrder(order, k, attempted0);
        if order[k] !in attempted {
          done, s, ending, said := Turn(order, k, attempted0, said, old(world.log));
          if done {
            return;
          }
        }
        k := k + 1;
      }
      assert order[..k] == order;
      done, ending := false, OnHold;
    }

    method NoneStayedUp() returns (s: Snapshot, ghost ending: Ending, ghost said: seq<Event>)
      requires Inner() && !directMode && attempted == Ids(catalog)
      modifies this, world
      ensures Valid() && !directMode && attempted == Ids(catalog) && ending in {OnHold, NothingStarts}
      ensures ending == NothingStarts ==> engine.None?
      ensures ending == OnHold ==> Live() && old(Live())
      ensures world.log == old(world.log) + said && NoStarts(said) && NoHalt(said, catalog)
    {
      ghost var was := Live();
      var running := IsRunning();
      said := Answer(was, Exited(!running));
      if running {
        UpdateCompatibility();
        return Degraded, OnHold, said + [Tunnel(activeTunnelIdentity)];
      }
      StopInternal();
      UpdateCompatibility();
      return Degraded, NothingStarts, said + [Tunnel(activeTunnelIdentity)];
    }

    // ---------- probe results of a running engine ----------

    /** No recorded profile scored higher than the one that is kept. */
    ghost predicate BestIsKept()
      reads this, search
    {
      engine.Some? && TopScore(search.scores, engine.value)
    }

    /** The exhausted search: the best profile recorded is what stays. It is started again exactly if it is not the last one
        tried; so the engine is live afterwards exactly if that happened, or it was live before. */
    method KeepBest(pending: Id) returns (ghost again: bool)
      requires Inner() && !directMode && pending in catalog && ScoreOf(search.scores, pending).Some?
      requires engine == Some(pending)
      modifies this, world
      ensures Valid() && !directMode && BestIsKept() && attempted == {}
      ensures again <==> engine != Some(pending)
      ensures Live() <==> again || old(alive)
      ensures cycles == old(cycles) + [Cycle(old(launched), if again then engine else None)]
      ensures desiredRunning == old(desiredRunning)
    {
      var best := Best(search.scores, pending);
      BestIsTop(search.scores, pending, catalog);
      again := best.value.id != pending;
      if best.value.id != pending {
        StopInternal();
        Restore(best.value.id);
        lastProbes := [];
      }
      DelayNextSearch();
    }

    method DelayNextSearch()
      requires Core()
      modifies this, world
      ensures Inner() && attempted == {} && cycles == old(cycles) + [Cycle(old(launched), old(restored))]
      ensures unchanged(this`engine, this`alive, this`directMode, this`desiredRunning, this`lastProbes)
    {
      var now := world.Now();
      nextProfileSearchAt := now + SEARCH_DELAY;
      CompleteStartupQualification();
      UpdateCompatibility();
    }

    method RecordAttempt(pending: Id)
      requires Inner() && pending in catalog
      modifies this`attempted, search`scores
      ensures Inner() && attempted == old(attempted) + {pending} && ScoreOf(search.scores, pending).Some?
      ensures search.scores == Recorded(old(search.scores), pending, Score(lastProbes))
    {
      Attempt(pending);
      RecordedKeys(search.scores, pending, Score(lastProbes));
      RecordedIn(search.scores, catalog, pending, Score(lastProbes));
      ScoreOfRecorded(search.scores, pending, Score(lastProbes));
      search.Record(pending, lastProbes);
    }

    /** Two readiness checks have failed: on to the next profile, or the end of the search. The search ends exactly when every
        profile has been attempted, or the engine has exited by then, or no probe failed because there was none; `live` is
        whether the engine ran at that moment. */
    method QualificationFailed(pending: Id) returns (s: Snapshot, ghost exhausted: bool, ghost live: bool, ghost again: bool)
      requires Inner() && !directMode && engine == Some(pending) && qualificationFailures >= 2
      modifies this, search, world
      ensures Valid()
      ensures exhausted <==> old(attempted) + {pending} == Ids(catalog) || !live || old(lastProbes) == [] || AllOk(old(lastProbes))
      ensures live ==> old(Live())
      ensures exhausted ==> Ended(pending, live, again) && cycles == old(cycles) + [Cycle(old(launched), if again then engine else None)]
    {
      again := false;
      RecordAttempt(pending);
      var running := IsRunning();
      live := running;
      RotatesUnlessExhausted(running, qualificationFailures, attempted, catalog, lastProbes);
      if ShouldRotatePendingProfile(running, qualificationFailures, |attempted|, |catalog|, lastProbes) {
        s := Rotate(pending);
        return s, false, live, false;
      }
      again := KeepBest(pending);
      return Degraded, true, live, again;
    }

    method Rotate(pending: Id) returns (s: Snapshot)
      requires Inner() && !directMode
      modifies this, search, world
      ensures Valid()
    {
      MovePast(pending);
      StopInternal();
      ghost var ending, said, next;
      s, ending, said, next := StartBestInternal();
    }

    /** The state in which an exhausted search leaves the engine. */
    ghost predicate Ended(pending: Id, live: bool, again: bool)
      reads this, search
    {
      && !directMode && BestIsKept() && (again <==> engine != Some(pending)) && (Live() <==> again || live)
    }

    /** A session that qualified before keeps failing: a recovery starts a new search with its score on record. */
    method SessionFailing() returns (s: Snapshot)
      requires Inner() && !directMode
      modifies this, search, recovery, world
      ensures Valid()
    {
      var now := world.Now();
      if desiredRunning && now >= nextProfileSearchAt && engine.Some? {
        var seen := world.Now();
        var recover := recovery.Observe(false, seen);
        if recover {
          s := Recover(engine.value);
          return;
        }
      }
      return Degraded;
    }

    /** The new search of a recovery. */
    method Recover(failed: Id) returns (s: Snapshot)
      requires Inner() && !directMode && failed in catalog
      modifies this, search, world
      ensures Valid()
    {
      MovePast(failed);
      StopInternal();
      RestartCycle(failed, lastProbes);
      ghost var ending, said, next;
      s, ending, said, next := StartBestInternal();
    }

    /** An empty cycle, but for the profile that has failed. */
    method RestartCycle(failed: Id, failedProbes: seq<Probe>)
      requires Inner() && failed in catalog
      modifies this, search, world
      ensures Inner() && attempted == {failed} && launched == [] && search.scores == [Entry(failed, Score(failedProbes))]
      ensures directMode == old(directMode)
    {
      ResetStartupCycle();
      var probes := search.IncludeVoiceRequirement(failedProbes);
      search.Record(failed, failedProbes);
      assert search.scores[1..] == [];
      Attempt(failed);
    }

    /** ApplyEngineProbeResultsAsync. When it declares the search exhausted while the engine runs and there were probes, every
        catalog profile has been attempted. */
    method ApplyEngineProbeResults() returns (s: Snapshot, ghost exhausted: bool, ghost live: bool, ghost again: bool)
      requires Inner() && !directMode
      modifies this, search, recovery, world
      ensures Valid()
      ensures exhausted ==> old(engine).Some? && Ended(old(engine).value, live, again)
      ensures exhausted && live && old(lastProbes) != [] ==> old(attempted) + {old(engine).value} == Ids(catalog)
    {
      exhausted, live, again := false, false, false;
      lastProbes := search.IncludeVoiceRequirement(lastProbes);
      if AllOk(lastProbes) || PreserveConnectedClient(lastProbes) {
        s := Qualified(AllOk(lastProbes));
      } else if qualificationPending && engine.Some? {
        s, exhausted, live, again := CheckFailed(engine.value);
      } else {
        s := SessionFailing();
      }
    }

    /** The profile works: the search is over. */
    method Qualified(ready: bool) returns (s: Snapshot)
      requires Inner() && !directMode
      modifies this, search, recovery, world
      ensures Valid()
    {
      var now := world.Now();
      var recover := recovery.Observe(true, now);
      CompleteStartupQualification();
      search.Reset();
      if ready {
        UpdateCompatibility();
      }
      return if ready then Ready else Degraded;
    }

    /** One more failed readiness check of the profile that is being qualified. */
    method CheckFailed(pending: Id) returns (s: Snapshot, ghost exhausted: bool, ghost live: bool, ghost again: bool)
      requires Inner() && !directMode && engine == Some(pending)
      modifies this, search, world
      ensures Valid()
      ensures exhausted ==> Ended(pending, live, again)
      ensures exhausted && live && old(lastProbes) != [] && !AllOk(old(lastProbes)) ==> old(attempted) + {pending} == Ids(catalog)
    {
      qualificationFailures := qualificationFailures + 1;
      var now := world.Now();
      if qualificationFailures < 2 {
        nextQualificationAt := now + INITIAL_HEALTH_INTERVAL;
        UpdateCompatibility();
        return Recovering, false, false, false;
      }
      if search.voiceRequired && now - qualificationStartedAt < VOICE_GRACE {
        nextQualificationAt := now + INITIAL_HEALTH_INTERVAL;
        return Recovering, false, false, false;
      }
      s, exhausted, live, again := QualificationFailed(pending);
    }

    /** RefreshHealthInternalAsync */
    method RefreshHealthInternal() returns (s: Snapshot)
      requires Valid() && (directMode && desiredRunning ==> activeTunnelIdentity.None?)
      modifies this, search, recovery, world
      ensures Valid()
    {
      var running := IsRunning();
      if !running {
        if directMode {
          lastProbes := world.Check();
          return if forall k :: 0 <= k < |lastProbes| ==> lastProbes[k].ok then Ready else Degraded;
        }
        return if desiredRunning then Recovering else Stopped;
      }
      lastProbes := world.Check();
      ghost var exhausted, live, again;
      s, exhausted, live, again := ApplyEngineProbeResults();
    }

    // ---------- the steps ----------

    /** A fresh direct check with a tunnel up and no engine: direct mode if all is well. */
    method TryDirect(tunnel: string) returns (direct: bool)
      requires Inner() && !Live()
      modifies this, world
      ensures Inner() && !Live() && directMode == direct && desiredRunning == old(desiredRunning)
      ensures direct ==> AllOk(lastProbes)
    {
      lastProbes := world.Check();
      var running := IsRunning();
      direct := CanUseDirectMode(Some(tunnel), lastProbes, running);
      directMode := direct;
      if direct {
        GoDirect(Some(tunnel));
      } else {
        activeTunnelIdentity := Some(tunnel);
      }
    }

    /** StartBestAsync */
    method StartBest() returns (s: Snapshot)
      requires Valid()
      modifies this, search, recovery, world
      ensures Valid()
    {
      desiredRunning := true;
      var running := IsRunning();
      if running {
        s := RefreshHealthInternal();
        return;
      }
      ResetStartupCycle();
      var tunnel := world.FindActiveTunnel();
      if tunnel.Some? {
        var direct := TryDirect(tunnel.value);
        if direct {
          return Ready;
        }
      } else {
        directMode, lastProbes := false, [];
      }
      ghost var ending, said, next;
      s, ending, said, next := StartBestInternal();
    }

    /** StopAsync */
    method Stop() returns (s: Snapshot)
      requires Valid()
      modifies this, search, world
      ensures Valid() && !directMode && engine.None?
    {
      desiredRunning, directMode, activeTunnelIdentity := false, false, None;
      ResetStartupCycle();
      StopInternal();
      return Stopped;
    }

    /** A search from scratch. */
    method NewSearch() returns (s: Snapshot)
      requires Inner() && !directMode
      modifies this, search, world
      ensures Valid()
    {
      ResetStartupCycle();
      ghost var ending, said, next;
      s, ending, said, next := StartBestInternal();
    }

    /** RefreshHealthAsync */
    method RefreshHealth() returns (s: Snapshot)
      requires Valid()
      modifies this, search, recovery, world
      ensures Valid()
    {
      var tunnel := world.FindActiveTunnel();
      var running := IsRunning();
      if tunnel.Some? && !running {
        var direct := TryDirect(tunnel.value);
        if direct {
          return Ready;
        }
        if desiredRunning {
          s := NewSearch();
          return;
        }
        return Degraded;
      }
      activeTunnelIdentity := tunnel;
      s := RefreshHealthInternal();
    }

    /** ReevaluateTunnelAsync */
    method ReevaluateTunnel(tunnel: string) returns (s: Snapshot)
      requires Valid()
      modifies this, search, world
      ensures Valid()
    {
      var running := IsRunning();
      if running {
        StopInternal();
      }
      var direct := TryDirect(tunnel);
      if direct {
        return Ready;
      }
      if desiredRunning {
        s := NewSearch();
        return;
      }
      return Degraded;
    }

    method IsStartupQualificationDue() returns (due: bool)
      requires Valid()
      modifies this`alive, this`nextProfile, world
      ensures Valid() && (due ==> Live())
    {
      var running := IsRunning();
      var now := world.Now();
      return qualificationPending && running && now >= nextQualificationAt;
    }

    /** ReconcileCompatibilityAsync with a tunnel up. */
    method ReconcileTunnel(tunnel: string) returns (s: Snapshot)
      requires Valid()
      modifies this, search, recovery, world
      ensures Valid()
    {
      var running := IsRunning();
      if Some(tunnel) != activeTunnelIdentity && desiredRunning && (directMode || running || lastProbes != []) {
        s := ReevaluateTunnel(tunnel);
        return;
      }
      var due := IsStartupQualificationDue();
      if due {
        s := RefreshHealthInternal();
        return;
      }
      s := WithKnownTunnel(tunnel);
    }

    /** The tunnel has not changed, or nothing rests on it. */
    method WithKnownTunnel(tunnel: string) returns (s: Snapshot)
      requires Valid() && (directMode && desiredRunning ==> AllOk(lastProbes))
      modifies this, search, world
      ensures Valid()
    {
      var running := IsRunning();
      if CanUseDirectMode(Some(tunnel), lastProbes, running) {
        GoDirect(Some(tunnel));
        return Ready;
      }
      running := IsRunning();
      if desiredRunning && !running {
        activeTunnelIdentity := Some(tunnel);
        s := NewSearch();
        return;
      }
      activeTunnelIdentity := Some(tunnel);
      return Degraded;
    }

    /** Without a tunnel direct mode ends; a wanted engine is started unless launches are on hold. */
    method WithoutTunnel(onlyIfWanted: bool) returns (started: bool, s: Snapshot)
      requires Valid()
      modifies this, search, world
      ensures Valid() && (!started ==> !directMode)
    {
      s := Recovering;
      if directMode {
        directMode := false;
        UpdateCompatibility();
        var running := IsRunning();
        if !onlyIfWanted || (desiredRunning && !running) {
          s := NewSearch();
          return true, s;
        }
      }
      return false, s;
    }

    /** ReconcileCompatibilityAsync */
    method ReconcileCompatibility() returns (s: Snapshot)
      requires Valid()
      modifies this, search, recovery, world
      ensures Valid()
    {
      var tunnel := world.FindActiveTunnel();
      if tunnel.Some? {
        s := ReconcileTunnel(tunnel.value);
        return;
      }
      var started;
      started, s := WithoutTunnel(true);
      if started {
        return;
      }
      var due := IsStartupQualificationDue();
      if due {
        s := RefreshHealthInternal();
        return;
      }
      s := StartIfWanted();
    }

    /** A wanted engine that is not running is started, unless launches are on hold. */
    method StartIfWanted() returns (s: Snapshot)
      requires Valid() && !directMode
      modifies this, search, world
      ensures Valid()
    {
      UpdateCompatibility();
      var running := IsRunning();
      if desiredRunning && !running {
        var paused := world.Paused();
        if paused {
          return Recovering;
        }
        s := NewSearch();
        return;
      }
      return Degraded;
    }

    /** RecoverIfNeededAsync */
    method RecoverIfNeeded() returns (s: Snapshot)
      requires Valid()
      modifies this, search, recovery, world
      ensures Valid()
    {
      var tunnel := world.FindActiveTunnel();
      if tunnel.Some? {
        s := RecoverTunnel(tunnel.value);
        return;
      }
      var started;
      started, s := WithoutTunnel(false);
      if started {
        return;
      }
      UpdateCompatibility();
      var running := IsRunning();
      if desiredRunning && !running {
        s := StartIfWanted();
        return;
      }
      running := IsRunning();
      if running {
        s := RefreshHealthInternal();
        return;
      }
      return Stopped;
    }

    /** RecoverIfNeededAsync with a tunnel up. */
    method RecoverTunnel(tunnel: string) returns (s: Snapshot)
      requires Valid()
      modifies this, search, recovery, world
      ensures Valid()
    {
      lastProbes := world.Check();
      var running := IsRunning();
      if CanUseDirectMode(Some(tunnel), lastProbes, running) {
        GoDirect(Some(tunnel));
        return Ready;
      }
      directMode, activeTunnelIdentity := false, Some(tunnel);
      running := IsRunning();
      if running {
        ghost var exhausted, live, again;
        s, exhausted, live, again := ApplyEngineProbeResults();
        return;
      }
      if desiredRunning {
        s := NewSearch();
        return;
      }
      return Degraded;
    }
  }

  /** A search launches each catalog profile at most once, so no more engines than the catalog has profiles. */
  lemma CycleIsBounded(s: Supervisor)
    requires s.Inner()
    ensures NoRepeats(s.launched) && |s.launched| <= |s.catalog|
  {
    LaunchedFew(s.launched, s.attempted, s.catalog);
  }

  /** So did every cycle before; at most one launch, of the best profile, followed. */
  lemma {:induction false} ClosedCyclesLaunchOnce(cycles: seq<Cycle>, n: nat, k: nat)
    requires ClosedCycles(cycles, n) && k < |cycles|
    ensures NoRepeats(cycles[k].launched) && |cycles[k].launched| <= n
  {
    if 0 < k {
      ClosedCyclesLaunchOnce(cycles[1..], n, k - 1);
    }
  }

  /** When the search of a failing profile ends instead of going on. */
  lemma RotatesUnlessExhausted(running: bool, failures: nat, attempted: set<Id>, catalog: seq<Id>, probes: seq<Probe>)
    requires failures >= 2 && attempted <= Ids(catalog) && NoRepeats(catalog)
    ensures !ShouldRotatePendingProfile(running, failures, |attempted|, |catalog|, probes) <==>
            attempted == Ids(catalog) || !running || probes == [] || AllOk(probes)
  {
    IdsCount(catalog);
    SubsetCount(attempted, Ids(catalog));
  }

  /** An engine that exits before the second failed check ends the search although a profile is left. */
  lemma EarlyExhaustion(probes: seq<Probe>)
    ensures {Id("a")} != Ids([Id("a"), Id("b")]) && !ShouldRotatePendingProfile(false, 2, |{Id("a")}|, |[Id("a"), Id("b")]|, probes)
  {
    IdsAre([Id("a"), Id("b")], Id("b"));
    assert Id("b") in [Id("a"), Id("b")];
  }

  function ScoreOf(scores: seq<Entry>, id: Id): Option<nat> {
    if scores == [] then None else if scores[0].id == id then Some(scores[0].score) else ScoreOf(scores[1..], id)
  }

  function MaxScore(scores: seq<Entry>): nat {
    if scores == [] then 0 else var m := MaxScore(scores[1..]); if scores[0].score < m then m else scores[0].score
  }

  /** The profile is on record with the highest score on record. */
  predicate TopScore(scores: seq<Entry>, id: Id) {
    ScoreOf(scores, id) == Some(MaxScore(scores))
  }

  lemma {:induction false} MaxScoreBounds(scores: seq<Entry>, e: Entry)
    requires e in scores
    ensures e.score <= MaxScore(scores)
  {
    if scores[0] != e {
      MaxScoreBounds(scores[1..], e);
    }
  }

  lemma {:induction false} MaxScoreTaken(scores: seq<Entry>) returns (e: Entry)
    requires scores != []
    ensures e in scores && e.score == MaxScore(scores)
  {
    if |scores| == 1 || MaxScore(scores[1..]) <= scores[0].score {
      e := scores[0];
    } else {
      e := MaxScoreTaken(scores[1..]);
    }
  }

  lemma {:induction false} ScoreOfKeyed(scores: seq<Entry>, e: Entry)
    requires Keyed(scores) && e in scores
    ensures ScoreOf(scores, e.id) == Some(e.score)
  {
    if scores[0] != e {
      var k :| 0 <= k < |scores| && scores[k] == e;
      ScoreOfKeyed(scores[1..], e);
    }
  }

  /** Best picks a profile with the highest score. */
  lemma BestIsTop(scores: seq<Entry>, pending: Id, catalog: seq<Id>)
    requires Keyed(scores) && ScoresIn(scores, catalog) && ScoreOf(scores, pending).Some?
    ensures Best(scores, pending).Some? && Best(scores, pending).value.id in catalog && TopScore(scores, Best(scores, pending).value.id)
  {
    var best := Best(scores, pending);
    BestIsMaximal(scores, pending);
    ScoresInAt(scores, catalog, best.value);
    ScoreOfKeyed(scores, best.value);
    MaxScoreBounds(scores, best.value);
    var top := MaxScoreTaken(scores);
  }

  lemma {:induction false} ScoreOfRecorded(scores: seq<Entry>, id: Id, score: nat)
    ensures ScoreOf(Recorded(scores, id, score), id) == Some(score)
  {
    if scores != [] && scores[0].id != id {
      ScoreOfRecorded(scores[1..], id, score);
      assert Recorded(scores, id, score)[1..] == Recorded(scores[1..], id, score);
    }
  }
}
