/** Scores and order of engine profiles: FOG.Agent/ProfileSearch.cs, ProfileRotation.cs and TransportPolicy.cs.
    Profile ids are compared without regard to case there; here equal ids are equal strings.
 */
module ProfileSearch {
  import opened Options

  datatype Id = Id(text: string)

  datatype Probe = Probe(name: string, ok: bool)

  // ---------- transport policy ----------

  predicate AllOk(probes: seq<Probe>) {
    probes != [] && forall k :: 0 <= k < |probes| ==> probes[k].ok
  }

  predicate CanUseDirectMode(tunnel: Option<string>, probes: seq<Probe>, engineRunning: bool) {
    tunnel.Some? && !engineRunning && AllOk(probes)
  }

  predicate ShouldRotatePendingProfile(engineRunning: bool, failures: nat, attempted: nat, total: nat, probes: seq<Probe>) {
    engineRunning && failures >= 2 && attempted < total && probes != [] && !AllOk(probes)
  }

  // ---------- scores ----------

  function Weight(name: string): nat {
    if name == "discord-voice" then 100
    else if name == "discord-client" then 40
    else if name == "gateway" then 30
    else if name == "www.youtube.com" then 20
    else if name == "discord.com" then 10
    else if name == "cdn.discordapp.com" then 5
    else 0
  }

  function Score(probes: seq<Probe>): nat {
    if probes == [] then 0
    else Score(probes[..|probes| - 1]) + (if probes[|probes| - 1].ok then Weight(probes[|probes| - 1].name) else 0)
  }

  predicate Seen(probes: seq<Probe>, name: string) {
    exists k :: 0 <= k < |probes| && probes[k].name == name
  }

  predicate SeenOk(probes: seq<Probe>, name: string) {
    exists k :: 0 <= k < |probes| && probes[k].name == name && probes[k].ok
  }

  ghost predicate DistinctNames(probes: seq<Probe>) {
    forall i, j :: 0 <= i < j < |probes| ==> probes[i].name != probes[j].name
  }

  function Points(probes: seq<Probe>, name: string, points: nat): nat {
    if SeenOk(probes, name) then points else 0
  }

  /** With one probe of each name, six successes count, whatever their order; everything else counts for nothing.  The five
      others together outweigh the voice. */
  lemma {:induction false} ScoreCountsSuccesses(probes: seq<Probe>)
    requires DistinctNames(probes)
    ensures Score(probes) == Points(probes, "discord-voice", 100) + Points(probes, "discord-client", 40)
                             + Points(probes, "gateway", 30) + Points(probes, "www.youtube.com", 20)
                             + Points(probes, "discord.com", 10) + Points(probes, "cdn.discordapp.com", 5)
  {
    if probes != [] {
      var n := |probes| - 1;
      ScoreCountsSuccesses(probes[..n]);
      OneMoreProbe(probes, "discord-voice", 100);
      OneMoreProbe(probes, "discord-client", 40);
      OneMoreProbe(probes, "gateway", 30);
      OneMoreProbe(probes, "www.youtube.com", 20);
      OneMoreProbe(probes, "discord.com", 10);
      OneMoreProbe(probes, "cdn.discordapp.com", 5);
      WeightByName(probes[n].name);
    }
  }

  lemma OneMoreProbe(probes: seq<Probe>, name: string, points: nat)
    requires probes != [] && DistinctNames(probes)
    ensures var p := probes[|probes| - 1];
            Points(probes, name, points)
            == Points(probes[..|probes| - 1], name, points) + (if p.name == name && p.ok then points else 0)
  {
    var n := |probes| - 1;
    if SeenOk(probes[..n], name) {
      var k :| 0 <= k < n && probes[..n][k].name == name && probes[..n][k].ok;
      assert probes[k].name == name && probes[k].ok;
    }
  }

  lemma WeightByName(name: string)
    ensures Weight(name) == (if name == "discord-voice" then 100 else 0) + (if name == "discord-client" then 40 else 0)
                            + (if name == "gateway" then 30 else 0) + (if name == "www.youtube.com" then 20 else 0)
                            + (if name == "discord.com" then 10 else 0) + (if name == "cdn.discordapp.com" then 5 else 0)
  {
  }

  predicate PreserveConnectedClient(probes: seq<Probe>) {
    && SeenOk(probes, "discord-client") && SeenOk(probes, "gateway") && SeenOk(probes, "www.youtube.com")
    && forall k :: 0 <= k < |probes| && !probes[k].ok ==> probes[k].name in {"discord.com", "cdn.discordapp.com", "dns"}
  }

  /** A score table, in the order in which profiles were first recorded. */
  datatype Entry = Entry(id: Id, score: nat)

  predicate Keyed(s: seq<Entry>) {
    forall i, j :: 0 <= i < j < |s| ==> s[i].id != s[j].id
  }

  function Recorded(s: seq<Entry>, id: Id, score: nat): seq<Entry> {
    if s == [] then [Entry(id, score)]
    else if s[0].id == id then [Entry(id, score)] + s[1..]
    else [s[0]] + Recorded(s[1..], id, score)
  }

  lemma {:induction false} RecordedKeys(s: seq<Entry>, id: Id, score: nat)
    requires Keyed(s)
    ensures Keyed(Recorded(s, id, score)) && Entry(id, score) in Recorded(s, id, score)
    ensures forall e :: e in Recorded(s, id, score) <==> e == Entry(id, score) || (e in s && e.id != id)
  {
    if s != [] {
      var r := Recorded(s, id, score);
      if s[0].id == id {
        assert forall k :: 0 < k < |s| ==> s[k].id != id;
      } else {
        RecordedKeys(s[1..], id, score);
        var t := Recorded(s[1..], id, score);
        forall j | 0 <= j < |t|
          ensures t[j].id != s[0].id
        {
          assert t[j] in t;
        }
      }
    }
  }

  /** a comes before b: higher score, or the same and it is the current profile. */
  predicate Better(a: Entry, b: Entry, current: Id) {
    a.score > b.score || (a.score == b.score && a.id == current && b.id != current)
  }

  /** Best: descending by score, then the current profile first, else in the order of the table. */
  function Best(s: seq<Entry>, current: Id): Option<Entry> {
    if s == [] then None
    else
      var b := Best(s[..|s| - 1], current);
      if b.None? || Better(s[|s| - 1], b.value, current) then Some(s[|s| - 1]) else b
  }

  /** The choice has the highest score of all, and it is the current profile whenever that one has it too. */
  lemma {:induction false} BestIsMaximal(s: seq<Entry>, current: Id)
    ensures Best(s, current).None? <==> s == []
    ensures s != [] ==> Best(s, current).value in s
    ensures forall e :: e in s ==> e.score <= Best(s, current).value.score
    ensures forall e :: e in s && e.id == current && e.score == Best(s, current).value.score ==> Best(s, current).value.id == current
  {
    if s != [] {
      var n := |s| - 1;
      BestIsMaximal(s[..n], current);
      assert s == s[..n] + [s[n]];
    }
  }

  class Search {
    var scores: seq<Entry>
    var voiceRequired: bool

    ghost predicate Valid()
      reads this
    {
      Keyed(scores)
    }

    constructor ()
      ensures Valid() && scores == [] && !voiceRequired
    {
      scores, voiceRequired := [], false;
    }

    /** Until voice has been seen idle again, a missing voice probe counts as a failing one. */
    method IncludeVoiceRequirement(probes: seq<Probe>) returns (r: seq<Probe>)
      modifies this`voiceRequired
      ensures voiceRequired == (!Seen(probes, "discord-voice-idle") && (old(voiceRequired) || Seen(probes, "discord-voice")))
      ensures r == if voiceRequired && !Seen(probes, "discord-voice") then probes + [Probe("discord-voice", false)] else probes
    {
      if Seen(probes, "discord-voice-idle") {
        voiceRequired := false;
      } else {
        voiceRequired := voiceRequired || Seen(probes, "discord-voice");
      }
      return if voiceRequired && !Seen(probes, "discord-voice") then probes + [Probe("discord-voice", false)] else probes;
    }

    method Record(id: Id, probes: seq<Probe>)
      requires Valid()
      modifies this`scores
      ensures Valid() && scores == Recorded(old(scores), id, Score(probes))
    {
      RecordedKeys(scores, id, Score(probes));
      scores := Recorded(scores, id, Score(probes));
    }

    method Reset()
      modifies this
      ensures Valid() && scores == [] && !voiceRequired
    {
      scores, voiceRequired := [], false;
    }
  }

  // ---------- rotation ----------

  /** FindIndex: the first position of id, or -1. */
  function FindIndex(profiles: seq<Id>, id: Id): (i: int)
    ensures -1 <= i < |profiles|
    ensures i == -1 <==> id !in profiles
    ensures i >= 0 ==> profiles[i] == id && id !in profiles[..i]
  {
    if profiles == [] then -1
    else if profiles[0] == id then 0
    else
      var i := FindIndex(profiles[1..], id);
      assert i >= 0 ==> profiles[..i + 1] == [profiles[0]] + profiles[1..][..i];
      if i < 0 then -1 else i + 1
  }

  /** Order: the catalog from the preferred profile on, wrapping around. */
  function Order(profiles: seq<Id>, next: Option<Id>): seq<Id> {
    if |profiles| < 2 || next.None? || FindIndex(profiles, next.value) < 0 then profiles
    else
      var start := FindIndex(profiles, next.value);
      profiles[start..] + profiles[..start]
  }

  /** Every profile is offered exactly as often as the catalog lists it, the preferred one first. */
  lemma OrderIsPermutation(profiles: seq<Id>, next: Option<Id>)
    ensures multiset(Order(profiles, next)) == multiset(profiles)
    ensures next.Some? && next.value in profiles ==> Order(profiles, next)[0] == next.value
  {
    if next.Some? && FindIndex(profiles, next.value) >= 0 {
      var start := FindIndex(profiles, next.value);
      assert profiles == profiles[..start] + profiles[start..];
    }
  }

  /** (i + 1) % n */
  function Following(i: nat, n: nat): (k: nat)
    requires 0 < n
    ensures k < n && (i < n ==> k == if i + 1 == n then 0 else i + 1)
  {
    (i + 1) % n
  }

  /** MovePast: what is preferred after a profile has failed. */
  function NextAfter(profiles: seq<Id>, id: Id): Id
    requires profiles != []
  {
    profiles[Following(if FindIndex(profiles, id) < 0 then 0 else FindIndex(profiles, id), |profiles|)]
  }

  /** The profile that failed is offered last, unless it is the only one. */
  lemma FailedComesLast(profiles: seq<Id>, id: Id)
    requires id in profiles && 2 <= |profiles|
    requires forall i, j :: 0 <= i < j < |profiles| ==> profiles[i] != profiles[j]
    ensures Order(profiles, Some(NextAfter(profiles, id)))[|profiles| - 1] == id
  {
    var i := FindIndex(profiles, id);
    FirstIndex(profiles, if i + 1 == |profiles| then 0 else i + 1);
  }

  lemma FirstIndex(profiles: seq<Id>, k: nat)
    requires k < |profiles| && forall i, j :: 0 <= i < j < |profiles| ==> profiles[i] != profiles[j]
    ensures FindIndex(profiles, profiles[k]) == k
  {
    var f := FindIndex(profiles, profiles[k]);
    assert profiles[f] == profiles[k];
  }
}
