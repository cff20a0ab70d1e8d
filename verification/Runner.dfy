/** The agent runner (crates/lvqr-agent/src/runner.rs): agents added and removed at runtime, racing the registry
    callback that fires for each new source. Every operation on a shared map or lock is one atomic step; asking a
    factory for an agent touches no shared state and goes with the step before it. */
module Runner {

  type Name = string
  type Source = (string, string)         // (broadcast, track)
  type Key = (Name, Source)              // one drain task

  /** Whether the factory of that name builds an agent for that source. */
  type Accepts = Key -> bool

  /** What a thread inside the runner still has to do. */
  datatype Worker =
    | Listing(name: Name)             // add_agent: registered, registry keys not yet read
    | Created(source: Source)         // registry entry inserted, callback not yet begun
    | Spawning(listed: set<Key>, held: set<Key>, built: set<Key>)
      // listed: to be looked up in the registry; held: with its broadcaster, to be checked; built: to be inserted
    | Aborting(name: Name)            // remove_agent: unregistered, tasks not yet aborted

  /** `tasks` holds one row per key; `drains` are the drains started and not aborted. For the record, `orphans` are the
      rows inserted while their agent was neither registered nor about to be aborted, and `swept` the rows aborted
      while their agent was registered, each until it is aborted or inserted again. */
  datatype State = State(registry: set<Source>, factories: set<Name>, tasks: set<Key>, drains: multiset<Key>,
                         workers: map<nat, Worker>, orphans: set<Key>, swept: set<Key>)

  datatype Step =
    | AddAgent(name: Name)
    | ReadKeys
    | InsertEntry(source: Source)
    | RemoveEntry(source: Source)
    | ReadFactories
    | Get(key: Key)                   // registry.get: go on only if the source is still there
    | Check(key: Key)                 // spawn_for: go on unless there is a row, or the factory declines
    | Commit(key: Key)                // spawn_for: insert a row unless there is one by now
    | Return
    | Unregister(name: Name)
    | AbortTasks

  ghost function Pairs(names: set<Name>, sources: set<Source>): set<Key> {
    set name, source | name in names && source in sources :: (name, source)
  }

  ghost predicate Enabled(s: State, t: nat, step: Step) {
    match step
    case AddAgent(name) => t !in s.workers && name !in s.factories
    case ReadKeys => t in s.workers && s.workers[t].Listing?
    case InsertEntry(source) => t !in s.workers && source !in s.registry
    case RemoveEntry(source) => source in s.registry
    case ReadFactories => t in s.workers && s.workers[t].Created?
    case Get(key) => t in s.workers && s.workers[t].Spawning? && key in s.workers[t].listed
    case Check(key) => t in s.workers && s.workers[t].Spawning? && key in s.workers[t].held
    case Commit(key) => t in s.workers && s.workers[t].Spawning? && key in s.workers[t].built
    case Return => t in s.workers && s.workers[t] == Spawning({}, {}, {})
    case Unregister(name) => t !in s.workers
    case AbortTasks => t in s.workers && s.workers[t].Aborting?
  }

  /** Some removal of the agent has yet to abort its tasks. */
  ghost predicate Doomed(s: State, name: Name) {
    exists t :: t in s.workers && s.workers[t] == Aborting(name)
  }

  ghost function Next(accepts: Accepts, s: State, t: nat, step: Step): State
    requires Enabled(s, t, step)
  {
    match step
    case AddAgent(name) => s.(factories := s.factories + {name}, workers := s.workers[t := Listing(name)])
    case ReadKeys => s.(workers := s.workers[t := Spawning(Pairs({s.workers[t].name}, s.registry), {}, {})])
    case InsertEntry(source) => s.(registry := s.registry + {source}, workers := s.workers[t := Created(source)])
    case RemoveEntry(source) => s.(registry := s.registry - {source})
    case ReadFactories => s.(workers := s.workers[t := Spawning({}, Pairs(s.factories, {s.workers[t].source}), {})])
    case Get(key) =>
      var w := s.workers[t];
      var held := if key.1 in s.registry then w.held + {key} else w.held;
      s.(workers := s.workers[t := Spawning(w.listed - {key}, held, w.built)])
    case Check(key) =>
      var w := s.workers[t];
      var built := if key in s.tasks || !accepts(key) then w.built else w.built + {key};
      s.(workers := s.workers[t := Spawning(w.listed, w.held - {key}, built)])
    case Commit(key) =>
      var w := s.workers[t];
      var late := key !in s.tasks && key.0 !in s.factories && !Doomed(s, key.0);
      s.(tasks := s.tasks + {key}, drains := if key in s.tasks then s.drains else s.drains + multiset{key},
         workers := s.workers[t := Spawning(w.listed, w.held, w.built - {key})],
         orphans := if late then s.orphans + {key} else s.orphans, swept := s.swept - {key})
    case Return => s.(workers := s.workers - {t})
    case Unregister(name) => s.(factories := s.factories - {name}, workers := s.workers[t := Aborting(name)])
    case AbortTasks =>
      var name := s.workers[t].name;
      var gone := set key | key in s.tasks && key.0 == name;
      s.(tasks := s.tasks - gone, drains := s.drains - multiset(gone), workers := s.workers - {t},
         orphans := s.orphans - gone, swept := if name in s.factories then s.swept + gone else s.swept)
  }

  lemma OthersStay(accepts: Accepts, s: State, t: nat, step: Step)
    requires Enabled(s, t, step)
    ensures var s' := Next(accepts, s, t, step);
            forall u :: u != t ==>
              (u in s'.workers <==> u in s.workers) && (u in s.workers ==> s'.workers[u] == s.workers[u])
  {
  }

  // ---------------------------------------------------------------- what every interleaving keeps

  /** The thread will still see to this task. */
  ghost predicate Obliged(w: Worker, key: Key) {
    match w
    case Listing(name) => key.0 == name
    case Created(source) => key.1 == source
    case Spawning(listed, held, built) => key in listed || key in held || key in built
    case Aborting(_) => false
  }

  /** Seen to: a row, or a thread that is yet to insert it, or swept away while its agent was registered. */
  ghost predicate SeenTo(s: State, key: Key) {
    key in s.tasks || key in s.swept || exists t :: t in s.workers && Obliged(s.workers[t], key)
  }

  /** A registered agent that accepts a present source is seen to: of a racing add and callback, at least one sees the
      other. */
  ghost predicate Covered(accepts: Accepts, s: State) {
    forall name, source :: name in s.factories && source in s.registry && accepts((name, source)) ==>
      SeenTo(s, (name, source))
  }

  /** Rows are for agents that accepted the source; the row of an agent no longer registered is about to be aborted,
      or an orphan. */
  ghost predicate Warranted(accepts: Accepts, s: State) {
    (forall key :: key in s.tasks ==>
       accepts(key) && (key.0 in s.factories || Doomed(s, key.0) || key in s.orphans))
    && (forall t, key :: t in s.workers && s.workers[t].Spawning? && key in s.workers[t].built ==> accepts(key))
  }

  ghost predicate Recorded(accepts: Accepts, s: State) {
    s.orphans <= s.tasks && s.swept !! s.tasks && (forall key :: key in s.swept ==> accepts(key))
    && s.drains == multiset(s.tasks)
  }

  ghost predicate Inv(accepts: Accepts, s: State) {
    Covered(accepts, s) && Warranted(accepts, s) && Recorded(accepts, s)
  }

  lemma NextKeepsCovered(accepts: Accepts, s: State, t: nat, step: Step, name: Name, source: Source)
    requires Inv(accepts, s) && Enabled(s, t, step)
    requires var s' := Next(accepts, s, t, step); name in s'.factories && source in s'.registry
    requires accepts((name, source))
    ensures SeenTo(Next(accepts, s, t, step), (name, source))
  {
    var s' := Next(accepts, s, t, step);
    var key := (name, source);
    if step.AddAgent? && step.name == name {
      assert Obliged(s'.workers[t], key);
    } else if step.InsertEntry? && step.source == source {
      assert Obliged(s'.workers[t], key);
    } else {
      assert SeenTo(s, key);
      hide Inv, Covered, Warranted, Recorded, Doomed;
      if key in s.tasks || key in s.swept {
        RowStays(accepts, s, t, step, key);
      } else {
        var u :| u in s.workers && Obliged(s.workers[u], key);
        if u == t {
          OwnDutyStays(accepts, s, t, step, key);
        } else {
          OthersStay(accepts, s, t, step);
          assert u in s'.workers && Obliged(s'.workers[u], key);
        }
      }
    }
  }

  lemma RowStays(accepts: Accepts, s: State, t: nat, step: Step, key: Key)
    requires Enabled(s, t, step) && (key in s.tasks || key in s.swept) && key.0 in Next(accepts, s, t, step).factories
    ensures SeenTo(Next(accepts, s, t, step), key)
  {
    hide Obliged, Doomed;
  }

  lemma OwnDutyStays(accepts: Accepts, s: State, t: nat, step: Step, key: Key)
    requires Enabled(s, t, step) && t in s.workers && Obliged(s.workers[t], key) && accepts(key)
    requires key.0 in Next(accepts, s, t, step).factories && key.1 in Next(accepts, s, t, step).registry
    ensures SeenTo(Next(accepts, s, t, step), key)
  {
    hide Doomed;
    var s' := Next(accepts, s, t, step);
    assert key == (key.0, key.1);
    assert key in s'.tasks || (t in s'.workers && Obliged(s'.workers[t], key));
  }

  lemma NextKeepsWarranted(accepts: Accepts, s: State, t: nat, step: Step)
    requires Inv(accepts, s) && Enabled(s, t, step)
    ensures Warranted(accepts, Next(accepts, s, t, step))
  {
    var s' := Next(accepts, s, t, step);
    OthersStay(accepts, s, t, step);
    forall key | key in s'.tasks
      ensures accepts(key) && (key.0 in s'.factories || Doomed(s', key.0) || key in s'.orphans)
    {
      if key.0 !in s'.factories && key !in s'.orphans {
        if step.Unregister? && step.name == key.0 {
          assert s'.workers[t] == Aborting(key.0);
        } else {
          assert Doomed(s, key.0);
          var u :| u in s.workers && s.workers[u] == Aborting(key.0);
          assert u in s'.workers && s'.workers[u] == Aborting(key.0);
        }
      }
    }
    forall u, key | u in s'.workers && s'.workers[u].Spawning? && key in s'.workers[u].built
      ensures accepts(key)
    {
      assert u != t ==> key in s.workers[u].built;
    }
  }

  lemma NextKeepsRecorded(accepts: Accepts, s: State, t: nat, step: Step)
    requires Inv(accepts, s) && Enabled(s, t, step)
    ensures Recorded(accepts, Next(accepts, s, t, step))
  {
  }

  lemma {:induction false} NextKeepsInv(accepts: Accepts, s: State, t: nat, step: Step)
    requires Inv(accepts, s) && Enabled(s, t, step)
    ensures Inv(accepts, Next(accepts, s, t, step))
  {
    var s' := Next(accepts, s, t, step);
    forall name, source | name in s'.factories && source in s'.registry && accepts((name, source))
      ensures SeenTo(s', (name, source))
    {
      NextKeepsCovered(accepts, s, t, step, name, source);
    }
    NextKeepsWarranted(accepts, s, t, step);
    NextKeepsRecorded(accepts, s, t, step);
  }

  ghost predicate Run(accepts: Accepts, s: State, trace: seq<(nat, Step)>, end: State)
    decreases |trace|
  {
    if trace == [] then s == end
    else Enabled(s, trace[0].0, trace[0].1) && Run(accepts, Next(accepts, s, trace[0].0, trace[0].1), trace[1..], end)
  }

  /** `install` on an empty registry with some factories. */
  function Installed(factories: set<Name>): State {
    State({}, factories, {}, multiset{}, map[], {}, {})
  }

  lemma {:induction false} RunKeepsInv(accepts: Accepts, s: State, trace: seq<(nat, Step)>, end: State)
    requires Inv(accepts, s) && Run(accepts, s, trace, end)
    ensures Inv(accepts, end)
    decreases |trace|
  {
    if trace != [] {
      NextKeepsInv(accepts, s, trace[0].0, trace[0].1);
      RunKeepsInv(accepts, Next(accepts, s, trace[0].0, trace[0].1), trace[1..], end);
    }
  }

  // ---------------------------------------------------------------- no drain for a source that is gone

  /** The call that thread `t` is in came upon the key's source: at step `i` it inserted the source itself, or it looked
      the key up while the source was in the registry. */
  ghost predicate Witnessed(accepts: Accepts, start: State, trace: seq<(nat, Step)>, t: nat, key: Key, i: nat) {
    i < |trace| && trace[i].0 == t && (forall j :: i < j < |trace| ==> trace[j] != (t, Return))
    && (trace[i].1 == InsertEntry(key.1)
        || (trace[i].1 == Get(key) && exists mid :: Run(accepts, start, trace[..i], mid) && key.1 in mid.registry))
  }

  lemma {:induction false} LastStep(accepts: Accepts, s: State, trace: seq<(nat, Step)>, end: State)
    returns (mid: State)
    requires trace != [] && Run(accepts, s, trace, end)
    ensures var last := trace[|trace| - 1];
            Run(accepts, s, trace[..|trace| - 1], mid) && Enabled(mid, last.0, last.1)
            && end == Next(accepts, mid, last.0, last.1)
    decreases |trace|
  {
    hide Enabled, Next;
    if |trace| == 1 {
      mid := s;
      assert trace[1..] == [] && trace[..0] == [];
    } else {
      mid := LastStep(accepts, Next(accepts, s, trace[0].0, trace[0].1), trace[1..], end);
      assert trace[1..][..|trace| - 2] == trace[..|trace| - 1][1..];
    }
  }

  /** The thread has the key past the lookup, or is to get it past the lookup unseen. */
  ghost predicate InHand(s: State, t: nat, key: Key) {
    t in s.workers
    && (s.workers[t] == Created(key.1)
        || (s.workers[t].Spawning? && (key in s.workers[t].held || key in s.workers[t].built)))
  }

  lemma HandsFill(accepts: Accepts, s: State, u: nat, step: Step, t: nat, key: Key)
    requires Enabled(s, u, step) && InHand(Next(accepts, s, u, step), t, key)
    ensures InHand(s, t, key)
            || (u == t && (step == InsertEntry(key.1) || (step == Get(key) && key.1 in s.registry)))
    ensures (u, step) != (t, Return)
  {
    hide Doomed;
    OthersStay(accepts, s, u, step);
  }

  lemma WitnessStays(accepts: Accepts, start: State, trace: seq<(nat, Step)>, t: nat, key: Key, i: nat)
    requires trace != [] && trace[|trace| - 1] != (t, Return)
    requires Witnessed(accepts, start, trace[..|trace| - 1], t, key, i)
    ensures Witnessed(accepts, start, trace, t, key, i)
  {
    hide Run;
    assert trace[..|trace| - 1][..i] == trace[..i];
  }

  lemma {:induction false} InHandIsWitnessed(accepts: Accepts, start: State, trace: seq<(nat, Step)>, s: State, t: nat,
                                             key: Key)
    requires start.workers == map[] && Run(accepts, start, trace, s) && InHand(s, t, key)
    ensures exists i :: Witnessed(accepts, start, trace, t, key, i)
    decreases |trace|
  {
    var n := |trace| - 1;
    var mid := LastStep(accepts, start, trace, s);
    var (u, step) := trace[n];
    HandsFill(accepts, mid, u, step, t, key);
    hide Run, Next, Enabled;
    if InHand(mid, t, key) {
      InHandIsWitnessed(accepts, start, trace[..n], mid, t, key);
      var i :| Witnessed(accepts, start, trace[..n], t, key, i);
      WitnessStays(accepts, start, trace, t, key, i);
    } else {
      assert Witnessed(accepts, start, trace, t, key, n);
    }
  }

  /** On every run, a drain is started only by a call that inserted the source itself or found it in the registry when
      it looked; a source that has left the registry by the time it is looked up gets none. */
  lemma {:induction false} NoDrainForMissingSource(accepts: Accepts, factories: set<Name>, trace: seq<(nat, Step)>,
                                                   s: State, t: nat, key: Key)
    requires Run(accepts, Installed(factories), trace, s) && Enabled(s, t, Commit(key))
    ensures exists i :: Witnessed(accepts, Installed(factories), trace, t, key, i)
  {
    InHandIsWitnessed(accepts, Installed(factories), trace, s, t, key);
  }

  // ---------------------------------------------------------------- settled runs

  /** Every registered agent has a row for every present source it accepts. */
  ghost predicate Attached(accepts: Accepts, s: State) {
    forall name, source :: name in s.factories && source in s.registry && accepts((name, source)) ==>
      (name, source) in s.tasks
  }

  /** No row belongs to an agent that is not registered. */
  ghost predicate Detached(s: State) {
    forall key :: key in s.tasks ==> key.0 in s.factories
  }

  /** However additions, removals, insertions and their callbacks interleave, overlapping or not, once all have
      returned: every row has exactly one drain and was accepted; every registered agent is attached to every present
      source it accepts exactly when none of those rows was swept away while the agent was registered; and no drain of
      an unregistered agent is left exactly when no orphan of one is. */
  lemma {:induction false} SettledRunsAttachEverything(accepts: Accepts, factories: set<Name>,
                                                       trace: seq<(nat, Step)>, s: State)
    requires Run(accepts, Installed(factories), trace, s) && s.workers == map[]
    ensures forall key :: s.drains[key] == (if key in s.tasks then 1 else 0) && (key in s.tasks ==> accepts(key))
    ensures Attached(accepts, s) <==> forall key :: key in s.swept ==> key.0 !in s.factories || key.1 !in s.registry
    ensures Detached(s) <==> forall key :: key in s.orphans ==> key.0 in s.factories
  {
    assert Inv(accepts, Installed(factories));
    RunKeepsInv(accepts, Installed(factories), trace, s);
    forall name, source | name in s.factories && source in s.registry && accepts((name, source))
      ensures (name, source) in s.tasks || (name, source) in s.swept
    {
      assert SeenTo(s, (name, source));
    }
    forall key | key in s.swept && key.0 in s.factories && key.1 in s.registry
      ensures !Attached(accepts, s)
    {
      assert key == (key.0, key.1) && accepts(key) && key !in s.tasks;
    }
  }

  // ---------------------------------------------------------------- calls that do not overlap

  /** The thread has the agent of that name in hand. */
  ghost predicate Handles(w: Worker, name: Name) {
    match w
    case Listing(n) => n == name
    case Created(_) => false
    case Spawning(listed, held, built) => exists key :: key in listed + held + built && key.0 == name
    case Aborting(n) => n == name
  }

  /** Calls about one agent do not overlap: none is added or removed while another thread has it in hand. */
  ghost predicate Apart(s: State, step: Step) {
    step.AddAgent? || step.Unregister? ==> forall t :: t in s.workers ==> !Handles(s.workers[t], step.name)
  }

  ghost predicate AllApart(accepts: Accepts, s: State, trace: seq<(nat, Step)>)
    decreases |trace|
  {
    trace != [] && Enabled(s, trace[0].0, trace[0].1) ==>
      Apart(s, trace[0].1) && AllApart(accepts, Next(accepts, s, trace[0].0, trace[0].1), trace[1..])
  }

  /** An agent in hand is registered, unless it is in the hands of its removal; and then in nobody else's. */
  ghost predicate Disciplined(s: State) {
    (forall t, name :: t in s.workers && Handles(s.workers[t], name) ==>
       (name in s.factories <==> !s.workers[t].Aborting?))
    && AbortsAlone(s) && s.orphans == {} && s.swept == {}
  }

  ghost predicate AbortsAlone(s: State) {
    forall t, u :: t in s.workers && u in s.workers && t != u && s.workers[t].Aborting? ==>
      !Handles(s.workers[u], s.workers[t].name)
  }

  lemma HandsGrowByRegistered(accepts: Accepts, s: State, t: nat, step: Step, name: Name)
    requires Enabled(s, t, step) && t in Next(accepts, s, t, step).workers
    requires Handles(Next(accepts, s, t, step).workers[t], name)
    ensures (t in s.workers && Handles(s.workers[t], name))
            || (step.ReadFactories? && name in s.factories)
            || ((step.AddAgent? || step.Unregister?) && step.name == name)
  {
    var s' := Next(accepts, s, t, step);
    if s'.workers[t].Spawning? && (step.Get? || step.Check? || step.Commit?) {
      var w, w' := s.workers[t], s'.workers[t];
      var key :| key in w'.listed + w'.held + w'.built && key.0 == name;
      assert key in w.listed + w.held + w.built;
    }
  }

  lemma NextKeepsHands(accepts: Accepts, s: State, t: nat, step: Step, u: nat, name: Name)
    requires Disciplined(s) && Enabled(s, t, step) && Apart(s, step)
    requires u in Next(accepts, s, t, step).workers && Handles(Next(accepts, s, t, step).workers[u], name)
    ensures name in Next(accepts, s, t, step).factories <==> !Next(accepts, s, t, step).workers[u].Aborting?
  {
    OthersStay(accepts, s, t, step);
    if u == t {
      HandsGrowByRegistered(accepts, s, t, step, name);
    } else {
      assert Handles(s.workers[u], name);
    }
  }

  lemma NextKeepsAlone(accepts: Accepts, s: State, t: nat, step: Step)
    requires Disciplined(s) && Enabled(s, t, step) && Apart(s, step)
    ensures AbortsAlone(Next(accepts, s, t, step))
  {
    var s' := Next(accepts, s, t, step);
    OthersStay(accepts, s, t, step);
    forall a, b | a in s'.workers && b in s'.workers && a != b && s'.workers[a].Aborting?
      ensures !Handles(s'.workers[b], s'.workers[a].name)
    {
      var name := s'.workers[a].name;
      if a != t {
        assert Handles(s.workers[a], name);
      }
      if b == t && Handles(s'.workers[t], name) {
        HandsGrowByRegistered(accepts, s, t, step, name);
      }
    }
  }

  lemma NextKeepsDisciplined(accepts: Accepts, s: State, t: nat, step: Step)
    requires Disciplined(s) && Enabled(s, t, step) && Apart(s, step)
    ensures Disciplined(Next(accepts, s, t, step))
  {
    var s' := Next(accepts, s, t, step);
    forall u, name | u in s'.workers && Handles(s'.workers[u], name)
      ensures name in s'.factories <==> !s'.workers[u].Aborting?
    {
      NextKeepsHands(accepts, s, t, step, u, name);
    }
    NextKeepsAlone(accepts, s, t, step);
    if step.Commit? {
      assert step.key in s.workers[t].listed + s.workers[t].held + s.workers[t].built;
      assert Handles(s.workers[t], step.key.0);
    } else if step.AbortTasks? {
      assert Handles(s.workers[t], s.workers[t].name);
    }
  }

  lemma {:induction false} ApartRunsStayDisciplined(accepts: Accepts, s: State, trace: seq<(nat, Step)>, end: State)
    requires Disciplined(s) && Run(accepts, s, trace, end) && AllApart(accepts, s, trace)
    ensures Disciplined(end)
    decreases |trace|
  {
    if trace != [] {
      NextKeepsDisciplined(accepts, s, trace[0].0, trace[0].1);
      ApartRunsStayDisciplined(accepts, Next(accepts, s, trace[0].0, trace[0].1), trace[1..], end);
    }
  }

  /** When the calls about each agent do not overlap, a settled run has exactly the rows it should. */
  lemma {:induction false} ApartRunsAreExact(accepts: Accepts, factories: set<Name>, trace: seq<(nat, Step)>, s: State)
    requires Run(accepts, Installed(factories), trace, s) && AllApart(accepts, Installed(factories), trace)
    requires s.workers == map[]
    ensures Attached(accepts, s) && Detached(s)
  {
    ApartRunsStayDisciplined(accepts, Installed(factories), trace, s);
    SettledRunsAttachEverything(accepts, factories, trace, s);
  }

  ghost predicate NothingAborts(s: State) {
    forall t :: t in s.workers ==> !s.workers[t].Aborting?
  }

  /** While nothing is being removed, additions and callbacks cannot help being apart. */
  lemma AddsAreApart(s: State, t: nat, step: Step)
    requires Disciplined(s) && NothingAborts(s) && Enabled(s, t, step) && !step.Unregister?
    ensures Apart(s, step)
  {
  }

  lemma {:induction false} RunsWithoutRemovalAreApart(accepts: Accepts, s: State, trace: seq<(nat, Step)>, end: State)
    requires Disciplined(s) && NothingAborts(s) && Run(accepts, s, trace, end)
    requires forall i :: 0 <= i < |trace| ==> !trace[i].1.Unregister?
    ensures AllApart(accepts, s, trace)
    decreases |trace|
  {
    if trace != [] {
      var t, step := trace[0].0, trace[0].1;
      AddsAreApart(s, t, step);
      NextKeepsDisciplined(accepts, s, t, step);
      OthersStay(accepts, s, t, step);
      RunsWithoutRemovalAreApart(accepts, Next(accepts, s, t, step), trace[1..], end);
    }
  }

  /** For every interleaving of additions with insertions and their callbacks, with no condition at all: once all have
      returned, each registered agent has exactly one drain for each present source it accepts. */
  lemma {:induction false} AddsAndCallbacksAttachEverything(accepts: Accepts, factories: set<Name>,
                                                            trace: seq<(nat, Step)>, s: State)
    requires Run(accepts, Installed(factories), trace, s) && s.workers == map[]
    requires forall i :: 0 <= i < |trace| ==> !trace[i].1.Unregister?
    ensures Attached(accepts, s) && Detached(s)
    ensures forall key :: s.drains[key] == if key in s.tasks then 1 else 0
  {
    RunsWithoutRemovalAreApart(accepts, Installed(factories), trace, s);
    ApartRunsAreExact(accepts, factories, trace, s);
    SettledRunsAttachEverything(accepts, factories, trace, s);
  }

  // ---------------------------------------------------------------- two overlaps that go wrong

  const Everything: Accepts := key => true

  ghost predicate Reachable(factories: set<Name>, s: State) {
    exists trace :: Run(Everything, Installed(factories), trace, s)
  }

  lemma {:induction false} RunSnoc(s: State, trace: seq<(nat, Step)>, mid: State, t: nat, step: Step)
    requires Run(Everything, s, trace, mid) && Enabled(mid, t, step)
    ensures Run(Everything, s, trace + [(t, step)], Next(Everything, mid, t, step))
    decreases |trace|
  {
    if trace == [] {
      assert [(t, step)][1..] == [];
    } else {
      RunSnoc(Next(Everything, s, trace[0].0, trace[0].1), trace[1..], mid, t, step);
      assert (trace + [(t, step)])[1..] == trace[1..] + [(t, step)];
    }
  }

  lemma OneMore(factories: set<Name>, s: State, t: nat, step: Step) returns (s': State)
    requires Reachable(factories, s) && Enabled(s, t, step)
    ensures s' == Next(Everything, s, t, step) && Reachable(factories, s')
  {
    hide Run;
    var trace :| Run(Everything, Installed(factories), trace, s);
    RunSnoc(Installed(factories), trace, s, t, step);
    s' := Next(Everything, s, t, step);
  }

  /** One agent, and one source whose callback, thread 0, has built it and not yet inserted the row. */
  ghost function MidCallback(factories: set<Name>, key: Key): State {
    State({key.1}, factories, {}, multiset{}, map[0 := Spawning({}, {}, {key})], {}, {})
  }

  lemma CallbackBuilds(name: Name, source: Source)
    ensures Reachable({name}, MidCallback({name}, (name, source)))
  {
    var key := (name, source);
    var s0 := Installed({name});
    Initially({name});
    hide Run, Reachable;
    var s1 := OneMore({name}, s0, 0, InsertEntry(source));
    assert s1.registry == {source};
    var s2 := OneMore({name}, s1, 0, ReadFactories);
    assert Pairs({name}, {source}) == {key};
    assert s2.workers[0] == Spawning({}, {key}, {});
    var s3 := OneMore({name}, s2, 0, Check(key));
    assert s3.workers[0] == Spawning({}, {}, {key});
    assert s3.workers == MidCallback({name}, key).workers;
  }

  lemma Initially(factories: set<Name>)
    ensures Reachable(factories, Installed(factories))
  {
    assert Run(Everything, Installed(factories), [], Installed(factories));
  }

  /** A callback that has read the factories spawns a drain for an agent that is removed before it gets there, and the
      drain outlives the removal. */
  lemma {:induction false} LateCallbackOutlivesRemoval(name: Name, source: Source)
    ensures exists s :: Reachable({name}, s) && s.workers == map[] && s.factories == {}
                        && s.drains == multiset{(name, source)}
  {
    var key := (name, source);
    CallbackBuilds(name, source);
    hide Run, Reachable;
    var s3 := MidCallback({name}, key);
    var s4 := OneMore({name}, s3, 1, Unregister(name));
    assert s4.factories == {} && s4.workers == s3.workers[1 := Aborting(name)];
    var s5 := OneMore({name}, s4, 1, AbortTasks);
    assert s5.workers == s3.workers && s5.tasks == {};
    var s6 := OneMore({name}, s5, 0, Commit(key));
    assert s6.workers[0] == Spawning({}, {}, {});
    var s7 := OneMore({name}, s6, 0, Return);
    assert s7.workers == map[];
  }

  /** One agent attached to one source, and every call returned. */
  ghost function Settled(key: Key): State {
    State({key.1}, {key.0}, {key}, multiset{key}, map[], {}, {})
  }

  lemma CallbackAttaches(name: Name, source: Source)
    ensures Reachable({name}, Settled((name, source)))
  {
    var key := (name, source);
    CallbackBuilds(name, source);
    hide Run, Reachable;
    var s4 := OneMore({name}, MidCallback({name}, key), 0, Commit(key));
    assert s4.workers[0] == Spawning({}, {}, {}) && s4.tasks == {key};
    var s5 := OneMore({name}, s4, 0, Return);
    assert s5.workers == map[];
    assert s5 == Settled(key);
  }

  lemma ReaddSeesOldRow(name: Name, source: Source) returns (s: State)
    ensures Reachable({name}, s) && s.registry == {source} && s.factories == {name} && s.tasks == {(name, source)}
    ensures s.workers == map[1 := Aborting(name), 2 := Spawning({}, {}, {})]
  {
    var key := (name, source);
    CallbackAttaches(name, source);
    hide Run, Reachable;
    var s1 := OneMore({name}, Settled(key), 1, Unregister(name));
    assert s1.factories == {} && s1.workers == map[1 := Aborting(name)];
    var s2 := OneMore({name}, s1, 2, AddAgent(name));
    assert s2.factories == {name};
    var s3 := OneMore({name}, s2, 2, ReadKeys);
    assert Pairs({name}, {source}) == {key};
    assert s3.workers[2] == Spawning({key}, {}, {});
    var s4 := OneMore({name}, s3, 2, Get(key));
    assert s4.workers[2] == Spawning({}, {key}, {});
    s := OneMore({name}, s4, 2, Check(key));
    assert s.workers[2] == Spawning({}, {}, {});
  }

  /** An agent added again between the two halves of its removal finds its old row, spawns nothing, and then loses the
      row: it ends up registered, its source present, and not attached. */
  lemma {:induction false} ReaddedAgentLosesItsTask(name: Name, source: Source)
    ensures exists s :: Reachable({name}, s) && s.workers == map[] && s.factories == {name}
                        && s.registry == {source} && s.tasks == {}
  {
    var s1 := ReaddSeesOldRow(name, source);
    hide Run, Reachable;
    var s2 := OneMore({name}, s1, 2, Return);
    assert s2.workers == map[1 := Aborting(name)];
    var s3 := OneMore({name}, s2, 1, AbortTasks);
    assert s3.workers == map[] && s3.tasks == {};
  }

  // ---------------------------------------------------------------- the runner as an object, one call at a time

  class RunnerInner {
    const accepts: Accepts
    var registry: set<Source>
    var factories: seq<Name>
    var tasks: set<Key>
    var stats: set<Key>

    constructor (accepts: Accepts, factories: seq<Name>)
      ensures this.accepts == accepts && this.factories == factories && registry == {} && tasks == {} && stats == {}
    {
      this.accepts := accepts;
      this.factories := factories;
      registry, tasks, stats := {}, {}, {};
    }

    /** Idempotent per key. */
    method SpawnFor(source: Source, name: Name) returns (spawned: bool)
      modifies this`tasks, this`stats
      ensures spawned <==> (name, source) !in old(tasks) && accepts((name, source))
      ensures tasks == if spawned then old(tasks) + {(name, source)} else old(tasks)
      ensures stats == if spawned then old(stats) + {(name, source)} else old(stats)
    {
      var key := (name, source);
      if key in tasks {
        return false;
      }
      if !accepts(key) {
        return false;
      }
      stats := stats + {key};
      tasks := tasks + {key};
      return true;
    }

    method AddAgentNow(name: Name) returns (added: bool)
      modifies this`factories, this`tasks, this`stats
      ensures added <==> name !in old(factories)
      ensures !added ==> factories == old(factories) && tasks == old(tasks) && stats == old(stats)
      ensures added ==> factories == old(factories) + [name]
      ensures added ==> forall key :: key in tasks <==>
                key in old(tasks) || (key.0 == name && key.1 in registry && accepts(key))
      ensures stats == old(stats) + (tasks - old(tasks))
    {
      if name in factories {
        return false;
      }
      factories := factories + [name];
      var rest := registry;
      while rest != {}
        invariant rest <= registry && factories == old(factories) + [name]
        invariant stats == old(stats) + (tasks - old(tasks))
        invariant forall key :: key in tasks <==>
                    key in old(tasks) || (key.0 == name && key.1 in registry && key.1 !in rest && accepts(key))
        decreases rest
      {
        var source :| source in rest;
        rest := rest - {source};
        var _ := SpawnFor(source, name);
      }
      return true;
    }

    /** The callback for a source that was just inserted. */
    method OnEntryCreated(source: Source)
      modifies this`tasks, this`stats
      ensures forall key :: key in tasks <==>
                key in old(tasks) || (key.1 == source && key.0 in factories && accepts(key))
      ensures stats == old(stats) + (tasks - old(tasks))
    {
      var snapshot := factories;
      for i := 0 to |snapshot|
        invariant forall key :: key in tasks <==>
                    key in old(tasks) || (key.1 == source && key.0 in snapshot[..i] && accepts(key))
        invariant stats == old(stats) + (tasks - old(tasks))
      {
        assert snapshot[..i + 1] == snapshot[..i] + [snapshot[i]];
        var _ := SpawnFor(source, snapshot[i]);
      }
      assert snapshot[..|snapshot|] == snapshot;
    }

    /** Aborts exactly the tasks of that agent, and counts them; counters are kept. */
    method RemoveAgentNow(name: Name) returns (aborted: nat)
      modifies this`factories, this`tasks
      ensures forall n :: n in factories <==> n in old(factories) && n != name
      ensures tasks == set key | key in old(tasks) && key.0 != name
      ensures aborted == |old(tasks)| - |tasks|
    {
      var kept: seq<Name> := [];
      for i := 0 to |factories|
        invariant forall n :: n in kept <==> n in factories[..i] && n != name
      {
        assert factories[..i + 1] == factories[..i] + [factories[i]];
        if factories[i] != name {
          kept := kept + [factories[i]];
        }
      }
      assert factories[..|factories|] == factories;
      factories := kept;
      aborted := 0;
      var rest := tasks;
      while rest != {}
        invariant rest <= tasks <= old(tasks) && factories == kept
        invariant forall key :: key in old(tasks) ==> (key in tasks <==> key.0 != name || key in rest)
        invariant aborted + |tasks| == |old(tasks)|
        decreases rest
      {
        var key :| key in rest;
        rest := rest - {key};
        if key.0 == name {
          tasks := tasks - {key};
          aborted := aborted + 1;
        }
      }
    }
  }

  // ---------------------------------------------------------------- one drain task

  datatype Call = OnStart | OnFragment(index: nat) | OnStop

  /** Which calls panic. */
  function Raised(flags: seq<bool>): (raised: set<nat>)
    ensures forall i: nat :: i in raised <==> i < |flags| && flags[i]
  {
    set i: nat | 0 <= i < |flags| && flags[i]
  }

  /** `drive`: a panic in `on_start` ends the drain; later panics are counted and the drain goes on to `on_stop`. */
  method Drive(startPanics: bool, fragmentPanics: seq<bool>, stopPanics: bool)
    returns (calls: seq<Call>, seen: nat, panics: nat)
    ensures startPanics ==> calls == [OnStart] && seen == 0 && panics == 1
    ensures !startPanics ==> seen == |fragmentPanics| && |calls| == seen + 2
    ensures !startPanics ==> calls[0] == OnStart && calls[seen + 1] == OnStop
    ensures !startPanics ==> forall i :: 0 <= i < seen ==> calls[i + 1] == OnFragment(i)
    ensures !startPanics ==> panics == |Raised(fragmentPanics)| + if stopPanics then 1 else 0
  {
    calls, seen, panics := [OnStart], 0, 0;
    if startPanics {
      panics := 1;
      return;
    }
    for i := 0 to |fragmentPanics|
      invariant seen == i && |calls| == i + 1 && calls[0] == OnStart
      invariant forall j :: 0 <= j < i ==> calls[j + 1] == OnFragment(j)
      invariant panics == |Raised(fragmentPanics[..i])|
    {
      seen := seen + 1;
      calls := calls + [OnFragment(i)];
      assert Raised(fragmentPanics[..i + 1]) == Raised(fragmentPanics[..i]) + if fragmentPanics[i] then {i} else {};
      if fragmentPanics[i] {
        panics := panics + 1;
      }
    }
    assert fragmentPanics[..|fragmentPanics|] == fragmentPanics;
    calls := calls + [OnStop];
    if stopPanics {
      panics := panics + 1;
    }
  }
}
