/** The fork bookkeeping of the evaluator: which local id each fork was given,
    and the block it was first forked at. */
module Forker {
  import opened Ops

  datatype ForkId = ForkId(url: string, block: Option<nat>)

  /** A fork's local id and original block. */
  datatype ForkEntry = ForkEntry(local: nat, block: nat)

  /** What a request for a new fork meets: no environment to fork from, a backend
      that refuses it, or a new fork, from an environment at `number`. */
  datatype Answer = Unreachable | Refused(number: nat) | Created(number: nat)

  /** What the executor says went wrong. */
  datatype ExecutorReport = NoActiveFork | BackendReport

  /** A fork that could not be reached or spawned is reported as it came; everything
      else is an executor error. */
  datatype ForkError = Eyre | ExecutorError(report: ExecutorReport)

  datatype Action =
    | Add(id: ForkId, env: Option<nat>, answer: Answer)
    | Roll(block: Option<nat>, accepted: bool)

  /** `backend` and `heights` are the forks the backend holds, by its own ids, and
      their current blocks; `number` is the executor's block number. */
  datatype State = State(
    forks: map<ForkId, ForkEntry>, backend: seq<ForkId>, heights: seq<nat>, active: Option<nat>, number: nat)

  function GetOr(chosen: Option<nat>, default: nat): nat {
    if chosen.Some? then chosen.value else default
  }

  function Empty(): State {
    State(map[], [], [], None, 0)
  }

  // ----- the specification of each call -----

  function First(id: ForkId, env: Option<nat>, number: nat): State {
    var block := GetOr(id.block, number);
    State(map[id := ForkEntry(0, block)], [id], [block], Some(0), GetOr(env, number))
  }

  function Added(s: State, id: ForkId, env: Option<nat>, answer: Answer): (State, Result<(), ForkError>) {
    if |s.forks| == 0 then
      match answer
      case Created(number) => (First(id, env, number), Ok(()))
      case _ => (s, Err(Eyre))
    else if id in s.forks then
      var local := s.forks[id].local;
      if s.active == Some(local) then (s, Ok(()))
      else if local < |s.backend| then (s.(active := Some(local)), Ok(()))
      else (s, Err(ExecutorError(BackendReport)))
    else
      match answer
      case Unreachable => (s, Err(Eyre))
      case Refused(number) =>
        (s.(forks := s.forks[id := ForkEntry(|s.forks|, GetOr(id.block, number))]), Err(ExecutorError(BackendReport)))
      case Created(number) =>
        var block := GetOr(id.block, number);
        (s.(forks := s.forks[id := ForkEntry(|s.forks|, block)],
            backend := s.backend + [id],
            heights := s.heights + [block],
            active := Some(|s.backend|)),
         Ok(()))
  }

  /** The block the fork with a local id was first forked at. */
  ghost function Origin(forks: map<ForkId, ForkEntry>, local: nat): Option<nat> {
    if id :| id in forks && forks[id].local == local then Some(forks[id].block) else None
  }

  ghost function Rolled(s: State, block: Option<nat>, accepted: bool): (State, Result<(), ForkError>) {
    if s.active.None? then (s, Err(ExecutorError(NoActiveFork)))
    else
      match Origin(s.forks, s.active.value)
      case None => (s, Err(ExecutorError(NoActiveFork)))
      case Some(origin) =>
        var target := GetOr(block, origin);
        if !accepted then (s.(number := target), Err(ExecutorError(BackendReport)))
        else if s.active.value < |s.heights|
        then (s.(number := target, heights := s.heights[s.active.value := target]), Ok(()))
        else (s.(number := target), Ok(()))
  }

  /** Local ids are below the number of forks and no two forks share one. */
  ghost predicate LocalIds(forks: map<ForkId, ForkEntry>) {
    && (forall id | id in forks :: forks[id].local < |forks|)
    && (forall i, j | i in forks && j in forks && forks[i].local == forks[j].local :: i == j)
  }

  lemma LocalIdsOne(id: ForkId, block: nat)
    ensures LocalIds(map[id := ForkEntry(0, block)])
  {}

  /** The next local id is free. */
  lemma LocalIdsExtend(forks: map<ForkId, ForkEntry>, id: ForkId, block: nat)
    requires LocalIds(forks) && id !in forks
    ensures LocalIds(forks[id := ForkEntry(|forks|, block)])
  {
    var more := forks[id := ForkEntry(|forks|, block)];
    assert forall other | other in more && other != id :: other in forks && more[other] == forks[other];
  }

  class Forker {
    var forks: map<ForkId, ForkEntry>
    var backend: seq<ForkId>
    var heights: seq<nat>
    var active: Option<nat>
    var number: nat

    ghost predicate Valid()
      reads this
    {
      LocalIds(forks)
    }

    ghost function View(): State
      reads this
    {
      State(forks, backend, heights, active, number)
    }

    constructor ()
      ensures Valid() && View() == Empty()
    {
      forks := map[];
      backend := [];
      heights := [];
      active := None;
      number := 0;
    }

    /** A forker over a backend that was spawned with its first fork, at the block
        asked for or the one its environment is at. */
    constructor Spawned(id: ForkId, env: Option<nat>, number: nat)
      ensures View() == First(id, env, number)
    {
      var block := if id.block.Some? then id.block.value else number;
      this.forks := map[id := ForkEntry(0, block)];
      this.backend := [id];
      this.heights := [block];
      this.active := Some(0);
      this.number := if env.Some? then env.value else number;
    }

    static method NewWithFork(id: ForkId, env: Option<nat>, answer: Answer) returns (r: Result<Forker, ForkError>)
      ensures r.Ok? <==> answer.Created?
      ensures r.Err? ==> r.error == Eyre
      ensures r.Ok? ==> fresh(r.value) && r.value.View() == First(id, env, answer.number)
    {
      if !answer.Created? { return Err(Eyre); }
      var forker := new Forker.Spawned(id, env, answer.number);
      r := Ok(forker);
    }

    method AddOrSelect(id: ForkId, env: Option<nat>, answer: Answer) returns (r: Result<(), ForkError>)
      requires Valid()
      modifies this
      ensures Valid() && (View(), r) == Added(old(View()), id, env, answer)
    {
      hide LocalIds;
      LocalIdsOne(id, if id.block.Some? then id.block.value else if answer.Created? then answer.number else 0);
      if |forks| == 0 {
        var spawned := NewWithFork(id, env, answer);
        if spawned.Err? { return Err(spawned.error); }
        var forker := spawned.value;
        forks := forker.forks;
        backend, heights, active, number := forker.backend, forker.heights, forker.active, forker.number;
        return Ok(());
      }
      if id in forks {
        var local := forks[id].local;
        if active == Some(local) { return Ok(()); }
        if local >= |backend| { return Err(ExecutorError(BackendReport)); }
        active := Some(local);
        return Ok(());
      }
      if answer.Unreachable? { return Err(Eyre); }
      var block := if id.block.Some? then id.block.value else answer.number;
      LocalIdsExtend(forks, id, block);
      forks := forks[id := ForkEntry(|forks|, block)];
      if answer.Refused? { return Err(ExecutorError(BackendReport)); }
      active := Some(|backend|);
      backend := backend + [id];
      heights := heights + [block];
      return Ok(());
    }

    /** Scans the map's values, in whatever order they come, for the active fork. */
    method RollFork(block: Option<nat>, accepted: bool) returns (r: Result<(), ForkError>)
      requires Valid()
      modifies this
      ensures Valid() && (View(), r) == Rolled(old(View()), block, accepted)
    {
      if active.None? { return Err(ExecutorError(NoActiveFork)); }
      var origin: Option<nat> := None;
      var left := forks.Values;
      while left != {} && origin.None?
        invariant left <= forks.Values
        invariant origin.None? ==> forall e | e in forks.Values - left :: e.local != active.value
        invariant origin.Some? ==>
          exists id :: id in forks && forks[id].local == active.value && origin == Some(forks[id].block)
        decreases |left|
      {
        var e :| e in left;
        left := left - {e};
        if e.local == active.value {
          origin := Some(e.block);
        }
      }
      OriginIs(forks, active.value, origin);
      if origin.None? { return Err(ExecutorError(NoActiveFork)); }
      number := if block.Some? then block.value else origin.value;
      if !accepted { return Err(ExecutorError(BackendReport)); }
      if active.value < |heights| {
        heights := heights[active.value := number];
      }
      return Ok(());
    }
  }

  /** The scan has one possible outcome. */
  lemma OriginIs(forks: map<ForkId, ForkEntry>, local: nat, origin: Option<nat>)
    requires LocalIds(forks)
    requires match origin
             case None => forall e | e in forks.Values :: e.local != local
             case Some(block) => exists id :: id in forks && forks[id].local == local && forks[id].block == block
    ensures Origin(forks, local) == origin
  {
    match origin
    case None =>
      forall id | id in forks
        ensures forks[id].local != local
      {
        assert forks[id] in forks.Values;
      }
    case Some(block) =>
  }

  // ----- runs -----

  ghost function Next(s: State, action: Action): State {
    match action
    case Add(id, env, answer) => Added(s, id, env, answer).0
    case Roll(block, accepted) => Rolled(s, block, accepted).0
  }

  /** The state after a run from a new forker. */
  ghost function Outcome(actions: seq<Action>): State {
    if actions == [] then Empty() else Next(Outcome(actions[..|actions| - 1]), actions[|actions| - 1])
  }

  /** `before`, and the fork an action adds after it: one that is new and can be
      reached. The first of all also has to be created. */
  function Noted(before: seq<ForkId>, action: Action): seq<ForkId> {
    match action
    case Roll(_, _) => before
    case Add(id, _, answer) =>
      if id in before || answer.Unreachable? || (before == [] && answer.Refused?) then before else before + [id]
  }

  /** The forks of a run in order of first addition. */
  function FirstAdditions(actions: seq<Action>): seq<ForkId> {
    if actions == [] then [] else Noted(FirstAdditions(actions[..|actions| - 1]), actions[|actions| - 1])
  }

  /** How many of those the backend refused. */
  function Refusals(actions: seq<Action>): nat {
    if actions == [] then 0
    else
      var n := |actions| - 1;
      Refusals(actions[..n]) + Refusal(FirstAdditions(actions[..n]), actions[n])
  }

  ghost predicate InOrder(forks: map<ForkId, ForkEntry>, order: seq<ForkId>) {
    && |forks| == |order|
    && (forall i | 0 <= i < |order| :: order[i] in forks && forks[order[i]].local == i)
    && (forall id | id in forks :: id in order)
  }

  lemma InOrderGivesLocalIds(forks: map<ForkId, ForkEntry>, order: seq<ForkId>)
    requires InOrder(forks, order)
    ensures LocalIds(forks)
  {}

  lemma StepKeepsOrder(s: State, order: seq<ForkId>, action: Action)
    requires InOrder(s.forks, order)
    ensures InOrder(Next(s, action).forks, Noted(order, action))
  {
    hide Origin;
    if action.Add? {
      assert order == [] ==> s.forks == map[];
      assert action.id in s.forks <==> action.id in order;
    }
  }

  /** After every run the local ids are exactly `0..n-1`, given out in order of
      first addition. */
  lemma {:induction false} IdsInOrder(actions: seq<Action>)
    ensures InOrder(Outcome(actions).forks, FirstAdditions(actions))
    ensures LocalIds(Outcome(actions).forks)
  {
    hide Next, Noted, LocalIds;
    if actions == [] {
    } else {
      var n := |actions| - 1;
      IdsInOrder(actions[..n]);
      StepKeepsOrder(Outcome(actions[..n]), FirstAdditions(actions[..n]), actions[n]);
    }
    InOrderGivesLocalIds(Outcome(actions).forks, FirstAdditions(actions));
  }

  /** A fork keeps its local id and its original block for the rest of every run. */
  lemma {:induction false} NeverReassigned(actions: seq<Action>, n: nat, id: ForkId)
    requires n <= |actions| && id in Outcome(actions[..n]).forks
    ensures id in Outcome(actions).forks && Outcome(actions).forks[id] == Outcome(actions[..n]).forks[id]
    decreases |actions|
  {
    if n == |actions| {
      assert actions[..n] == actions;
    } else {
      assert actions[..|actions| - 1][..n] == actions[..n];
      NeverReassigned(actions[..|actions| - 1], n, id);
      assert id in Outcome(actions[..|actions| - 1]).forks.Keys;
    }
  }

  /** The map's local ids name the same forks as the backend's ids. */
  ghost predicate Agrees(s: State) {
    && |s.backend| == |s.forks|
    && forall id | id in s.forks :: s.forks[id].local < |s.backend| && s.backend[s.forks[id].local] == id
  }

  /** The backend is a step behind the map for every refusal. */
  ghost predicate BackendLags(s: State, order: seq<ForkId>, refusals: nat) {
    && |s.backend| + refusals == |order|
    && |s.heights| == |s.backend|
    && (order != [] ==> s.active.Some? && s.active.value < |s.backend|)
    && (order == [] ==> s.active.None?)
  }

  function Refusal(before: seq<ForkId>, action: Action): nat {
    if action.Add? && action.answer.Refused? && before != [] && action.id !in before then 1 else 0
  }

  lemma StepCounts(s: State, order: seq<ForkId>, refusals: nat, action: Action)
    requires InOrder(s.forks, order) && BackendLags(s, order, refusals)
    ensures BackendLags(Next(s, action), Noted(order, action), refusals + Refusal(order, action))
  {
    hide Origin;
    if action.Add? {
      assert order == [] <==> s.forks == map[];
      assert action.id in s.forks <==> action.id in order;
    }
  }

  lemma {:induction false} BackendCount(actions: seq<Action>)
    ensures BackendLags(Outcome(actions), FirstAdditions(actions), Refusals(actions))
  {
    hide Next, Noted, InOrder, Refusal;
    if actions == [] {
    } else {
      var n := |actions| - 1;
      BackendCount(actions[..n]);
      IdsInOrder(actions[..n]);
      StepCounts(Outcome(actions[..n]), FirstAdditions(actions[..n]), Refusals(actions[..n]), actions[n]);
    }
  }

  lemma StepAgrees(s: State, order: seq<ForkId>, action: Action)
    requires InOrder(s.forks, order) && s.backend == order && Refusal(order, action) == 0
    ensures Next(s, action).backend == Noted(order, action)
  {
    hide Origin;
    if action.Add? {
      assert order == [] <==> s.forks == map[];
      assert action.id in s.forks <==> action.id in order;
    }
  }

  lemma {:induction false} CreatedAgree(actions: seq<Action>)
    requires Refusals(actions) == 0
    ensures Outcome(actions).backend == FirstAdditions(actions)
  {
    hide Next, Noted, InOrder, Refusal;
    if actions == [] {
    } else {
      var n := |actions| - 1;
      CreatedAgree(actions[..n]);
      IdsInOrder(actions[..n]);
      StepAgrees(Outcome(actions[..n]), FirstAdditions(actions[..n]), actions[n]);
    }
  }

  /** The map and the backend agree on every id exactly when the backend never
      refused a fork that the map had already recorded. */
  lemma AgreesIffNeverRefused(actions: seq<Action>)
    ensures Agrees(Outcome(actions)) <==> Refusals(actions) == 0
  {
    IdsInOrder(actions);
    BackendCount(actions);
    if Refusals(actions) == 0 {
      CreatedAgree(actions);
    }
  }

  /** How many forks a run added before the backend first refused one. */
  function Settled(actions: seq<Action>): nat {
    if Refusals(actions) == 0 then |FirstAdditions(actions)| else Settled(actions[..|actions| - 1])
  }

  /** Up to the first refusal the backend's ids are the map's; after it, none is. */
  ghost predicate DriftsAfter(settled: nat, backend: seq<ForkId>, order: seq<ForkId>) {
    && settled <= |backend| <= |order|
    && forall i | 0 <= i < |backend| :: backend[i] == order[i] <==> i < settled
  }

  lemma StepDrifts(s: State, order: seq<ForkId>, refusals: nat, settled: nat, action: Action)
    requires InOrder(s.forks, order) && BackendLags(s, order, refusals) && DriftsAfter(settled, s.backend, order)
    requires refusals == 0 ==> settled == |order|
    ensures var order', refusals' := Noted(order, action), refusals + Refusal(order, action);
            DriftsAfter(if refusals' == 0 then |order'| else settled, Next(s, action).backend, order')
  {
    hide Origin;
    if action.Add? {
      assert order == [] <==> s.forks == map[];
      assert action.id in s.forks <==> action.id in order;
    }
  }

  lemma {:induction false} BackendDrifts(actions: seq<Action>)
    ensures DriftsAfter(Settled(actions), Outcome(actions).backend, FirstAdditions(actions))
  {
    hide Next, Noted, InOrder, Refusal, DriftsAfter, BackendLags;
    if actions == [] {
      NothingDrifts();
    } else {
      var n := |actions| - 1;
      BackendDrifts(actions[..n]);
      IdsInOrder(actions[..n]);
      BackendCount(actions[..n]);
      StepDrifts(Outcome(actions[..n]), FirstAdditions(actions[..n]), Refusals(actions[..n]), Settled(actions[..n]), actions[n]);
    }
  }

  lemma NothingDrifts()
    ensures DriftsAfter(0, [], [])
  {}

  /** After any run with a fork, rolling without a block goes to the original block
      of the fork the map knows by the active id, and that is the fork active in the
      backend exactly when it was added before the backend's first refusal. */
  lemma RollIsExact(actions: seq<Action>)
    requires FirstAdditions(actions) != []
    ensures var s, order := Outcome(actions), FirstAdditions(actions);
            && s.active.Some? && s.active.value < |s.backend| == |s.heights| <= |order|
            && var named := order[s.active.value];
               && named in s.forks
               && Rolled(s, None, true) ==
                  (s.(number := s.forks[named].block, heights := s.heights[s.active.value := s.forks[named].block]), Ok(()))
               && (named == s.backend[s.active.value] <==> s.active.value < Settled(actions))
  {
    IdsInOrder(actions);
    BackendCount(actions);
    BackendDrifts(actions);
    var s := Outcome(actions);
    RolledToOrigin(s, FirstAdditions(actions)[s.active.value]);
  }

  /** So a fork added before any refusal rolls back to its own original block,
      whatever was refused since. */
  lemma RollReturnsToOrigin(actions: seq<Action>)
    requires Outcome(actions).active.Some? && Outcome(actions).active.value < Settled(actions)
    ensures var s := Outcome(actions);
            && s.active.value < |s.backend| == |s.heights| && s.backend[s.active.value] in s.forks
            && var origin := s.forks[s.backend[s.active.value]].block;
               Rolled(s, None, true) ==
               (s.(number := origin, heights := s.heights[s.active.value := origin]), Ok(()))
  {
    BackendDrifts(actions);
    RollIsExact(actions);
  }

  /** A roll to a block asked for goes there, whatever the fork's original block: an
      accepted one moves the executor and the active fork and nothing else, a refused
      one the executor alone. Without a fork there is nothing to roll. */
  lemma RollGoesToBlock(actions: seq<Action>, block: nat)
    ensures var s, order := Outcome(actions), FirstAdditions(actions);
            if order == [] then
              forall choice: Option<nat>, accepted: bool ::
                Rolled(s, choice, accepted) == (s, Err(ExecutorError(NoActiveFork)))
            else
              && s.active.Some? && s.active.value < |s.heights| <= |order| && order[s.active.value] in s.forks
              && Rolled(s, Some(block), true) ==
                 (s.(number := block, heights := s.heights[s.active.value := block]), Ok(()))
              && Rolled(s, Some(block), false) == (s.(number := block), Err(ExecutorError(BackendReport)))
              && Rolled(s, None, false) ==
                 (s.(number := s.forks[order[s.active.value]].block), Err(ExecutorError(BackendReport)))
  {
    hide FirstAdditions, Refusals, Outcome;
    IdsInOrder(actions);
    BackendCount(actions);
    var s, order := Outcome(actions), FirstAdditions(actions);
    if order != [] {
      OriginIs(s.forks, s.active.value, Some(s.forks[order[s.active.value]].block));
    }
  }

  // ----- what an addition does after any run -----

  /** A new fork that the backend creates gets the next ids of map and backend, is at
      the block asked for or else the reported one, and becomes the active fork. The
      first of all also sets the executor's block, unless an environment was given. */
  lemma CreatedForkIsActive(actions: seq<Action>, id: ForkId, env: Option<nat>, number: nat)
    requires id !in FirstAdditions(actions)
    ensures var s := Outcome(actions);
            var block := if id.block.Some? then id.block.value else number;
            Added(s, id, env, Created(number)) ==
            (State(s.forks[id := ForkEntry(|s.forks|, block)], s.backend + [id], s.heights + [block],
                   Some(|s.backend|),
                   if FirstAdditions(actions) != [] then s.number else if env.Some? then env.value else number),
             Ok(()))
  {
    hide FirstAdditions, Refusals, Outcome;
    IdsInOrder(actions);
    BackendCount(actions);
    assert FirstAdditions(actions) == [] <==> Outcome(actions).forks == map[];
    assert id !in Outcome(actions).forks;
    if FirstAdditions(actions) == [] {
      var s, block := Outcome(actions), if id.block.Some? then id.block.value else number;
      assert s.backend + [id] == [id] && s.heights + [block] == [block];
      assert s.forks[id := ForkEntry(0, block)] == map[id := ForkEntry(0, block)];
    }
  }

  /** A known fork becomes the active one, and nothing else changes; it fails, and
      then changes nothing, exactly when the backend never issued its id. */
  lemma KnownForkIsSelected(actions: seq<Action>, id: ForkId, env: Option<nat>, answer: Answer)
    requires id in FirstAdditions(actions)
    ensures var s := Outcome(actions);
            && id in s.forks
            && var local := s.forks[id].local;
               Added(s, id, env, answer) ==
               if local < |s.backend| then (s.(active := Some(local)), Ok(()))
               else (s, Err(ExecutorError(BackendReport)))
  {
    hide FirstAdditions, Refusals, Outcome;
    IdsInOrder(actions);
    BackendCount(actions);
    var j :| 0 <= j < |FirstAdditions(actions)| && FirstAdditions(actions)[j] == id;
  }

  /** After a run without refusals, every addition that succeeds leaves its own fork
      active in the backend. */
  lemma AddedForkIsActive(actions: seq<Action>, id: ForkId, env: Option<nat>, answer: Answer)
    requires Refusals(actions) == 0
    ensures var (t, r) := Added(Outcome(actions), id, env, answer);
            && (r.Ok? <==> id in FirstAdditions(actions) || answer.Created?)
            && (r.Ok? ==> t.active.Some? && t.active.value < |t.backend| && t.backend[t.active.value] == id)
  {
    hide FirstAdditions, Refusals, Outcome;
    IdsInOrder(actions);
    CreatedAgree(actions);
    if id in FirstAdditions(actions) {
      KnownForkIsSelected(actions, id, env, answer);
    } else if answer.Created? {
      CreatedForkIsActive(actions, id, env, answer.number);
    } else {
      FailedAddition(actions, id, env, answer);
    }
  }

  /** A fork that cannot be reached, or a first fork that cannot be spawned, changes
      nothing; a later one that the backend refuses is left in the map alone. */
  lemma FailedAddition(actions: seq<Action>, id: ForkId, env: Option<nat>, answer: Answer)
    requires id !in FirstAdditions(actions) && !answer.Created?
    ensures var s := Outcome(actions);
            Added(s, id, env, answer) ==
            if answer.Unreachable? || FirstAdditions(actions) == [] then (s, Err(Eyre))
            else
              var block := if id.block.Some? then id.block.value else answer.number;
              (s.(forks := s.forks[id := ForkEntry(|s.forks|, block)]), Err(ExecutorError(BackendReport)))
  {
    hide FirstAdditions, Refusals, Outcome;
    IdsInOrder(actions);
    assert FirstAdditions(actions) == [] <==> Outcome(actions).forks == map[];
    assert id !in Outcome(actions).forks;
  }

  lemma RunPush(actions: seq<Action>, action: Action)
    ensures Outcome(actions + [action]) == Next(Outcome(actions), action)
  {
    assert (actions + [action])[..|actions|] == actions;
  }

  /** After a refused creation a later fork is rolled to the refused one's block:
      `c`, asked for at block 9, is rolled to the block of `b`. */
  lemma RefusalMisleads(a: ForkId, b: ForkId, c: ForkId)
    requires a != b && b != c && a != c && b.block == Some(7) && c.block == Some(9)
    ensures var s := Outcome([Add(a, None, Created(5)), Add(b, None, Refused(5)), Add(c, None, Created(5))]);
            s.active == Some(1) && s.backend == [a, c] && Rolled(s, None, true).0.heights == [GetOr(a.block, 5), 7]
  {
    hide Outcome, Next, Rolled, Origin, LocalIds;
    var x, y, z := Add(a, None, Created(5)), Add(b, None, Refused(5)), Add(c, None, Created(5));
    assert [] + [x] == [x] && [x] + [y] == [x, y] && [x, y] + [z] == [x, y, z];
    RunPush([], x);
    RunPush([x], y);
    RunPush([x, y], z);
    IdsInOrder([x, y, z]);
    NewRun();
    Misled(a, b, c, x, y, z);
    RolledToOrigin(Outcome([x, y, z]), b);
  }

  lemma NewRun()
    ensures Outcome([]) == Empty()
  {}

  lemma Misled(a: ForkId, b: ForkId, c: ForkId, x: Action, y: Action, z: Action)
    requires a != b && b != c && a != c && b.block == Some(7) && c.block == Some(9)
    requires x == Add(a, None, Created(5)) && y == Add(b, None, Refused(5)) && z == Add(c, None, Created(5))
    ensures Next(Next(Next(Empty(), x), y), z) ==
            State(map[a := ForkEntry(0, GetOr(a.block, 5)), b := ForkEntry(1, 7), c := ForkEntry(2, 9)],
                  [a, c], [GetOr(a.block, 5), 9], Some(1), 5)
  {
    var one := First(a, None, 5);
    assert Next(Empty(), x) == one;
    var two := one.(forks := map[a := ForkEntry(0, GetOr(a.block, 5)), b := ForkEntry(1, 7)]);
    assert Next(one, y) == two;
    var three := map[a := ForkEntry(0, GetOr(a.block, 5)), b := ForkEntry(1, 7), c := ForkEntry(2, 9)];
    assert two.forks[c := ForkEntry(|two.forks|, 9)] == three;
  }

  /** Rolling without a block goes by the map's entry for the active local id. */
  lemma RolledToOrigin(s: State, id: ForkId)
    requires LocalIds(s.forks) && id in s.forks && s.active == Some(s.forks[id].local)
    requires s.active.value < |s.heights|
    ensures Rolled(s, None, true) ==
            (s.(number := s.forks[id].block, heights := s.heights[s.active.value := s.forks[id].block]), Ok(()))
  {
    OriginIs(s.forks, s.active.value, Some(s.forks[id].block));
  }
}
