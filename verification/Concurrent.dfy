/**
 Any number of `SendBatch` calls at once (modules/base_client.go, `SendBatch` with `Lock` and the
 deferred `Unlock`). The state is shared by all calls; an action is one caller taking its shard's
 token, making one pass, or giving the token back, or a cache entry vanishing. A theorem here is
 about every list of actions, that is, about every interleaving.
 */
module Concurrent {
  import opened Arith
  import opened Batches
  import opened Sender
  import opened Locker

  /** A call waits for its shard, holds it, or is over. A call with nothing valid to send never locks. */
  datatype Phase = Waiting | Holding | Finished

  /**
   One call: its key name, the account that name stands for, its fixed number, its messages, and how far
   it is. `began` and `trace` are its history: what it found when it got the lock, and what happened in
   each of its passes.
   */
  datatype Caller = Caller(from: Key, account: nat, fixed: Option<nat>, msgs: seq<Msg>, check: Validity,
                           phase: Phase, run: Run, began: Shared, trace: seq<Event>)

  datatype System = System(cached: bool, tokens: seq<nat>, callers: seq<Caller>, accounts: seq<Shared>)

  datatype Action = Acquire(i: nat) | Pass(i: nat, e: Event) | Release(i: nat) | Vanish(a: nat)

  function Shard(sys: System, i: nat): (k: nat)
    requires i < |sys.callers| && sys.tokens != []
    ensures k < |sys.tokens|
  {
    ShardOf(sys.callers[i].from, |sys.tokens|)
  }

  /** There is a shard, and every caller's account exists. */
  predicate Shaped(sys: System) {
    && sys.tokens != []
    && forall i :: 0 <= i < |sys.callers| ==> sys.callers[i].account < |sys.accounts|
  }

  predicate Enabled(sys: System, a: Action)
    requires Shaped(sys)
  {
    match a
    case Acquire(i) => i < |sys.callers| && sys.callers[i].phase == Waiting && sys.tokens[Shard(sys, i)] == 0
    case Pass(i, _) => i < |sys.callers| && sys.callers[i].phase == Holding && sys.callers[i].run.status == Running
    case Release(i) => i < |sys.callers| && sys.callers[i].phase == Holding && sys.callers[i].run.status != Running
    case Vanish(k) => k < |sys.accounts|
  }

  function ConfigOf(sys: System, i: nat): Config
    requires i < |sys.callers|
  {
    Config(sys.cached, sys.callers[i].fixed)
  }

  /** The event of a pass as the caller's history tells it: an entry that vanished earlier is missing now. */
  function Seen(sh: Shared, e: Event): Event { e.(evicted := e.evicted || sh.cache.None?) }

  function AfterPass(sys: System, i: nat, e: Event): State
    requires Shaped(sys) && i < |sys.callers|
  {
    Step(ConfigOf(sys, i), State(sys.callers[i].run, sys.accounts[sys.callers[i].account]), e)
  }

  /** One action; one that is not enabled changes nothing. */
  function Act(sys: System, a: Action): (sys': System)
    requires Shaped(sys)
    ensures Shaped(sys') && |sys'.tokens| == |sys.tokens| && |sys'.callers| == |sys.callers|
  {
    if !Enabled(sys, a) then sys
    else
      match a
      case Acquire(i) =>
        var c := sys.callers[i];
        sys.(tokens := sys.tokens[Shard(sys, i) := 1],
             callers := sys.callers[i := c.(phase := Holding, began := sys.accounts[c.account])])
      case Pass(i, e) =>
        var c, s := sys.callers[i], AfterPass(sys, i, e);
        sys.(callers := sys.callers[i := c.(run := s.run, trace := c.trace + [Seen(sys.accounts[c.account], e)])],
             accounts := sys.accounts[c.account := s.shared])
      case Release(i) =>
        sys.(tokens := sys.tokens[Shard(sys, i) := 0],
             callers := sys.callers[i := sys.callers[i].(phase := Finished)])
      case Vanish(k) =>
        sys.(accounts := sys.accounts[k := sys.accounts[k].(cache := None)])
  }

  function Acts(sys: System, acts: seq<Action>): (sys': System)
    requires Shaped(sys)
    ensures Shaped(sys') && |sys'.tokens| == |sys.tokens| && |sys'.callers| == |sys.callers|
  {
    if acts == [] then sys else Act(Acts(sys, acts[..|acts| - 1]), acts[|acts| - 1])
  }

  /** No call has begun, and every shard is free. */
  predicate Initial(sys: System) {
    && Shaped(sys)
    && (forall k :: 0 <= k < |sys.tokens| ==> sys.tokens[k] == 0)
    && (forall i :: 0 <= i < |sys.callers| ==> NotBegun(sys.callers[i]))
  }

  predicate NotBegun(c: Caller) {
    && c.run == Start(c.msgs, c.check) && c.trace == [] && c.began == Shared(None, 0, [])
    && c.phase == (if c.run.status == Running then Waiting else Finished)
  }

  // ------------------------------------------------------------ the lock is safe

  function Holders(sys: System, k: nat): set<nat>
    requires sys.tokens != []
  {
    set i: nat | i < |sys.callers| && sys.callers[i].phase == Holding && Shard(sys, i) == k
  }

  /** A shard's channel holds exactly as many tokens as callers hold it: one or none. */
  ghost predicate TokensMatch(sys: System) {
    && sys.tokens != []
    && forall k :: 0 <= k < |sys.tokens| ==> |Holders(sys, k)| == sys.tokens[k] <= 1
  }

  /** The calls are the same calls: only how far they are may differ. */
  predicate SameCall(c: Caller, d: Caller) {
    c.from == d.from && c.account == d.account && c.fixed == d.fixed && c.msgs == d.msgs && c.check == d.check
  }

  ghost predicate SameCalls(sys: System, sys': System) {
    && sys.cached == sys'.cached && |sys.callers| == |sys'.callers| && |sys.tokens| == |sys'.tokens|
    && |sys.accounts| == |sys'.accounts|
    && forall i :: 0 <= i < |sys.callers| ==> SameCall(sys.callers[i], sys'.callers[i])
  }

  lemma ActSameCalls(sys: System, a: Action)
    requires Shaped(sys)
    ensures SameCalls(sys, Act(sys, a))
  {
    hide Step, ShardOf;
  }

  /** Only an action's own caller moves, and only its own shard changes. */
  lemma ActMoves(sys: System, a: Action, i: nat)
    requires Shaped(sys) && i < |sys.callers|
    ensures var c, c' := sys.callers[i], Act(sys, a).callers[i];
            match a
            case Acquire(j) =>
              if Enabled(sys, a) && i == j then c'.phase == Holding && c'.run == c.run && c'.trace == c.trace
                && c'.began == sys.accounts[c.account]
              else c' == c
            case Release(j) => c' == if Enabled(sys, a) && i == j then c.(phase := Finished) else c
            case Pass(j, e) =>
              c' == if Enabled(sys, a) && i == j
                    then c.(run := AfterPass(sys, i, e).run, trace := c.trace + [Seen(sys.accounts[c.account], e)]) else c
            case Vanish(_) => c' == c
  {
    hide Step, ShardOf;
  }

  lemma HoldersSame(sys: System, sys': System, k: nat)
    requires SameCalls(sys, sys') && sys.tokens != []
    requires forall i :: 0 <= i < |sys.callers| && Shard(sys, i) == k ==> (sys'.callers[i].phase == Holding <==> sys.callers[i].phase == Holding)
    ensures Holders(sys', k) == Holders(sys, k)
  {
    hide ShardOf;
  }

  lemma HoldersAdd(sys: System, sys': System, i: nat)
    requires SameCalls(sys, sys') && sys.tokens != [] && i < |sys.callers|
    requires sys.callers[i].phase != Holding && sys'.callers[i].phase == Holding
    requires forall j :: 0 <= j < |sys.callers| && j != i ==> sys'.callers[j].phase == sys.callers[j].phase
    ensures |Holders(sys', Shard(sys, i))| == |Holders(sys, Shard(sys, i))| + 1
  {
    hide ShardOf;
    var k := Shard(sys, i);
    assert Holders(sys', k) == Holders(sys, k) + {i};
  }

  lemma ActTokens(sys: System, a: Action)
    requires Shaped(sys) && TokensMatch(sys)
    ensures TokensMatch(Act(sys, a))
  {
    hide Step, ShardOf, Holders;
    var sys' := Act(sys, a);
    ActSameCalls(sys, a);
    forall k | 0 <= k < |sys'.tokens| ensures |Holders(sys', k)| == sys'.tokens[k] <= 1 {
      if a.Acquire? && Enabled(sys, a) && k == Shard(sys, a.i) {
        HoldersAdd(sys, sys', a.i);
      } else if a.Release? && Enabled(sys, a) && k == Shard(sys, a.i) {
        HoldersAdd(sys', sys, a.i);
      } else {
        HoldersSame(sys, sys', k);
      }
    }
  }

  lemma InitialTokens(sys: System)
    requires Initial(sys)
    ensures TokensMatch(sys)
  {
    hide ShardOf;
    forall k | 0 <= k < |sys.tokens| ensures |Holders(sys, k)| == sys.tokens[k] <= 1 {
      assert Holders(sys, k) == {};
    }
  }

  lemma {:induction false} ActsTokens(sys: System, acts: seq<Action>)
    requires Shaped(sys) && TokensMatch(sys)
    ensures TokensMatch(Acts(sys, acts)) && SameCalls(sys, Acts(sys, acts))
  {
    hide Act, TokensMatch, ShardOf;
    if acts != [] {
      var n := |acts| - 1;
      ActsTokens(sys, acts[..n]);
      ActTokens(Acts(sys, acts[..n]), acts[n]);
      ActSameCalls(Acts(sys, acts[..n]), acts[n]);
    }
  }

  /** With one token per shard, two callers never hold the same one. */
  lemma OneHolder(sys: System, i: nat, j: nat)
    requires TokensMatch(sys) && i < |sys.callers| && j < |sys.callers|
    requires sys.callers[i].phase == Holding && sys.callers[j].phase == Holding && Shard(sys, i) == Shard(sys, j)
    ensures i == j
  {
    hide ShardOf;
    var hs := Holders(sys, Shard(sys, i));
    assert i in hs && j in hs;
    if i != j {
      PairIsSubset(hs, i, j);
    }
  }

  lemma PairIsSubset(s: set<nat>, i: nat, j: nat)
    requires i in s && j in s && i != j
    ensures |s| >= 2
  {
    assert |s - {i}| == |s| - 1 && j in s - {i};
  }

  /**
   Lock safety over all interleavings: a shard's channel holds a token exactly when one caller owns the
   shard, and two calls under the same name never overlap.
   */
  lemma LockSafety(sys: System, acts: seq<Action>)
    requires Initial(sys)
    ensures var sys' := Acts(sys, acts);
            && (forall k :: 0 <= k < |sys'.tokens| ==> |Holders(sys', k)| == sys'.tokens[k] <= 1)
            && (forall i, j :: 0 <= i < j < |sys'.callers| && sys.callers[i].from == sys.callers[j].from ==>
                  !(sys'.callers[i].phase == Holding && sys'.callers[j].phase == Holding))
  {
    hide ShardOf, Act;
    InitialTokens(sys);
    ActsTokens(sys, acts);
    var sys' := Acts(sys, acts);
    hide Acts, Holders, Initial;
    forall i, j | 0 <= i < j < |sys'.callers| && sys.callers[i].from == sys.callers[j].from
      ensures !(sys'.callers[i].phase == Holding && sys'.callers[j].phase == Holding)
    {
      assert SameCall(sys.callers[i], sys'.callers[i]) && SameCall(sys.callers[j], sys'.callers[j]);
      if sys'.callers[i].phase == Holding && sys'.callers[j].phase == Holding { OneHolder(sys', i, j); }
    }
  }

  // ------------------------------------- one account is served by one call at a time

  /** Calls for one account use one shard. So it is when an account has one name; two names of one key may break it. */
  ghost predicate WellKeyed(sys: System)
    requires sys.tokens != []
  {
    forall i, j ::
      0 <= i < j < |sys.callers| && SameAccount(sys, i, j) && Locks(sys.callers[i]) && Locks(sys.callers[j])
      ==> Shard(sys, i) == Shard(sys, j)
  }

  predicate SameAccount(sys: System, i: nat, j: nat)
    requires i < |sys.callers| && j < |sys.callers|
  {
    sys.callers[i].account == sys.callers[j].account
  }

  /** The call has something valid to send, so it takes the lock. */
  predicate Locks(c: Caller) { Start(c.msgs, c.check).status == Running }

  /** Two calls hold their locks at once for the same account. */
  ghost predicate Overlap(sys: System) {
    exists i, j :: 0 <= i < j < |sys.callers| && sys.callers[i].account == sys.callers[j].account
      && sys.callers[i].phase == Holding && sys.callers[j].phase == Holding
  }

  /** Only calls that lock ever hold. */
  ghost predicate HoldersLock(sys: System) {
    forall i :: 0 <= i < |sys.callers| && sys.callers[i].phase != Finished ==> Locks(sys.callers[i])
  }

  lemma {:induction false} ActsHoldersLock(sys: System, acts: seq<Action>)
    requires Shaped(sys) && HoldersLock(sys)
    ensures HoldersLock(Acts(sys, acts))
  {
    hide ShardOf, Step;
    if acts != [] {
      var n := |acts| - 1;
      ActsHoldersLock(sys, acts[..n]);
      var p := Acts(sys, acts[..n]);
      hide Acts, Locks;
      ActSameCalls(p, acts[n]);
      forall i | 0 <= i < |p.callers| && Act(p, acts[n]).callers[i].phase != Finished ensures Locks(Act(p, acts[n]).callers[i]) {
        ActMoves(p, acts[n], i);
        LocksSame(p.callers[i], Act(p, acts[n]).callers[i]);
      }
    }
  }

  lemma LocksSame(c: Caller, d: Caller)
    requires SameCall(c, d)
    ensures Locks(c) <==> Locks(d)
  {
  }

  lemma WellKeyedSame(sys: System, sys': System)
    requires SameCalls(sys, sys') && sys.tokens != [] && WellKeyed(sys)
    ensures WellKeyed(sys')
  {
    hide ShardOf, Locks;
    forall i, j | 0 <= i < j < |sys'.callers| && sys'.callers[i].account == sys'.callers[j].account
      && Locks(sys'.callers[i]) && Locks(sys'.callers[j]) ensures Shard(sys', i) == Shard(sys', j)
    {
      LocksSame(sys.callers[i], sys'.callers[i]);
      LocksSame(sys.callers[j], sys'.callers[j]);
    }
  }

  lemma NoOverlap(sys: System)
    requires TokensMatch(sys) && WellKeyed(sys) && HoldersLock(sys)
    ensures !Overlap(sys)
  {
    hide ShardOf, Locks, TokensMatch;
    if Overlap(sys) {
      var i, j :| 0 <= i < j < |sys.callers| && sys.callers[i].account == sys.callers[j].account
        && sys.callers[i].phase == Holding && sys.callers[j].phase == Holding;
      OneHolder(sys, i, j);
    }
  }

  lemma TwoAcquire(sys: System, i: nat, j: nat)
    requires Initial(sys) && i < j < |sys.callers| && sys.callers[i].account == sys.callers[j].account
    requires Locks(sys.callers[i]) && Locks(sys.callers[j]) && Shard(sys, i) != Shard(sys, j)
    ensures Overlap(Acts(sys, [Acquire(i), Acquire(j)]))
  {
    hide ShardOf, Step;
    var acts := [Acquire(i), Acquire(j)];
    var one := Act(sys, Acquire(i));
    assert acts[..1] == [Acquire(i)] && acts[..1][..0] == [];
    assert Acts(sys, acts[..1]) == one;
    hide Acts;
    assert NotBegun(sys.callers[i]) && NotBegun(sys.callers[j]);
    assert one.tokens[Shard(sys, j)] == 0 && Shard(one, j) == Shard(sys, j);
    var two := Act(one, Acquire(j));
    assert two.callers[i].phase == Holding && two.callers[j].phase == Holding;
  }

  /**
   No interleaving ever lets two calls work on one account at once, if and only if every two calls for
   one account hash their names to one shard: "accounts must be used with the locker" is kept by equal
   names, not by equal accounts.
   */
  lemma OverlapFreeIff(sys: System)
    requires Initial(sys)
    ensures (forall acts: seq<Action> :: !Overlap(Acts(sys, acts))) <==> WellKeyed(sys)
  {
    hide ShardOf, Locks, Act, Overlap;
    if WellKeyed(sys) {
      forall acts: seq<Action> ensures !Overlap(Acts(sys, acts)) {
        ReachableExclusive(sys, acts);
      }
    } else {
      var i, j :| 0 <= i < j < |sys.callers| && sys.callers[i].account == sys.callers[j].account
        && Locks(sys.callers[i]) && Locks(sys.callers[j]) && Shard(sys, i) != Shard(sys, j);
      TwoAcquire(sys, i, j);
    }
  }

  /** Two calls for account 0 under the names "a" and "b", with sixteen shards, and the two of them at work at once. */
  lemma TwoNamesOverlap(sys: System)
    requires Initial(sys) && |sys.tokens| == 16 && |sys.callers| == 2
    requires sys.callers[0].from == [0x61] && sys.callers[1].from == [0x62]
    requires SameAccount(sys, 0, 1) && Locks(sys.callers[0]) && Locks(sys.callers[1])
    ensures !WellKeyed(sys) && Overlap(Acts(sys, [Acquire(0), Acquire(1)]))
  {
    hide ShardOf, Locks, Acts, Initial, Overlap;
    TwoNamesApart();
    assert Shard(sys, 0) != Shard(sys, 1);
    TwoAcquire(sys, 0, 1);
  }

  lemma ReachableExclusive(sys: System, acts: seq<Action>)
    requires Initial(sys) && WellKeyed(sys)
    ensures var sys' := Acts(sys, acts);
            TokensMatch(sys') && SameCalls(sys, sys') && WellKeyed(sys') && HoldersLock(sys') && !Overlap(sys')
  {
    InitialTokens(sys);
    assert HoldersLock(sys) by {
      forall i | 0 <= i < |sys.callers| && sys.callers[i].phase != Finished ensures Locks(sys.callers[i]) {
        assert NotBegun(sys.callers[i]);
      }
    }
    hide ShardOf, Act, Acts, TokensMatch, HoldersLock, WellKeyed, SameCalls, Overlap;
    ActsTokens(sys, acts);
    ActsHoldersLock(sys, acts);
    WellKeyedSame(sys, Acts(sys, acts));
    NoOverlap(Acts(sys, acts));
  }

  // ------------------------------------------- each call is as if it were alone

  /** The state after the given passes. */
  function Replay(cfg: Config, s: State, trace: seq<Event>): State {
    if trace == [] then s else Step(cfg, Replay(cfg, s, trace[..|trace| - 1]), trace[|trace| - 1])
  }

  lemma ReplayOneMore(cfg: Config, s: State, trace: seq<Event>, e: Event)
    ensures Replay(cfg, s, trace + [e]) == Step(cfg, Replay(cfg, s, trace), e)
  {
    hide Step;
    assert (trace + [e])[..|trace|] == trace;
  }

  /** The call on its own, from what it found when it got the lock and with what happened in its passes. */
  function Solo(cached: bool, c: Caller): State {
    Replay(Config(cached, c.fixed), State(Start(c.msgs, c.check), c.began), c.trace)
  }

  /** The same, but for a cache entry that may have vanished. */
  predicate Faded(sh: Shared, sh0: Shared) { sh == sh0 || sh == sh0.(cache := None) }

  /** A pass cannot tell an entry that vanished before it from one that vanishes in it. */
  lemma StepFaded(cfg: Config, r: Run, sh: Shared, sh0: Shared, e: Event)
    requires Faded(sh, sh0)
    ensures var s, s0 := Step(cfg, State(r, sh), e), Step(cfg, State(r, sh0), Seen(sh, e));
            s.run == s0.run && Faded(s.shared, s0.shared)
  {
  }

  ghost predicate Served(cached: bool, c: Caller, sh: Shared) {
    match c.phase
    case Waiting => NotBegun(c)
    case Holding => c.run == Solo(cached, c).run && Faded(sh, Solo(cached, c).shared)
    case Finished => c.run == Solo(cached, c).run && c.run.status != Running
  }

  ghost predicate AllServed(sys: System) {
    && Shaped(sys)
    && forall i :: 0 <= i < |sys.callers| ==> Served(sys.cached, sys.callers[i], sys.accounts[sys.callers[i].account])
  }

  lemma PassServed(cached: bool, c: Caller, sh: Shared, e: Event)
    requires Served(cached, c, sh) && c.phase == Holding
    ensures var s := Step(Config(cached, c.fixed), State(c.run, sh), e);
            Served(cached, c.(run := s.run, trace := c.trace + [Seen(sh, e)]), s.shared)
  {
    var cfg, start := Config(cached, c.fixed), State(Start(c.msgs, c.check), c.began);
    var solo := Solo(cached, c);
    ReplayOneMore(cfg, start, c.trace, Seen(sh, e));
    hide Step, Replay, Start;
    StepFaded(cfg, c.run, sh, solo.shared, e);
    assert State(c.run, solo.shared) == solo;
  }

  lemma VanishServed(cached: bool, c: Caller, sh: Shared)
    requires Served(cached, c, sh)
    ensures Served(cached, c, sh.(cache := None))
  {
    hide Replay, Start, Solo;
  }

  lemma AcquireServed(cached: bool, c: Caller, sh: Shared)
    requires NotBegun(c)
    ensures Served(cached, c.(phase := Holding, began := sh), sh)
  {
  }

  /** A call that does not hold its lock does not care about the account. */
  lemma IdleServed(cached: bool, c: Caller, sh: Shared, sh': Shared)
    requires Served(cached, c, sh) && c.phase != Holding
    ensures Served(cached, c, sh')
  {
    hide Replay, Start, Solo;
  }

  lemma ActServed(sys: System, a: Action, i: nat)
    requires AllServed(sys) && !Overlap(sys) && i < |sys.callers|
    ensures var sys' := Act(sys, a); Served(sys'.cached, sys'.callers[i], sys'.accounts[sys'.callers[i].account])
  {
    hide Step, ShardOf, Served, NotBegun;
    var c, sh := sys.callers[i], sys.accounts[sys.callers[i].account];
    assert Served(sys.cached, c, sh);
    if Enabled(sys, a) {
      match a {
        case Acquire(j) =>
          if i == j { AcquireOf(sys.cached, c, sh); AcquireServed(sys.cached, c, sh); }
        case Pass(j, e) =>
          if i == j {
            PassServed(sys.cached, c, sh, e);
          } else if SameAccount(sys, i, j) {
            IdleServed(sys.cached, c, sh, AfterPass(sys, j, e).shared);
          }
        case Release(j) =>
          if i == j { ReleaseServed(sys.cached, c, sh); }
        case Vanish(k) =>
          VanishServed(sys.cached, c, sh);
      }
    }
  }

  lemma AcquireOf(cached: bool, c: Caller, sh: Shared)
    requires Served(cached, c, sh) && c.phase == Waiting
    ensures NotBegun(c)
  {
  }

  lemma ReleaseServed(cached: bool, c: Caller, sh: Shared)
    requires Served(cached, c, sh) && c.phase == Holding && c.run.status != Running
    ensures Served(cached, c.(phase := Finished), sh)
  {
    hide Replay, Start;
  }

  lemma InitialServed(sys: System)
    requires Initial(sys)
    ensures AllServed(sys)
  {
    forall i | 0 <= i < |sys.callers| ensures Served(sys.cached, sys.callers[i], sys.accounts[sys.callers[i].account]) {
      assert NotBegun(sys.callers[i]);
    }
  }

  /**
   Serializability: in every state of every interleaving, every call that got its lock is where it would
   be had it run alone, from the account state it found and with the events of its own passes.
   */
  lemma {:induction false} EachRunsAlone(sys: System, acts: seq<Action>)
    requires Initial(sys) && WellKeyed(sys)
    ensures AllServed(Acts(sys, acts))
  {
    hide ShardOf, Act, Served, Initial, WellKeyed;
    if acts == [] {
      InitialServed(sys);
    } else {
      var n := |acts| - 1;
      EachRunsAlone(sys, acts[..n]);
      ReachableExclusive(sys, acts[..n]);
      var p := Acts(sys, acts[..n]);
      hide Acts, Overlap;
      forall i | 0 <= i < |p.callers|
        ensures var q := Act(p, acts[n]); Served(q.cached, q.callers[i], q.accounts[q.callers[i].account])
      {
        ActServed(p, acts[n], i);
      }
    }
  }

  // --------------------------------------------- so the theorems hold of every call

  const Calm: Event := Event(false, Built, true, Accept)

  /** The environment in which a call meets the given events. */
  function Traced(cfg: Config, s: State, trace: seq<Event>): Env {
    (t: nat, r: Run) => if t < |trace| && r == Replay(cfg, s, trace[..t]).run then trace[t] else Calm
  }

  lemma {:induction false} TracedExec(cfg: Config, s: State, trace: seq<Event>, t: nat)
    requires t <= |trace|
    ensures Exec(cfg, s, Traced(cfg, s, trace), t) == Replay(cfg, s, trace[..t])
  {
    hide Step;
    if t > 0 {
      TracedExec(cfg, s, trace, t - 1);
      assert trace[..t][..t - 1] == trace[..t - 1];
    }
  }

  lemma SoloIsExec(cached: bool, c: Caller)
    ensures var cfg, s := Config(cached, c.fixed), State(Start(c.msgs, c.check), c.began);
            Solo(cached, c) == Exec(cfg, s, Traced(cfg, s, c.trace), |c.trace|)
  {
    hide Exec, Replay, Traced, Start;
    assert c.trace[..|c.trace|] == c.trace;
    TracedExec(Config(cached, c.fixed), State(Start(c.msgs, c.check), c.began), c.trace, |c.trace|);
  }

  /** Sequence numbers are 64 bits wide. */
  ghost predicate CountersFit(sys: System) {
    && (forall a :: 0 <= a < |sys.accounts| ==> sys.accounts[a].next < U64)
    && (forall i :: 0 <= i < |sys.callers| ==> sys.callers[i].began.next < U64)
  }

  lemma StepFits(cfg: Config, s: State, e: Event)
    requires s.shared.next < U64
    ensures Step(cfg, s, e).shared.next < U64
  {
  }

  lemma ActFits(sys: System, a: Action)
    requires Shaped(sys) && CountersFit(sys)
    ensures CountersFit(Act(sys, a))
  {
    hide Step, ShardOf;
    if a.Pass? && Enabled(sys, a) {
      StepFits(ConfigOf(sys, a.i), State(sys.callers[a.i].run, sys.accounts[sys.callers[a.i].account]), a.e);
    }
  }

  lemma {:induction false} ActsFit(sys: System, acts: seq<Action>)
    requires Shaped(sys) && CountersFit(sys)
    ensures CountersFit(Acts(sys, acts))
  {
    hide Act, CountersFit;
    if acts != [] {
      ActsFit(sys, acts[..|acts| - 1]);
      ActFits(Acts(sys, acts[..|acts| - 1]), acts[|acts| - 1]);
    }
  }

  /** A call got its lock or never wanted it, so it is where its solo run is. */
  lemma RunIsSolo(cached: bool, c: Caller, sh: Shared)
    requires Served(cached, c, sh)
    ensures c.run == Solo(cached, c).run
    ensures c.phase == Finished ==> c.run.status != Running
  {
    hide Step;
  }

  /**
   Over every interleaving, and for every call: what it got acknowledged is a prefix of its messages, in
   order; it is all of them when it returns normally; unless the caller fixed the number it meets at most
   one sequence rejection, and every transaction but its first carries the chain's next number.
   */
  lemma EveryCall(sys: System, acts: seq<Action>, i: nat)
    requires Initial(sys) && WellKeyed(sys) && CountersFit(sys) && i < |sys.callers|
    ensures var c, r := sys.callers[i], Acts(sys, acts).callers[i].run;
            && Flatten(r.sent) <= c.msgs
            && (r.status == Done ==> Flatten(r.sent) == c.msgs)
            && (c.fixed.None? ==> OnSequenceFrom(r.log, 1) && Rejections(r.log) <= 1)
  {
    hide ShardOf, Act, Acts, WellKeyed, Initial, Start, Exec, Traced, Count, Flatten, Served;
    ReachableExclusive(sys, acts);
    EachRunsAlone(sys, acts);
    ActsFit(sys, acts);
    var sys' := Acts(sys, acts);
    var c := sys'.callers[i];
    assert SameCall(sys.callers[i], c);
    RunIsSolo(sys'.cached, c, sys'.accounts[c.account]);
    SoloIsExec(sys'.cached, c);
    var cfg := Config(sys'.cached, c.fixed);
    var env := Traced(cfg, State(Start(c.msgs, c.check), c.began), c.trace);
    SentIsPrefix(cfg, c.msgs, c.check, c.began, env, |c.trace|);
    if c.fixed.None? {
      SelfHealing(cfg, c.msgs, c.check, c.began, env, |c.trace|);
    }
  }

  /** Every pass of the call could build its transaction, and a single message always fitted. */
  ghost predicate BenignTrace(cached: bool, c: Caller) {
    forall t :: 0 <= t < |c.trace| ==> Benign(Solo(cached, c.(trace := c.trace[..t])).run, c.trace[t])
  }

  lemma BenignTraced(cached: bool, c: Caller)
    requires BenignTrace(cached, c)
    ensures var cfg, s := Config(cached, c.fixed), State(Start(c.msgs, c.check), c.began);
            Buildable(Traced(cfg, s, c.trace))
  {
    hide Replay, Start, Segment;
    var cfg, s := Config(cached, c.fixed), State(Start(c.msgs, c.check), c.began);
    var env := Traced(cfg, s, c.trace);
    forall t: nat, r: Run ensures Benign(r, env(t, r)) {
      if t < |c.trace| {
        assert Solo(cached, c.(trace := c.trace[..t])).run == Replay(cfg, s, c.trace[..t]).run;
      }
    }
  }

  lemma SoloDelivers(cached: bool, c: Caller)
    requires cached && c.fixed.None? && c.began.next < U64 && Locks(c) && BenignTrace(cached, c)
    requires Solo(cached, c).run.status != Running && OtherFailures(Solo(cached, c).run.log) <= 1
    ensures Solo(cached, c).run.status == Done && Flatten(Solo(cached, c).run.sent) == c.msgs
  {
    assert Start(c.msgs, c.check) == Start(c.msgs, Passes) && c.msgs != [];
    hide Start, Exec, Traced, Count, Flatten, BenignTrace, Buildable, Solo;
    var cfg, s := Config(cached, c.fixed), State(Start(c.msgs, Passes), c.began);
    var env, n := Traced(cfg, s, c.trace), |c.msgs| + 10;
    SoloIsExec(cached, c);
    BenignTraced(cached, c);
    RunEnds(cfg, c.msgs, Passes, c.began, env, n);
    if |c.trace| <= n {
      ExecStops(cfg, s, env, |c.trace|, n);
    } else {
      ExecStops(cfg, s, env, n, |c.trace|);
    }
    BudgetSuffices(cfg, c.msgs, c.began, env, n);
  }

  /**
   The budget of three suffices for every call of every interleaving: a call that is over, whose
   transactions could be built and that met at most one failure other than a sequence rejection, has
   sent everything, whatever the other calls did.
   */
  lemma EveryCallDelivers(sys: System, acts: seq<Action>, i: nat)
    requires Initial(sys) && WellKeyed(sys) && CountersFit(sys) && i < |sys.callers|
    requires sys.cached && sys.callers[i].fixed.None? && Locks(sys.callers[i])
    requires var c := Acts(sys, acts).callers[i];
             c.phase == Finished && BenignTrace(true, c) && OtherFailures(c.run.log) <= 1
    ensures var r := Acts(sys, acts).callers[i].run;
            r.status == Done && Flatten(r.sent) == sys.callers[i].msgs
  {
    hide ShardOf, Act, Acts, WellKeyed, Initial, Start, Exec, Traced, Count, Flatten, Served, BenignTrace, Locks, Solo;
    ReachableExclusive(sys, acts);
    EachRunsAlone(sys, acts);
    ActsFit(sys, acts);
    var sys' := Acts(sys, acts);
    var c := sys'.callers[i];
    LocksSame(sys.callers[i], c);
    RunIsSolo(sys'.cached, c, sys'.accounts[c.account]);
    SoloDelivers(sys'.cached, c);
  }

  // ---------------------------------------------------------- nobody waits forever

  /** The actions a call may still take: what is left of its run, and taking and giving back the lock. */
  function Work(c: Caller): nat {
    match c.phase
    case Waiting => (if Remaining(c.run) > 0 then Remaining(c.run) else 0) + 2
    case Holding => (if Remaining(c.run) > 0 then Remaining(c.run) else 0) + 1
    case Finished => 0
  }

  function TotalWork(cs: seq<Caller>): nat {
    if cs == [] then 0 else Work(cs[0]) + TotalWork(cs[1..])
  }

  lemma {:induction false} TotalWorkUpdate(cs: seq<Caller>, i: nat, c: Caller)
    requires i < |cs|
    ensures TotalWork(cs[i := c]) + Work(cs[i]) == TotalWork(cs) + Work(c)
  {
    hide Work;
    if i == 0 {
      assert cs[0 := c][1..] == cs[1..];
    } else {
      assert cs[i := c][1..] == cs[1..][i - 1 := c];
      TotalWorkUpdate(cs[1..], i - 1, c);
    }
  }

  /** Every call keeps its part of the bargain, so that a pass uses something up. */
  ghost predicate AllKeep(sys: System) {
    forall i :: 0 <= i < |sys.callers| ==> Keeps(sys.callers[i].run, sys.callers[i].msgs)
  }

  lemma PassWorks(cfg: Config, c: Caller, sh: Shared, e: Event, trace: seq<Event>)
    requires Keeps(c.run, c.msgs) && c.phase == Holding && c.run.status == Running
    ensures Work(c.(run := Step(cfg, State(c.run, sh), e).run, trace := trace)) < Work(c)
  {
    StepShrinks(cfg, State(c.run, sh), e, c.msgs);
    hide Step, Keeps, Remaining;
  }

  lemma ActKeep(sys: System, a: Action)
    requires Shaped(sys) && AllKeep(sys)
    ensures AllKeep(Act(sys, a))
  {
    hide Step, ShardOf, Keeps;
    if a.Pass? && Enabled(sys, a) {
      var c := sys.callers[a.i];
      StepKeeps(ConfigOf(sys, a.i), State(c.run, sys.accounts[c.account]), a.e, c.msgs);
    }
  }

  /** An action that moves a caller brings the end nearer; any other leaves the work to be done as it is. */
  lemma ActWorks(sys: System, a: Action)
    requires Shaped(sys) && AllKeep(sys)
    ensures var w, w' := TotalWork(sys.callers), TotalWork(Act(sys, a).callers);
            if Enabled(sys, a) && !a.Vanish? then w' < w else w' == w
  {
    hide Step, ShardOf, Keeps, Remaining, TotalWork;
    if Enabled(sys, a) && !a.Vanish? {
      TotalWorkUpdate(sys.callers, a.i, Act(sys, a).callers[a.i]);
      if a.Pass? {
        var c := sys.callers[a.i];
        PassWorks(ConfigOf(sys, a.i), c, sys.accounts[c.account], a.e, Act(sys, a).callers[a.i].trace);
      }
    }
  }

  /** How many of the actions moved a caller. */
  function Moves(sys: System, acts: seq<Action>): nat
    requires Shaped(sys)
  {
    if acts == [] then 0
    else
      var p, a := Acts(sys, acts[..|acts| - 1]), acts[|acts| - 1];
      Moves(sys, acts[..|acts| - 1]) + if Enabled(p, a) && !a.Vanish? then 1 else 0
  }

  lemma {:induction false} ActsWork(sys: System, acts: seq<Action>)
    requires Shaped(sys) && AllKeep(sys)
    ensures AllKeep(Acts(sys, acts))
    ensures Moves(sys, acts) + TotalWork(Acts(sys, acts).callers) <= TotalWork(sys.callers)
  {
    hide Act, Enabled, AllKeep, TotalWork, Shaped;
    if acts != [] {
      var n := |acts| - 1;
      var p := Acts(sys, acts[..n]);
      ActsWork(sys, acts[..n]);
      ActKeep(p, acts[n]);
      ActWorks(p, acts[n]);
    }
  }

  /** Some action that moves a caller is possible. */
  ghost predicate CanMove(sys: System)
    requires Shaped(sys)
  {
    exists a: Action :: !a.Vanish? && Enabled(sys, a)
  }

  /** No deadlock: while a call is not over, some call can move. */
  lemma NoDeadlock(sys: System, i: nat)
    requires Shaped(sys) && TokensMatch(sys) && i < |sys.callers| && sys.callers[i].phase != Finished
    ensures CanMove(sys)
  {
    hide ShardOf;
    var k := Shard(sys, i);
    if sys.callers[i].phase == Holding {
      HolderMoves(sys, i);
    } else if sys.tokens[k] == 0 {
      assert Enabled(sys, Acquire(i));
    } else {
      assert |Holders(sys, k)| == 1;
      var j :| j in Holders(sys, k);
      HolderMoves(sys, j);
    }
  }

  lemma HolderMoves(sys: System, i: nat)
    requires Shaped(sys) && i < |sys.callers| && sys.callers[i].phase == Holding
    ensures CanMove(sys)
  {
    if sys.callers[i].run.status == Running {
      assert Enabled(sys, Pass(i, Calm));
    } else {
      assert Enabled(sys, Release(i));
    }
  }

  lemma {:induction false} InitialWork(cs: seq<Caller>)
    requires forall i :: 0 <= i < |cs| ==> NotBegun(cs[i])
    ensures TotalWork(cs) <= TotalMessages(cs) + 12 * |cs|
  {
    if cs != [] {
      InitialWork(cs[1..]);
      HalvingsOfMaxBatch();
      hide Halvings;
      assert NotBegun(cs[0]);
    }
  }

  function TotalMessages(cs: seq<Caller>): nat {
    if cs == [] then 0 else |cs[0].msgs| + TotalMessages(cs[1..])
  }

  lemma InitialKeep(sys: System)
    requires Initial(sys)
    ensures AllKeep(sys)
  {
    forall i | 0 <= i < |sys.callers| ensures Keeps(sys.callers[i].run, sys.callers[i].msgs) {
      assert NotBegun(sys.callers[i]);
      assert Flatten<Msg>([]) + sys.callers[i].msgs == sys.callers[i].msgs;
    }
  }

  /**
   Every interleaving comes to an end, and only with every call over: n calls for m messages in all make
   at most m + 12 n moves, and where none is possible any more nobody waits and nobody holds a lock.
   */
  lemma EveryRunEnds(sys: System, acts: seq<Action>)
    requires Initial(sys)
    ensures Moves(sys, acts) <= TotalMessages(sys.callers) + 12 * |sys.callers|
    ensures !CanMove(Acts(sys, acts)) ==>
              forall i :: 0 <= i < |sys.callers| ==> Acts(sys, acts).callers[i].phase == Finished
  {
    InitialKeep(sys);
    InitialTokens(sys);
    InitialWork(sys.callers);
    hide Acts, Moves, AllKeep, TokensMatch, NotBegun, TotalWork, CanMove;
    ActsWork(sys, acts);
    ActsTokens(sys, acts);
    var sys' := Acts(sys, acts);
    forall i | 0 <= i < |sys.callers| && sys'.callers[i].phase != Finished ensures CanMove(sys') {
      NoDeadlock(sys', i);
    }
  }
}
