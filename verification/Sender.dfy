/**
 The batch sender as a state machine (modules/base_client.go, `SendBatch`; modules/account.go, the
 account sequence cache; utils/cache/cache.go). One step is one pass through the body of the loop:
 take a sequence number, build, check the size, broadcast. What the network, the node and the cache
 do in that pass is an event, and a theorem about a run is about every sequence of events.
 */
module Sender {
  import opened Arith
  import opened Batches

  const MAX_BATCH: nat := 100
  const TRY_THRESHOLD: nat := 3
  const U64: int := 0x1_0000_0000_0000_0000

  datatype Msg = Msg(id: nat)

  /** Whether the client caches, and the sequence number the caller fixed, if any. */
  datatype Config = Config(cached: bool, fixed: Option<nat>)

  /**
   How building a transaction goes: the address or account query fails or panics, or the sequence number
   is taken but signing fails or panics. The deferred recover swallows every panic.
   */
  datatype Build = Built | NotPrepared | QueryPanics | NotSigned | BuildPanics

  /**
   What becomes of a broadcast that carries the right sequence number: accepted; refused before it
   reached the chain; executed but failed, which uses up the number; accepted with the reply lost.
   */
  datatype Verdict = Accept | Refuse | Burn | Lose

  datatype Event = Event(evicted: bool, build: Build, fits: bool, verdict: Verdict)

  datatype Outcome = Acked | SequenceRejected | Refused | Burned | Lost

  /** One broadcast: the number it carried, the number the chain expected, its messages and its fate. */
  datatype Attempt = Attempt(number: nat, expected: nat, msgs: seq<Msg>, outcome: Outcome)

  datatype Status = Running | Done | Failed | Panicked

  /** The local variables of one call. */
  datatype Run = Run(left: seq<Msg>, batch: nat, tries: nat, sent: seq<seq<Msg>>, log: seq<Attempt>, status: Status)

  /** What a call shares with others: the cached number of its address, and the chain's view of that address. */
  datatype Shared = Shared(cache: Option<nat>, next: nat, delivered: seq<seq<Msg>>)

  datatype State = State(run: Run, shared: Shared)

  function Succ(n: nat): nat { (n + 1) % U64 }

  /** How `ValidateBasic` goes, of one message or of a whole list. */
  datatype Validity = Passes | Refuses | Panics

  /** The first message that does not pass decides; the others are not looked at. */
  function Validated(msgs: seq<Msg>, basic: Msg -> Validity): Validity {
    if msgs == [] then Passes
    else if basic(msgs[0]) != Passes then basic(msgs[0])
    else Validated(msgs[1..], basic)
  }

  /** Message i does not pass and all before it do. */
  ghost predicate FirstNotPassing(msgs: seq<Msg>, basic: Msg -> Validity, i: nat) {
    i < |msgs| && basic(msgs[i]) != Passes && forall j :: 0 <= j < i ==> basic(msgs[j]) == Passes
  }

  lemma {:induction false} ValidatedIff(msgs: seq<Msg>, basic: Msg -> Validity, v: Validity)
    requires v != Passes
    ensures Validated(msgs, basic) == v <==> exists i: nat :: FirstNotPassing(msgs, basic, i) && basic(msgs[i]) == v
  {
    if msgs != [] {
      ValidatedIff(msgs[1..], basic, v);
      if basic(msgs[0]) == Passes {
        forall i: nat | FirstNotPassing(msgs, basic, i) ensures i > 0 && FirstNotPassing(msgs[1..], basic, i - 1) {
          assert msgs[1..][i - 1] == msgs[i];
        }
        forall i: nat | FirstNotPassing(msgs[1..], basic, i) ensures FirstNotPassing(msgs, basic, i + 1) {
          assert msgs[1..][i] == msgs[i + 1];
          forall j | 0 <= j < i + 1 ensures basic(msgs[j]) == Passes {
            if j > 0 { assert msgs[1..][j - 1] == msgs[j]; }
          }
        }
      } else {
        assert basic(msgs[0]) == v ==> FirstNotPassing(msgs, basic, 0);
      }
    }
  }

  /**
   A list without messages is refused, and so is one that does not validate. The recover is already in
   place when the messages are validated, so a panic there is swallowed too.
   */
  function Start(msgs: seq<Msg>, check: Validity): Run {
    Run(msgs, MAX_BATCH, 0, [], [],
        if msgs == [] then Failed else match check case Passes => Running case Refuses => Failed case Panics => Panicked)
  }

  /** The messages of the next transaction: the next piece of what is left. */
  function Segment(r: Run): seq<Msg> {
    if |r.left| <= r.batch then r.left else r.left[..r.batch]
  }

  datatype Numbered = Numbered(number: nat, cache: Option<nat>)

  /** `QueryAndRefreshAccount`: a cached number is advanced by one, a missing one is asked of the chain; both are saved. */
  function TakeNumber(cfg: Config, sh: Shared, evicted: bool): Numbered {
    if cfg.fixed.Some? then Numbered(cfg.fixed.value, sh.cache)
    else if !cfg.cached then Numbered(sh.next, None)
    else if sh.cache.Some? && !evicted then Numbered(Succ(sh.cache.value), Some(Succ(sh.cache.value)))
    else Numbered(sh.next, Some(sh.next))
  }

  /** The chain accepts exactly its next number. */
  function Judge(number: nat, next: nat, v: Verdict): Outcome {
    if v == Refuse then Refused
    else if number != next then SequenceRejected
    else match v case Accept => Acked case Burn => Burned case Lose => Lost case Refuse => Refused
  }

  function Deliver(sh: Shared, seg: seq<Msg>, o: Outcome): Shared {
    match o
    case Acked => sh.(next := Succ(sh.next), delivered := sh.delivered + [seg])
    case Lost => sh.(next := Succ(sh.next), delivered := sh.delivered + [seg])
    case Burned => sh.(next := Succ(sh.next))
    case _ => sh
  }

  function Step(cfg: Config, s: State, e: Event): State {
    var r, sh := s.run, s.shared;
    if r.status != Running then s
    else if e.build == NotPrepared then State(r.(status := Failed), sh)
    else if e.build == QueryPanics then State(r.(status := Panicked), sh)
    else
      var taken := TakeNumber(cfg, sh, e.evicted);
      var sh1 := sh.(cache := taken.cache);
      if e.build == NotSigned then State(r.(status := Failed), sh1)
      else if e.build == BuildPanics then State(r.(status := Panicked), sh1)
      else if !e.fits then
        // resize: forget the number that was taken, halve; cutting into pieces of zero panics
        State(r.(batch := r.batch / 2, status := if r.batch / 2 == 0 then Panicked else Running),
              sh1.(cache := None))
      else Broadcast(cfg, r, sh1, taken.number, e.verdict)
  }

  function Broadcast(cfg: Config, r: Run, sh: Shared, number: nat, v: Verdict): State {
    var seg := Segment(r);
    var o := Judge(number, sh.next, v);
    var r1 := r.(log := r.log + [Attempt(number, sh.next, seg, o)]);
    var sh1 := Deliver(sh, seg, o);
    if o == Acked then
      var left := r.left[|seg|..];
      State(r1.(left := left, sent := r.sent + [seg], status := if left == [] then Done else Running), sh1)
    else if !cfg.cached then State(r1.(status := Failed), sh1)
    else
      // retry: forget the cached number, and give up at the third failure of the whole run
      State(r1.(tries := r.tries + 1, status := if r.tries + 1 >= TRY_THRESHOLD then Failed else Running),
            sh1.(cache := None))
  }

  /** What happens in pass t may depend on everything the call has done so far. */
  type Env = (nat, Run) -> Event

  /** The state after t passes. */
  function Exec(cfg: Config, s: State, env: Env, t: nat): State {
    if t == 0 then s
    else
      var p := Exec(cfg, s, env, t - 1);
      Step(cfg, p, env(t - 1, p.run))
  }

  function EventAt(cfg: Config, s: State, env: Env, t: nat): Event { env(t, Exec(cfg, s, env, t).run) }

  /** Once a call is over, nothing changes any more. */
  lemma {:induction false} ExecStops(cfg: Config, s: State, env: Env, t: nat, later: nat)
    requires t <= later && Exec(cfg, s, env, t).run.status != Running
    ensures Exec(cfg, s, env, later) == Exec(cfg, s, env, t)
    decreases later
  {
    hide Step;
    if t < later {
      ExecStops(cfg, s, env, t, later - 1);
      StepStops(cfg, Exec(cfg, s, env, t), EventAt(cfg, s, env, later - 1));
    }
  }

  // -------------------------------------------------- exactly-once, in order

  /** What every state of a run keeps: acknowledged pieces and unsent messages are the original list, in order. */
  ghost predicate Keeps(r: Run, msgs: seq<Msg>) {
    && Flatten(r.sent) + r.left == msgs
    && (r.status == Running ==> r.left != [] && r.batch > 0 && r.tries < TRY_THRESHOLD)
    && (msgs != [] ==> (r.status == Done <==> r.left == []))
    && (r.status == Done ==> r.left == [] && r.tries < TRY_THRESHOLD)
    && r.tries <= TRY_THRESHOLD
    && (forall i :: 0 <= i < |r.sent| ==> r.sent[i] != [])
  }

  lemma TakePiece(r: Run, msgs: seq<Msg>)
    requires Flatten(r.sent) + r.left == msgs
    ensures var seg := Segment(r); Flatten(r.sent + [seg]) + r.left[|seg|..] == msgs
  {
    var seg := Segment(r);
    FlattenAppend(r.sent, seg);
    assert seg + r.left[|seg|..] == r.left;
    hide Segment;
    assert Flatten(r.sent) + seg + r.left[|seg|..] == Flatten(r.sent) + (seg + r.left[|seg|..]);
  }

  lemma StepKeeps(cfg: Config, s: State, e: Event, msgs: seq<Msg>)
    requires Keeps(s.run, msgs)
    ensures Keeps(Step(cfg, s, e).run, msgs)
  {
    hide Flatten, TakeNumber, Deliver;
    TakePiece(s.run, msgs);
  }

  lemma {:induction false} ExecKeeps(cfg: Config, s: State, env: Env, t: nat, msgs: seq<Msg>)
    requires Keeps(s.run, msgs)
    ensures Keeps(Exec(cfg, s, env, t).run, msgs)
  {
    if t > 0 {
      ExecKeeps(cfg, s, env, t - 1, msgs);
      StepKeeps(cfg, Exec(cfg, s, env, t - 1), EventAt(cfg, s, env, t - 1), msgs);
    }
  }

  /**
   In every state of every run, across retries and resizes, the acknowledged messages are a prefix of
   the original list, and they are the whole of a list of messages exactly when the call returns normally.
   */
  lemma SentIsPrefix(cfg: Config, msgs: seq<Msg>, check: Validity, sh: Shared, env: Env, t: nat)
    ensures var r := Exec(cfg, State(Start(msgs, check), sh), env, t).run;
            && Flatten(r.sent) <= msgs
            && (r.status == Done ==> Flatten(r.sent) == msgs)
            && (msgs != [] ==> (r.status == Done <==> Flatten(r.sent) == msgs))
  {
    var s := State(Start(msgs, check), sh);
    assert Flatten<Msg>([]) + msgs == msgs;
    ExecKeeps(cfg, s, env, t, msgs);
    var r := Exec(cfg, s, env, t).run;
    assert |Flatten(r.sent)| + |r.left| == |msgs|;
    assert Flatten(r.sent) == msgs[..|Flatten(r.sent)|];
  }

  // ------------------------------------------------------------- termination

  /** How often a batch size can be halved before it is zero. */
  function Halvings(n: nat): nat { if n == 0 then 0 else 1 + Halvings(n / 2) }

  /** Every step of a running call uses up a message, a try or a halving. */
  function Remaining(r: Run): int {
    if r.status == Running then |r.left| + (TRY_THRESHOLD - r.tries) + Halvings(r.batch) else 0
  }

  lemma StepStops(cfg: Config, s: State, e: Event)
    requires s.run.status != Running
    ensures Step(cfg, s, e) == s
  {
  }

  lemma StepShrinks(cfg: Config, s: State, e: Event, msgs: seq<Msg>)
    requires Keeps(s.run, msgs) && s.run.status == Running
    ensures Remaining(s.run) > Remaining(Step(cfg, s, e).run) >= 0
  {
    StepKeeps(cfg, s, e, msgs);
    assert Halvings(s.run.batch) == 1 + Halvings(s.run.batch / 2);
    assert |Segment(s.run)| > 0;
  }

  lemma {:induction false} ExecShrinks(cfg: Config, s: State, env: Env, t: nat, msgs: seq<Msg>)
    requires Keeps(s.run, msgs)
    ensures var r := Exec(cfg, s, env, t).run;
            r.status == Running ==> Remaining(r) + t <= Remaining(s.run)
  {
    hide Step, Keeps, Halvings;
    if t > 0 {
      ExecStep(cfg, s, env, t);
      hide Exec, Remaining;
      var p := Exec(cfg, s, env, t - 1);
      ExecKeeps(cfg, s, env, t - 1, msgs);
      ExecShrinks(cfg, s, env, t - 1, msgs);
      if p.run.status == Running {
        StepShrinks(cfg, p, EventAt(cfg, s, env, t - 1), msgs);
      } else {
        StepStops(cfg, p, EventAt(cfg, s, env, t - 1));
      }
    }
  }

  lemma HalvingsOfMaxBatch()
    ensures Halvings(MAX_BATCH) == 7
  {
    assert Halvings(3) == 2;
    assert Halvings(12) == 4;
    assert Halvings(50) == 6;
  }

  /** Whatever happens, a call for n messages is over after n + 10 passes. */
  lemma RunStops(cfg: Config, msgs: seq<Msg>, check: Validity, sh: Shared, env: Env, t: nat)
    requires t >= |msgs| + 10
    ensures var r := Exec(cfg, State(Start(msgs, check), sh), env, t).run;
            r.status != Running && r.tries <= TRY_THRESHOLD
  {
    var s := State(Start(msgs, check), sh);
    assert Flatten<Msg>([]) + msgs == msgs;
    HalvingsOfMaxBatch();
    ExecKeeps(cfg, s, env, t, msgs);
    ExecShrinks(cfg, s, env, t, msgs);
    hide Halvings;
    var r := Exec(cfg, s, env, t).run;
    assert r.status == Running ==> Remaining(r) >= 1;
  }

  // ------------------------------------------------------- what a transaction carries

  /** A pass whose transaction was built and did not fit. */
  predicate TooLargePass(r: Run, e: Event) { r.status == Running && e.build == Built && !e.fits }

  /** How many of the first t passes were too large. */
  function TooLarge(cfg: Config, s: State, env: Env, t: nat): nat {
    if t == 0 then 0
    else
      var now := if TooLargePass(Exec(cfg, s, env, t - 1).run, EventAt(cfg, s, env, t - 1)) then 1 else 0;
      TooLarge(cfg, s, env, t - 1) + now
  }

  lemma StepBatch(cfg: Config, s: State, e: Event)
    ensures Step(cfg, s, e).run.batch == if TooLargePass(s.run, e) then s.run.batch / 2 else s.run.batch
  {
  }

  lemma HalvedBatch(k: nat)
    ensures Pow(2, k) > 0 && Pow(2, k + 1) > 0 && 100 / Pow(2, k) / 2 == 100 / Pow(2, k + 1)
  {
    PowPositive(2, k);
    PowPositive(2, k + 1);
    assert Pow(2, k + 1) == 2 * Pow(2, k);
    HalfOfQuotient(100, Pow(2, k));
  }

  lemma HalfOfQuotient(n: nat, p: int)
    requires p > 0
    ensures n / p / 2 == n / (2 * p)
  {
    var q := n / p / 2;
    FloorLeast(n / p, 2, q);
    FloorLeast(n, p, q * 2);
    FloorLeast(n, 2 * p, q);
    FloorLeast(n / p, 2, q + 1);
    FloorLeast(n, p, (q + 1) * 2);
    FloorLeast(n, 2 * p, q + 1);
    assert q * 2 * p == q * (2 * p) && (q + 1) * 2 * p == (q + 1) * (2 * p);
  }

  /** The batch size starts at a hundred and is halved at every transaction that is too large. */
  lemma {:induction false} BatchHalves(cfg: Config, s: State, env: Env, t: nat)
    requires s.run.batch == 100
    ensures var k := TooLarge(cfg, s, env, t);
            Pow(2, k) > 0 && Exec(cfg, s, env, t).run.batch == 100 / Pow(2, k)
  {
    hide Step, TooLargePass, Pow;
    if t == 0 {
      assert Pow(2, 0) == 1 by { PowZero(); }
    } else {
      ExecStep(cfg, s, env, t);
      hide Exec;
      BatchHalves(cfg, s, env, t - 1);
      StepBatch(cfg, Exec(cfg, s, env, t - 1), EventAt(cfg, s, env, t - 1));
      HalvedBatch(TooLarge(cfg, s, env, t - 1));
    }
  }

  lemma PowZero()
    ensures Pow(2, 0) == 1
  {
  }

  /** A pass that broadcasts carries the next messages, as many as the batch size allows. */
  lemma StepCarries(cfg: Config, s: State, e: Event)
    ensures var r, r' := s.run, Step(cfg, s, e).run;
            r'.log != r.log ==>
              && |r'.log| == |r.log| + 1 && r'.log[..|r.log|] == r.log
              && r'.log[|r.log|].msgs == r.left[..Min(r.batch, |r.left|)]
  {
  }

  /**
   What every transaction of every run carries: the next messages of the original list, as many as are
   left or as 100 halved once for every transaction that was too large before.
   */
  lemma AttemptCarries(cfg: Config, msgs: seq<Msg>, check: Validity, sh: Shared, env: Env, t: nat)
    ensures var s := State(Start(msgs, check), sh);
            var r, r', k := Exec(cfg, s, env, t).run, Exec(cfg, s, env, t + 1).run, TooLarge(cfg, s, env, t);
            && Pow(2, k) > 0 && |Flatten(r.sent)| <= |msgs|
            && r.batch == 100 / Pow(2, k)
            && (r'.log != r.log ==>
                  var unsent := msgs[|Flatten(r.sent)|..];
                  && |r'.log| == |r.log| + 1 && r'.log[..|r.log|] == r.log
                  && r'.log[|r.log|].msgs == unsent[..Min(100 / Pow(2, k), |unsent|)])
  {
    var s := State(Start(msgs, check), sh);
    assert Flatten<Msg>([]) + msgs == msgs;
    assert Keeps(s.run, msgs);
    var r := Exec(cfg, s, env, t).run;
    ExecStep(cfg, s, env, t + 1);
    hide Exec, Step, TooLarge, Pow, Flatten;
    ExecKeeps(cfg, s, env, t, msgs);
    BatchHalves(cfg, s, env, t);
    StepCarries(cfg, Exec(cfg, s, env, t), EventAt(cfg, s, env, t));
    assert msgs[|Flatten(r.sent)|..] == r.left;
  }

  /** The messages of the acknowledged broadcasts. */
  function Acknowledged(log: seq<Attempt>): seq<seq<Msg>> {
    if log == [] then []
    else
      var last := |log| - 1;
      Acknowledged(log[..last]) + if log[last].outcome == Acked then [log[last].msgs] else []
  }

  /** The results are those of the acknowledged broadcasts, in order. */
  lemma SentIsAcknowledged(cfg: Config, msgs: seq<Msg>, check: Validity, sh: Shared, env: Env, t: nat)
    ensures var r := Exec(cfg, State(Start(msgs, check), sh), env, t).run; r.sent == Acknowledged(r.log)
  {
    assert Acknowledged([]) == [];
    hide Exec, Acknowledged;
    ExecAcknowledges(cfg, State(Start(msgs, check), sh), env, t);
  }

  lemma {:induction false} ExecAcknowledges(cfg: Config, s: State, env: Env, t: nat)
    requires s.run.sent == Acknowledged(s.run.log)
    ensures var r := Exec(cfg, s, env, t).run; r.sent == Acknowledged(r.log)
  {
    hide Step, Acknowledged;
    if t > 0 {
      ExecStep(cfg, s, env, t);
      hide Exec;
      ExecAcknowledges(cfg, s, env, t - 1);
      StepAcknowledges(cfg, Exec(cfg, s, env, t - 1), EventAt(cfg, s, env, t - 1));
    }
  }

  lemma StepLogged(cfg: Config, s: State, e: Event)
    ensures var r, r' := s.run, Step(cfg, s, e).run;
            if r'.log == r.log then r'.sent == r.sent
            else
              && |r'.log| == |r.log| + 1 && r'.log == r.log + [r'.log[|r.log|]]
              && var a := r'.log[|r.log|]; r'.sent == r.sent + (if a.outcome == Acked then [a.msgs] else [])
  {
  }

  lemma OneMoreAcknowledged(log: seq<Attempt>, a: Attempt)
    ensures Acknowledged(log + [a]) == Acknowledged(log) + if a.outcome == Acked then [a.msgs] else []
  {
    assert (log + [a])[..|log|] == log;
  }

  lemma StepAcknowledges(cfg: Config, s: State, e: Event)
    requires s.run.sent == Acknowledged(s.run.log)
    ensures var r' := Step(cfg, s, e).run; r'.sent == Acknowledged(r'.log)
  {
    hide Step, Acknowledged;
    var r, r' := s.run, Step(cfg, s, e).run;
    StepLogged(cfg, s, e);
    if r'.log != r.log { OneMoreAcknowledged(r.log, r'.log[|r.log|]); }
  }

  /** The pieces that were sent and the pieces that are left are the pieces of the original list. */
  ghost predicate InHundreds(r: Run, msgs: seq<Msg>) {
    && r.batch == 100
    && (r.status == Done ==> r.sent == Segments(100, msgs))
    && (r.status == Running ==> r.sent + Segments(100, r.left) == Segments(100, msgs))
  }

  lemma StepInHundreds(cfg: Config, s: State, e: Event, msgs: seq<Msg>)
    requires Keeps(s.run, msgs) && InHundreds(s.run, msgs) && !TooLargePass(s.run, e)
    ensures InHundreds(Step(cfg, s, e).run, msgs)
  {
    var r, r' := s.run, Step(cfg, s, e).run;
    if r.status == Running {
      var seg := Segment(r);
      FirstPiece(100, r.left, r.sent);
      assert r'.sent == r.sent || (r'.sent == r.sent + [seg] && r'.left == r.left[|seg|..]);
      assert r'.batch == 100 && (r'.sent == r.sent ==> r'.left == r.left && r'.status != Done);
      assert r'.sent != r.sent ==> (r'.status == Done <==> r'.left == []);
      hide Step, Segments;
    }
  }

  lemma {:induction false} ExecInHundreds(cfg: Config, s: State, env: Env, t: nat, msgs: seq<Msg>)
    requires Keeps(s.run, msgs) && InHundreds(s.run, msgs) && TooLarge(cfg, s, env, t) == 0
    ensures InHundreds(Exec(cfg, s, env, t).run, msgs)
  {
    hide Step, Keeps, InHundreds, TooLargePass;
    if t > 0 {
      ExecStep(cfg, s, env, t);
      hide Exec;
      ExecInHundreds(cfg, s, env, t - 1, msgs);
      ExecKeeps(cfg, s, env, t - 1, msgs);
      StepInHundreds(cfg, Exec(cfg, s, env, t - 1), EventAt(cfg, s, env, t - 1), msgs);
    }
  }

  /**
   A call that returned normally without a transaction that was too large, whatever failed on the way,
   sent its messages a hundred at a time: as many results as hundreds, begun ones included.
   */
  lemma SentInHundreds(cfg: Config, msgs: seq<Msg>, check: Validity, sh: Shared, env: Env, t: nat)
    requires TooLarge(cfg, State(Start(msgs, check), sh), env, t) == 0
    requires Exec(cfg, State(Start(msgs, check), sh), env, t).run.status == Done
    ensures var r := Exec(cfg, State(Start(msgs, check), sh), env, t).run;
            r.sent == Segments(100, msgs) && |r.sent| == (|msgs| + 99) / 100
  {
    var s := State(Start(msgs, check), sh);
    assert Flatten<Msg>([]) + msgs == msgs;
    assert [] + Segments(100, msgs) == Segments(100, msgs);
    assert Keeps(s.run, msgs);
    if msgs == [] { ExecStops(cfg, s, env, 0, t); }
    assert InHundreds(s.run, msgs);
    hide Exec, TooLarge, Segments;
    ExecInHundreds(cfg, s, env, t, msgs);
    SegmentCount(100, msgs);
  }

  // ------------------------------------------------- the self-healing sequence

  /** A cached number, if any, is the one the chain used last. */
  predicate Healthy(sh: Shared) {
    sh.cache.Some? ==> Succ(sh.cache.value) == sh.next
  }

  /** After any step that goes on, the cache is healthy: no matter how it was before, and whatever happened. */
  lemma StepHeals(cfg: Config, s: State, e: Event)
    requires cfg.fixed.None? && s.run.status == Running
    requires s.shared.next < U64
    ensures var s' := Step(cfg, s, e);
            && s'.shared.next < U64
            && (s'.run.status == Running ==> Healthy(s'.shared))
  {
  }

  /** From a healthy cache, the number taken is the chain's next. */
  lemma HealthyNumber(cfg: Config, sh: Shared, evicted: bool)
    requires cfg.fixed.None? && Healthy(sh)
    ensures TakeNumber(cfg, sh, evicted).number == sh.next
  {
  }

  /** From the k-th broadcast on, every one carried the number the chain expected and none was rejected for it. */
  ghost predicate OnSequenceFrom(log: seq<Attempt>, k: nat) {
    forall i :: k <= i < |log| ==> log[i].number == log[i].expected && log[i].outcome != SequenceRejected
  }

  /** The condition that makes a whole run self-healing: after its first broadcast its cache is healthy. */
  ghost predicate Healing(s: State) {
    && OnSequenceFrom(s.run.log, 1)
    && s.shared.next < U64
    && (s.run.status == Running && s.run.log != [] ==> Healthy(s.shared))
  }

  lemma StepHealing(cfg: Config, s: State, e: Event)
    requires cfg.fixed.None? && Healing(s)
    ensures Healing(Step(cfg, s, e))
  {
    if s.run.status == Running {
      StepHeals(cfg, s, e);
      if Healthy(s.shared) {
        HealthyNumber(cfg, s.shared, e.evicted);
      }
    }
  }

  lemma {:induction false} ExecHealing(cfg: Config, s: State, env: Env, t: nat)
    requires cfg.fixed.None? && Healing(s)
    ensures Healing(Exec(cfg, s, env, t))
  {
    if t > 0 {
      ExecHealing(cfg, s, env, t - 1);
      StepHealing(cfg, Exec(cfg, s, env, t - 1), EventAt(cfg, s, env, t - 1));
    }
  }

  /** How many broadcasts had one of the given fates. */
  function Count(log: seq<Attempt>, fates: set<Outcome>): nat {
    if log == [] then 0
    else
      var last := |log| - 1;
      Count(log[..last], fates) + if log[last].outcome in fates then 1 else 0
  }

  function Rejections(log: seq<Attempt>): nat { Count(log, {SequenceRejected}) }

  /** Failures that are not sequence rejections. */
  function OtherFailures(log: seq<Attempt>): nat { Count(log, {Refused, Burned, Lost}) }

  function LostReplies(log: seq<Attempt>): nat { Count(log, {Lost}) }

  lemma CountOneMore(log: seq<Attempt>, a: Attempt, fates: set<Outcome>)
    ensures Count(log + [a], fates) == Count(log, fates) + if a.outcome in fates then 1 else 0
  {
    assert (log + [a])[..|log|] == log;
  }

  lemma {:induction false} RejectionsAfterFirst(log: seq<Attempt>)
    requires OnSequenceFrom(log, 1)
    ensures Rejections(log) <= 1
    ensures log != [] && log[0].outcome != SequenceRejected ==> Rejections(log) == 0
  {
    if log != [] {
      var l := log[..|log| - 1];
      assert OnSequenceFrom(l, 1);
      RejectionsAfterFirst(l);
      assert |log| > 1 ==> l[0] == log[0];
    }
  }

  /**
   Self-healing: from any cache content and under any events, a call meets at most one sequence
   rejection, it can only be its first broadcast, and every later transaction carries exactly the
   chain's next number.
   */
  lemma {:induction false} SelfHealing(cfg: Config, msgs: seq<Msg>, check: Validity, sh: Shared, env: Env, t: nat)
    requires cfg.fixed.None? && sh.next < U64
    ensures var r := Exec(cfg, State(Start(msgs, check), sh), env, t).run;
            OnSequenceFrom(r.log, 1) && Rejections(r.log) <= 1
  {
    var s := State(Start(msgs, check), sh);
    ExecHealing(cfg, s, env, t);
    RejectionsAfterFirst(Exec(cfg, s, env, t).run.log);
  }

  /** Every broadcast so far was on sequence, and a call that goes on or has returned leaves a healthy cache. */
  ghost predicate OnTrack(s: State) {
    && OnSequenceFrom(s.run.log, 0)
    && s.shared.next < U64
    && (s.run.status == Running || s.run.status == Done ==> Healthy(s.shared))
  }

  lemma StepOnTrack(cfg: Config, s: State, e: Event)
    requires cfg.fixed.None? && OnTrack(s)
    ensures OnTrack(Step(cfg, s, e))
  {
    if s.run.status == Running {
      HealthyNumber(cfg, s.shared, e.evicted);
    }
  }

  lemma {:induction false} ExecOnTrack(cfg: Config, s: State, env: Env, t: nat)
    requires cfg.fixed.None? && OnTrack(s)
    ensures OnTrack(Exec(cfg, s, env, t))
  {
    if t > 0 {
      ExecOnTrack(cfg, s, env, t - 1);
      hide OnTrack, Step;
      StepOnTrack(cfg, Exec(cfg, s, env, t - 1), EventAt(cfg, s, env, t - 1));
    }
  }

  /**
   A warm start: from a healthy or absent cache entry no broadcast of the call is ever off sequence, and
   a call that returns normally leaves the entry healthy for the next one.
   */
  lemma {:induction false} WarmStart(cfg: Config, msgs: seq<Msg>, check: Validity, sh: Shared, env: Env, t: nat)
    requires cfg.fixed.None? && sh.next < U64 && Healthy(sh)
    ensures var s := Exec(cfg, State(Start(msgs, check), sh), env, t);
            && OnSequenceFrom(s.run.log, 0) && Rejections(s.run.log) == 0
            && (s.run.status == Done ==> Healthy(s.shared))
  {
    var s := State(Start(msgs, check), sh);
    hide Exec;
    ExecOnTrack(cfg, s, env, t);
    NoRejections(Exec(cfg, s, env, t).run.log);
  }

  lemma {:induction false} NoRejections(log: seq<Attempt>)
    requires OnSequenceFrom(log, 0)
    ensures Rejections(log) == 0
  {
    if log != [] {
      assert OnSequenceFrom(log[..|log| - 1], 0);
      NoRejections(log[..|log| - 1]);
    }
  }

  /** A pass that takes a number and never broadcasts it: signing fails or panics. */
  predicate Abandons(r: Run, e: Event) { r.status == Running && (e.build == NotSigned || e.build == BuildPanics) }

  ghost predicate AbandonsWithin(cfg: Config, s: State, env: Env, t: nat) {
    exists i: nat :: i < t && Abandons(Exec(cfg, s, env, i).run, EventAt(cfg, s, env, i))
  }

  lemma StepHealthyIff(cfg: Config, s: State, e: Event)
    requires cfg.cached && cfg.fixed.None? && s.run.status == Running && s.shared.next < U64 && Healthy(s.shared)
    ensures var s' := Step(cfg, s, e);
            && s'.shared.next < U64
            && (Healthy(s'.shared) <==> !Abandons(s.run, e))
            && (Abandons(s.run, e) ==> s'.run.status != Running)
  {
    HealthyNumber(cfg, s.shared, e.evicted);
  }

  lemma {:induction false} ExecHealthyIff(cfg: Config, s: State, env: Env, t: nat)
    requires cfg.cached && cfg.fixed.None? && s.shared.next < U64 && Healthy(s.shared)
    ensures var p := Exec(cfg, s, env, t);
            && p.shared.next < U64
            && (Healthy(p.shared) <==> !AbandonsWithin(cfg, s, env, t))
            && (AbandonsWithin(cfg, s, env, t) ==> p.run.status != Running)
  {
    hide Step, Abandons, Healthy;
    if t > 0 {
      ExecStep(cfg, s, env, t);
      hide Exec;
      ExecHealthyIff(cfg, s, env, t - 1);
      var p, e := Exec(cfg, s, env, t - 1), EventAt(cfg, s, env, t - 1);
      if p.run.status == Running { StepHealthyIff(cfg, p, e); } else { StepStops(cfg, p, e); OverAbandonsNot(p.run, e); }
      assert AbandonsWithin(cfg, s, env, t) <==> AbandonsWithin(cfg, s, env, t - 1) || Abandons(p.run, e) by {
        if i: nat :| i < t && Abandons(Exec(cfg, s, env, i).run, EventAt(cfg, s, env, i)) {
          assert i == t - 1 || i < t - 1;
        }
      }
    }
  }

  lemma OverAbandonsNot(r: Run, e: Event)
    requires r.status != Running
    ensures !Abandons(r, e)
  {
  }

  /**
   "A call leaves the cache as healthy as it found it" is false of the code: a number that is taken and
   never broadcast stays in the cache. From a healthy entry, in every state of every run, the entry is
   healthy exactly when no pass failed or panicked while signing.
   */
  lemma HealthyAfterIff(cfg: Config, msgs: seq<Msg>, check: Validity, sh: Shared, env: Env, t: nat)
    requires cfg.cached && cfg.fixed.None? && sh.next < U64 && Healthy(sh)
    ensures var s := State(Start(msgs, check), sh);
            Healthy(Exec(cfg, s, env, t).shared) <==> !AbandonsWithin(cfg, s, env, t)
  {
    hide Exec, Healthy, AbandonsWithin;
    ExecHealthyIff(cfg, State(Start(msgs, check), sh), env, t);
  }

  /** Signing fails once: the chain's next number is in the cache although nothing was broadcast under it. */
  lemma AbandonedNumber(m: Msg, sh: Shared, env: Env)
    requires sh.cache == None && sh.next < U64
    requires env(0, Start([m], Passes)).build == NotSigned
    ensures var s := Exec(Config(true, None), State(Start([m], Passes), sh), env, 1);
            s.run.status == Failed && s.run.log == [] && s.shared.cache == Some(sh.next) && !Healthy(s.shared)
  {
    var cfg, s := Config(true, None), State(Start([m], Passes), sh);
    assert Exec(cfg, s, env, 0) == s;
  }

  /**
   The cache is used: the first broadcast that reaches the chain is rejected for its number exactly when
   there was an entry, it was still there, and it was not the number the chain used last.
   */
  lemma FirstRejectedIff(cfg: Config, msgs: seq<Msg>, sh: Shared, env: Env, e: Event)
    requires cfg.cached && cfg.fixed.None? && msgs != []
    requires e == env(0, Start(msgs, Passes)) && e.build == Built && e.fits && e.verdict != Refuse
    ensures var log := Exec(cfg, State(Start(msgs, Passes), sh), env, 1).run.log;
            |log| == 1 && (log[0].outcome == SequenceRejected <==> sh.cache.Some? && !e.evicted && !Healthy(sh))
  {
    var s := State(Start(msgs, Passes), sh);
    assert Exec(cfg, s, env, 0) == s;
  }

  /** With a fixed number, every broadcast so far carried it, and the cache entry is as it was or was removed. */
  ghost predicate UsesFixed(s: State, n: nat, cache: Option<nat>) {
    && (forall i :: 0 <= i < |s.run.log| ==> s.run.log[i].number == n)
    && (s.shared.cache == cache || s.shared.cache == None)
    && (s.run.tries == 0 && s.run.batch == 100 ==> s.shared.cache == cache)
  }

  lemma StepUsesFixed(cfg: Config, s: State, e: Event, n: nat, cache: Option<nat>)
    requires cfg.fixed == Some(n) && UsesFixed(s, n, cache) && s.run.batch <= 100
    ensures UsesFixed(Step(cfg, s, e), n, cache) && Step(cfg, s, e).run.batch <= 100
  {
  }

  lemma {:induction false} ExecUsesFixed(cfg: Config, s: State, env: Env, t: nat, n: nat, cache: Option<nat>)
    requires cfg.fixed == Some(n) && UsesFixed(s, n, cache) && s.run.batch <= 100
    ensures UsesFixed(Exec(cfg, s, env, t), n, cache) && Exec(cfg, s, env, t).run.batch <= 100
  {
    if t > 0 {
      ExecUsesFixed(cfg, s, env, t - 1, n, cache);
      hide UsesFixed, Step;
      StepUsesFixed(cfg, Exec(cfg, s, env, t - 1), EventAt(cfg, s, env, t - 1), n, cache);
    }
  }

  /**
   A number that the caller fixed is the number of every broadcast, and the cache is not consulted: its
   entry is left alone until a broadcast fails or a transaction is too large, which remove it.
   */
  lemma FixedNumber(cfg: Config, msgs: seq<Msg>, check: Validity, sh: Shared, env: Env, t: nat, n: nat)
    requires cfg.fixed == Some(n)
    ensures var s := Exec(cfg, State(Start(msgs, check), sh), env, t);
            && (forall i :: 0 <= i < |s.run.log| ==> s.run.log[i].number == n)
            && (s.shared.cache == sh.cache || s.shared.cache == None)
            && (s.run.tries == 0 && s.run.batch == 100 ==> s.shared.cache == sh.cache)
  {
    hide Exec;
    ExecUsesFixed(cfg, State(Start(msgs, check), sh), env, t, n, sh.cache);
  }

  // ------------------------------------------------------ the budget suffices

  lemma ExecStep(cfg: Config, s: State, env: Env, t: nat)
    requires t > 0
    ensures Exec(cfg, s, env, t) == Step(cfg, Exec(cfg, s, env, t - 1), EventAt(cfg, s, env, t - 1))
  {
  }

  /** With caching on, the failure count is the number of failed broadcasts. */
  ghost predicate Counted(r: Run) { r.tries == Rejections(r.log) + OtherFailures(r.log) }

  /** A step either leaves the log alone or appends one attempt; with caching on, a failed one costs a try. */
  lemma StepLog(cfg: Config, s: State, e: Event)
    ensures var r, r' := s.run, Step(cfg, s, e).run;
            || (r'.log == r.log && r'.tries == r.tries && r'.sent == r.sent)
            || (|r'.log| == |r.log| + 1 && r'.log == r.log + [r'.log[|r.log|]]
                && var o := r'.log[|r.log|].outcome;
                   && (o == Acked ==> r'.tries == r.tries && r'.sent == r.sent + [Segment(r)])
                   && (o != Acked ==> r'.tries == (if cfg.cached then r.tries + 1 else r.tries) && r'.sent == r.sent))
  {
  }

  lemma StepCounted(cfg: Config, s: State, e: Event)
    requires cfg.cached && Counted(s.run)
    ensures Counted(Step(cfg, s, e).run)
  {
    var r, r' := s.run, Step(cfg, s, e).run;
    StepLog(cfg, s, e);
    hide Step, Count;
    if r'.log != r.log {
      CountOneMore(r.log, r'.log[|r.log|], {SequenceRejected});
      CountOneMore(r.log, r'.log[|r.log|], {Refused, Burned, Lost});
    }
  }

  lemma {:induction false} ExecCounted(cfg: Config, s: State, env: Env, t: nat)
    requires cfg.cached && Counted(s.run)
    ensures Counted(Exec(cfg, s, env, t).run)
  {
    if t > 0 {
      ExecCounted(cfg, s, env, t - 1);
      hide Counted, Step;
      StepCounted(cfg, Exec(cfg, s, env, t - 1), EventAt(cfg, s, env, t - 1));
    }
  }

  /** Without caching a call gives up at its first failed broadcast. */
  ghost predicate GivesUp(r: Run) {
    && Rejections(r.log) + OtherFailures(r.log) <= 1
    && (r.status == Running ==> Rejections(r.log) + OtherFailures(r.log) == 0)
  }

  lemma StepGivesUp(cfg: Config, s: State, e: Event)
    requires !cfg.cached && GivesUp(s.run)
    ensures GivesUp(Step(cfg, s, e).run)
  {
    var r, r' := s.run, Step(cfg, s, e).run;
    StepLog(cfg, s, e);
    StepWithoutCache(cfg, s, e);
    hide Step, Count;
    if r'.log != r.log {
      CountOneMore(r.log, r'.log[|r.log|], {SequenceRejected});
      CountOneMore(r.log, r'.log[|r.log|], {Refused, Burned, Lost});
    }
  }

  lemma StepWithoutCache(cfg: Config, s: State, e: Event)
    requires !cfg.cached
    ensures var r, r' := s.run, Step(cfg, s, e).run;
            && (r'.log != r.log ==> r.status == Running)
            && (r'.log != r.log && r'.status == Running ==> r'.log == r.log + [r'.log[|r.log|]] && r'.log[|r.log|].outcome == Acked)
            && (r'.status == Running ==> r.status == Running)
  {
  }

  lemma {:induction false} ExecGivesUp(cfg: Config, s: State, env: Env, t: nat)
    requires !cfg.cached && GivesUp(s.run)
    ensures GivesUp(Exec(cfg, s, env, t).run)
  {
    if t > 0 {
      ExecGivesUp(cfg, s, env, t - 1);
      hide GivesUp, Step;
      StepGivesUp(cfg, Exec(cfg, s, env, t - 1), EventAt(cfg, s, env, t - 1));
    }
  }

  /**
   Whatever happens, a call for n messages is over after n + 10 passes. In every state of its run at
   most three broadcasts have failed, and at most one when there is no cache to blame.
   */
  lemma RunEnds(cfg: Config, msgs: seq<Msg>, check: Validity, sh: Shared, env: Env, t: nat)
    ensures var r := Exec(cfg, State(Start(msgs, check), sh), env, t).run;
            && (t >= |msgs| + 10 ==> r.status != Running)
            && Rejections(r.log) + OtherFailures(r.log) <= if cfg.cached then TRY_THRESHOLD else 1
  {
    var s := State(Start(msgs, check), sh);
    assert Flatten<Msg>([]) + msgs == msgs;
    assert Counted(s.run) && GivesUp(s.run) && Keeps(s.run, msgs);
    hide Exec, Count, Start;
    if t >= |msgs| + 10 { RunStops(cfg, msgs, check, sh, env, t); }
    if cfg.cached {
      ExecCounted(cfg, s, env, t);
      ExecKeeps(cfg, s, env, t, msgs);
    } else {
      ExecGivesUp(cfg, s, env, t);
    }
  }

  /** A pass builds and signs, and a single message fits into a transaction. */
  predicate Benign(r: Run, e: Event) { e.build == Built && (|Segment(r)| == 1 ==> e.fits) }

  ghost predicate Buildable(env: Env) {
    forall t: nat, r: Run :: Benign(r, env(t, r))
  }

  /** The call has not panicked, and gave up only for want of tries. */
  predicate OutOfTriesOnly(r: Run) { r.status != Panicked && (r.status == Failed ==> r.tries >= TRY_THRESHOLD) }

  lemma BenignAt(env: Env, t: nat, r: Run)
    requires Buildable(env)
    ensures Benign(r, env(t, r))
  {
  }

  lemma BenignStep(cfg: Config, s: State, e: Event, msgs: seq<Msg>)
    requires cfg.cached && Keeps(s.run, msgs) && Benign(s.run, e) && OutOfTriesOnly(s.run)
    ensures OutOfTriesOnly(Step(cfg, s, e).run)
  {
  }

  lemma {:induction false} BuildableRun(cfg: Config, s: State, env: Env, t: nat, msgs: seq<Msg>)
    requires cfg.cached && Keeps(s.run, msgs) && OutOfTriesOnly(s.run) && Buildable(env)
    ensures OutOfTriesOnly(Exec(cfg, s, env, t).run)
  {
    hide Step, OutOfTriesOnly, Benign, Buildable, Keeps;
    if t > 0 {
      ExecStep(cfg, s, env, t);
      hide Exec;
      BuildableRun(cfg, s, env, t - 1, msgs);
      ExecKeeps(cfg, s, env, t - 1, msgs);
      var p := Exec(cfg, s, env, t - 1);
      BenignAt(env, t - 1, p.run);
      BenignStep(cfg, p, env(t - 1, p.run), msgs);
    }
  }

  /**
   When transactions can be built, a call that is over has sent everything if and only if fewer than
   three of its broadcasts failed.
   */
  lemma DoneIff(cfg: Config, msgs: seq<Msg>, sh: Shared, env: Env, t: nat)
    requires cfg.cached && msgs != [] && Buildable(env) && t >= |msgs| + 10
    ensures var r := Exec(cfg, State(Start(msgs, Passes), sh), env, t).run;
            && (r.status == Done <==> Rejections(r.log) + OtherFailures(r.log) < TRY_THRESHOLD)
            && (r.status == Done <==> Flatten(r.sent) == msgs)
  {
    var s := State(Start(msgs, Passes), sh);
    assert Flatten<Msg>([]) + msgs == msgs;
    assert Counted(s.run) && OutOfTriesOnly(s.run) && Keeps(s.run, msgs);
    hide Exec, Buildable;
    RunStops(cfg, msgs, Passes, sh, env, t);
    BuildableRun(cfg, s, env, t, msgs);
    ExecKeeps(cfg, s, env, t, msgs);
    ExecCounted(cfg, s, env, t);
    SentIsPrefix(cfg, msgs, Passes, sh, env, t);
  }

  /**
   The budget of three always suffices: when transactions can be built and at most one broadcast fails
   for a reason other than its number, the call returns normally and every message was sent, from any
   cache content.
   */
  lemma BudgetSuffices(cfg: Config, msgs: seq<Msg>, sh: Shared, env: Env, t: nat)
    requires cfg.cached && cfg.fixed.None? && sh.next < U64 && msgs != []
    requires Buildable(env)
    requires t >= |msgs| + 10
    requires OtherFailures(Exec(cfg, State(Start(msgs, Passes), sh), env, t).run.log) <= 1
    ensures var r := Exec(cfg, State(Start(msgs, Passes), sh), env, t).run;
            r.status == Done && Flatten(r.sent) == msgs
  {
    hide Exec, Buildable, Start, Count;
    SelfHealing(cfg, msgs, Passes, sh, env, t);
    DoneIff(cfg, msgs, sh, env, t);
  }

  // -------------------------------------------- delivered versus acknowledged

  /** Deliveries beyond the first `base` are the acknowledged pieces, plus one for every lost reply. */
  ghost predicate Accounted(s: State, base: nat) {
    && base <= |s.shared.delivered|
    && |s.shared.delivered| - base == |s.run.sent| + LostReplies(s.run.log)
    && (LostReplies(s.run.log) == 0 ==> s.shared.delivered[base..] == s.run.sent)
  }

  /** A step delivers exactly when its broadcast was acknowledged or its reply was lost. */
  lemma StepDelivery(cfg: Config, s: State, e: Event)
    ensures var s' := Step(cfg, s, e);
            if s'.run.log == s.run.log then s'.shared.delivered == s.shared.delivered && s'.run.sent == s.run.sent
            else
              && |s'.run.log| == |s.run.log| + 1 && s'.run.log == s.run.log + [s'.run.log[|s.run.log|]]
              && var o := s'.run.log[|s.run.log|].outcome;
                 && s'.shared.delivered == s.shared.delivered + (if o == Acked || o == Lost then [Segment(s.run)] else [])
                 && s'.run.sent == s.run.sent + (if o == Acked then [Segment(s.run)] else [])
  {
  }

  lemma StepAccounted(cfg: Config, s: State, e: Event, base: nat)
    requires Accounted(s, base)
    ensures Accounted(Step(cfg, s, e), base)
  {
    var s' := Step(cfg, s, e);
    StepDelivery(cfg, s, e);
    hide Step, Count;
    if s'.run.log != s.run.log {
      CountOneMore(s.run.log, s'.run.log[|s.run.log|], {Lost});
      var seg := Segment(s.run);
      assert (s.shared.delivered + [seg])[base..] == s.shared.delivered[base..] + [seg];
      assert s.shared.delivered + [] == s.shared.delivered && s.run.sent + [] == s.run.sent;
    }
  }

  lemma {:induction false} ExecAccounted(cfg: Config, s: State, env: Env, t: nat, base: nat)
    requires Accounted(s, base)
    ensures Accounted(Exec(cfg, s, env, t), base)
  {
    if t > 0 {
      ExecAccounted(cfg, s, env, t - 1, base);
      hide Accounted, Step;
      StepAccounted(cfg, Exec(cfg, s, env, t - 1), EventAt(cfg, s, env, t - 1), base);
    }
  }

  /**
   What the chain executed during a run is what was acknowledged, piece for piece, exactly when no
   reply was lost; each lost reply is one more execution of messages that will be sent again.
   */
  lemma {:induction false} DeliveredIff(cfg: Config, msgs: seq<Msg>, check: Validity, sh: Shared, env: Env, t: nat)
    ensures var s := Exec(cfg, State(Start(msgs, check), sh), env, t);
            var base := |sh.delivered|;
            && base <= |s.shared.delivered|
            && |s.shared.delivered| - base == |s.run.sent| + LostReplies(s.run.log)
            && (s.shared.delivered[base..] == s.run.sent <==> LostReplies(s.run.log) == 0)
  {
    var s := State(Start(msgs, check), sh);
    assert sh.delivered[|sh.delivered|..] == [];
    assert Accounted(s, |sh.delivered|);
    hide Exec, Count;
    ExecAccounted(cfg, s, env, t, |sh.delivered|);
  }

  // --------------------------------------- when "no error" means "all sent"

  /** A running pass that panics: while building, or by halving a batch of one that is too large. */
  predicate PanicPass(r: Run, e: Event) {
    r.status == Running &&
    (e.build == QueryPanics || e.build == BuildPanics || (e.build == Built && !e.fits && r.batch <= 1))
  }

  ghost predicate PanicWithin(cfg: Config, s: State, env: Env, t: nat) {
    exists i: nat :: i < t && PanicPass(Exec(cfg, s, env, i).run, EventAt(cfg, s, env, i))
  }

  lemma StepPanicsIff(cfg: Config, s: State, e: Event)
    ensures Step(cfg, s, e).run.status == Panicked <==> s.run.status == Panicked || PanicPass(s.run, e)
  {
  }

  lemma {:induction false} PanickedIff(cfg: Config, s: State, env: Env, t: nat)
    ensures Exec(cfg, s, env, t).run.status == Panicked <==> s.run.status == Panicked || PanicWithin(cfg, s, env, t)
  {
    hide Step, PanicPass;
    if t > 0 {
      ExecStep(cfg, s, env, t);
      hide Exec;
      PanickedIff(cfg, s, env, t - 1);
      StepPanicsIff(cfg, Exec(cfg, s, env, t - 1), EventAt(cfg, s, env, t - 1));
      if PanicWithin(cfg, s, env, t) {
        var i: nat :| i < t && PanicPass(Exec(cfg, s, env, i).run, EventAt(cfg, s, env, i));
        assert i == t - 1 || PanicWithin(cfg, s, env, t - 1);
      }
    }
  }

  /** A call panics: while its messages are validated, or in one of its passes. */
  ghost predicate PanicsWithin(cfg: Config, msgs: seq<Msg>, check: Validity, sh: Shared, env: Env, t: nat) {
    msgs != [] && (check == Panics || PanicWithin(cfg, State(Start(msgs, check), sh), env, t))
  }

  /**
   "A nil error means that everything was sent" is false of the code: the recover returns a nil error.
   For every configuration and under any events, a call ends in a panic exactly when validating its
   messages panics or one of its passes panics while building or has a batch of one that is too large;
   and once the call is over, a nil error means that everything was sent exactly when neither happened.
   */
  lemma NilErrorMeansSentIff(cfg: Config, msgs: seq<Msg>, check: Validity, sh: Shared, env: Env, t: nat)
    ensures var r := Exec(cfg, State(Start(msgs, check), sh), env, t).run;
            && (r.status == Panicked <==> PanicsWithin(cfg, msgs, check, sh, env, t))
            && (r.status != Running ==>
                  ((r.status != Failed ==> Flatten(r.sent) == msgs) <==> !PanicsWithin(cfg, msgs, check, sh, env, t)))
  {
    var s := State(Start(msgs, check), sh);
    if msgs == [] { ExecStops(cfg, s, env, 0, t); }
    hide Exec, PanicWithin, Flatten;
    PanickedIff(cfg, s, env, t);
    SentIsPrefix(cfg, msgs, check, sh, env, t);
  }

  /** A running pass that cannot build its transaction, and says so. */
  predicate ErrorPass(r: Run, e: Event) { r.status == Running && (e.build == NotPrepared || e.build == NotSigned) }

  ghost predicate ErrorWithin(cfg: Config, s: State, env: Env, t: nat) {
    exists i: nat :: i < t && ErrorPass(Exec(cfg, s, env, i).run, EventAt(cfg, s, env, i))
  }

  /** The number of failed broadcasts that ends a call. */
  function Budget(cfg: Config): nat { if cfg.cached then 3 else 1 }

  function Failures(log: seq<Attempt>): nat { Rejections(log) + OtherFailures(log) }

  lemma FailuresOneMore(log: seq<Attempt>, a: Attempt)
    ensures Failures(log + [a]) == Failures(log) + if a.outcome == Acked then 0 else 1
  {
    hide Count;
    CountOneMore(log, a, {SequenceRejected});
    CountOneMore(log, a, {Refused, Burned, Lost});
  }

  lemma StepErrorIff(cfg: Config, s: State, e: Event)
    requires s.run.status == Running && Failures(s.run.log) < Budget(cfg)
    requires cfg.cached ==> s.run.tries == Failures(s.run.log)
    ensures var s' := Step(cfg, s, e);
            && (s'.run.status == Failed <==> ErrorPass(s.run, e) || Failures(s'.run.log) >= Budget(cfg))
            && (Failures(s'.run.log) >= 3 ==> s'.shared.cache == None)
  {
    var r, r' := s.run, Step(cfg, s, e).run;
    if r'.log != r.log { FailuresOneMore(r.log, r'.log[|r.log|]); }
    hide Failures, Count;
  }

  lemma {:induction false} ExecErrorIff(cfg: Config, s: State, env: Env, t: nat)
    requires s.run.log == [] && s.run.tries == 0
    ensures var p := Exec(cfg, s, env, t);
            && (p.run.status == Failed <==>
                  s.run.status == Failed || ErrorWithin(cfg, s, env, t) || Failures(p.run.log) >= Budget(cfg))
            && (Failures(p.run.log) >= 3 ==> p.shared.cache == None)
  {
    hide Step, ErrorPass, Budget;
    if t == 0 {
      assert Failures([]) == 0;
      FewerThanBudget(cfg);
    } else {
      ExecStep(cfg, s, env, t);
      hide Exec, Count;
      ExecErrorIff(cfg, s, env, t - 1);
      var p, e := Exec(cfg, s, env, t - 1), EventAt(cfg, s, env, t - 1);
      if p.run.status == Running {
        if cfg.cached { ExecCounted(cfg, s, env, t - 1); }
        StepErrorIff(cfg, p, e);
      } else {
        StepStops(cfg, p, e);
        OverNoError(p.run, e);
      }
      assert ErrorWithin(cfg, s, env, t) <==> ErrorWithin(cfg, s, env, t - 1) || ErrorPass(p.run, e) by {
        if i: nat :| i < t && ErrorPass(Exec(cfg, s, env, i).run, EventAt(cfg, s, env, i)) {
          assert i == t - 1 || i < t - 1;
        }
      }
    }
  }

  lemma FewerThanBudget(cfg: Config)
    ensures 0 < Budget(cfg)
  {
  }

  lemma OverNoError(r: Run, e: Event)
    requires r.status != Running
    ensures !ErrorPass(r, e)
  {
  }

  /**
   When a call ends with an error: exactly when there are no messages, validating them refuses one, a pass
   cannot build its transaction, or three broadcasts have failed, one without caching. After three failures
   no number is left in the cache.
   */
  lemma ErrorIff(cfg: Config, msgs: seq<Msg>, check: Validity, sh: Shared, env: Env, t: nat)
    ensures var s := State(Start(msgs, check), sh);
            var p := Exec(cfg, s, env, t);
            && (p.run.status == Failed <==>
                  || msgs == [] || check == Refuses || ErrorWithin(cfg, s, env, t)
                  || Failures(p.run.log) >= if cfg.cached then 3 else 1)
            && (Failures(p.run.log) >= 3 ==> p.shared.cache == None)
  {
    hide Exec, ErrorWithin, Failures;
    ExecErrorIff(cfg, State(Start(msgs, check), sh), env, t);
  }

  /** One message, and a fee that cannot be converted: a nil error, and nothing was sent. */
  lemma NilErrorNothingSent(cfg: Config, m: Msg, sh: Shared, env: Env)
    requires forall t: nat, r: Run :: env(t, r).build == BuildPanics
    ensures var r := Exec(cfg, State(Start([m], Passes), sh), env, 1).run;
            r.status == Panicked && r.sent == []
  {
    var s := State(Start([m], Passes), sh);
    assert Exec(cfg, s, env, 0) == s;
    assert env(0, s.run).build == BuildPanics;
  }

  // ------------------------------------------------------------- size limits

  /** The size check is a fixed test of the messages, as a size limit is, and building does not panic. */
  predicate Tested(r: Run, e: Event, fits: seq<Msg> -> bool) {
    && e.build != QueryPanics && e.build != BuildPanics
    && (e.build == Built ==> e.fits == fits(Segment(r)))
  }

  ghost predicate SizeTested(env: Env, fits: seq<Msg> -> bool) {
    forall t: nat, r: Run :: Tested(r, env(t, r), fits)
  }

  lemma TestedAt(env: Env, fits: seq<Msg> -> bool, t: nat, r: Run)
    requires SizeTested(env, fits)
    ensures Tested(r, env(t, r), fits)
  {
  }

  ghost predicate EachFits(msgs: seq<Msg>, fits: seq<Msg> -> bool) {
    forall i :: 0 <= i < |msgs| ==> fits([msgs[i]])
  }

  /** Taking messages out of a transaction never makes it too large. */
  ghost predicate Monotone(fits: seq<Msg> -> bool) {
    forall ms :: fits(ms) ==> EachFits(ms, fits)
  }

  lemma EachFitsConcat(a: seq<Msg>, b: seq<Msg>, fits: seq<Msg> -> bool)
    requires EachFits(a, fits) && EachFits(b, fits)
    ensures EachFits(a + b, fits)
  {
    forall i | 0 <= i < |a + b| ensures fits([(a + b)[i]]) {
      if i >= |a| { assert (a + b)[i] == b[i - |a|]; }
    }
  }

  lemma SentFitsStep(cfg: Config, s: State, e: Event, fits: seq<Msg> -> bool)
    requires Tested(s.run, e, fits) && Monotone(fits) && EachFits(Flatten(s.run.sent), fits)
    ensures EachFits(Flatten(Step(cfg, s, e).run.sent), fits)
  {
    var seg := Segment(s.run);
    assert Step(cfg, s, e).run.sent == s.run.sent || (fits(seg) && Step(cfg, s, e).run.sent == s.run.sent + [seg]);
    hide Step, EachFits;
    if Step(cfg, s, e).run.sent != s.run.sent {
      FlattenAppend(s.run.sent, seg);
      EachFitsConcat(Flatten(s.run.sent), seg, fits);
    }
  }

  /** Every message that was sent fits on its own. */
  lemma {:induction false} SentFits(cfg: Config, s: State, env: Env, fits: seq<Msg> -> bool, t: nat)
    requires SizeTested(env, fits) && Monotone(fits) && s.run.sent == []
    ensures EachFits(Flatten(Exec(cfg, s, env, t).run.sent), fits)
  {
    hide Step, Monotone, Tested, SizeTested;
    if t > 0 {
      ExecStep(cfg, s, env, t);
      hide Exec, EachFits, Flatten;
      SentFits(cfg, s, env, fits, t - 1);
      TestedAt(env, fits, t - 1, Exec(cfg, s, env, t - 1).run);
      SentFitsStep(cfg, Exec(cfg, s, env, t - 1), EventAt(cfg, s, env, t - 1), fits);
    }
  }

  /** A pass panics only over a message that does not fit. */
  lemma FittingPass(r: Run, e: Event, fits: seq<Msg> -> bool, msgs: seq<Msg>)
    requires Keeps(r, msgs) && Tested(r, e, fits) && EachFits(msgs, fits)
    ensures !PanicPass(r, e)
  {
    if r.status == Running && r.batch <= 1 {
      assert Segment(r) == [r.left[0]];
      assert msgs[|Flatten(r.sent)|] == r.left[0];
    }
  }

  /**
   With a size limit, whatever becomes of the broadcasts: a call whose messages validate without a panic
   panics only if some message is too large on its own, and returns normally only if none is. So a call
   that is over without an error has sent everything if and only if validating it did not panic and each
   message fits alone.
   */
  lemma SizeLimitIff(cfg: Config, msgs: seq<Msg>, check: Validity, sh: Shared, env: Env, fits: seq<Msg> -> bool, t: nat)
    requires SizeTested(env, fits) && Monotone(fits)
    ensures var r := Exec(cfg, State(Start(msgs, check), sh), env, t).run;
            && (r.status == Panicked ==> check == Panics || !EachFits(msgs, fits))
            && (r.status == Done ==> check == Passes && EachFits(msgs, fits))
            && (r.status != Running && r.status != Failed ==>
                  (Flatten(r.sent) == msgs <==> check != Panics && EachFits(msgs, fits)))
  {
    var s := State(Start(msgs, check), sh);
    assert Flatten<Msg>([]) + msgs == msgs;
    assert Keeps(s.run, msgs);
    if msgs == [] || check != Passes { ExecStops(cfg, s, env, 0, t); }
    hide Exec, SizeTested, Monotone, EachFits, PanicPass, Keeps, Tested, Flatten;
    SentFits(cfg, s, env, fits, t);
    SentIsPrefix(cfg, msgs, check, sh, env, t);
    PanickedIff(cfg, s, env, t);
    if PanicWithin(cfg, s, env, t) && EachFits(msgs, fits) {
      var i: nat :| i < t && PanicPass(Exec(cfg, s, env, i).run, EventAt(cfg, s, env, i));
      ExecKeeps(cfg, s, env, i, msgs);
      TestedAt(env, fits, i, Exec(cfg, s, env, i).run);
      FittingPass(Exec(cfg, s, env, i).run, EventAt(cfg, s, env, i), fits, msgs);
    }
  }

  /** Transactions can be built and every broadcast is accepted. */
  ghost predicate Smooth(env: Env) {
    forall t: nat, r: Run :: env(t, r).build == Built && env(t, r).verdict == Accept
  }

  lemma SmoothStep(cfg: Config, s: State, e: Event, msgs: seq<Msg>)
    requires cfg.cached && Keeps(s.run, msgs) && e.build == Built && e.verdict == Accept
    requires s.run.status != Failed && OtherFailures(s.run.log) == 0 && Counted(s.run)
    requires Rejections(Step(cfg, s, e).run.log) <= 1
    ensures Step(cfg, s, e).run.status != Failed && OtherFailures(Step(cfg, s, e).run.log) == 0
  {
    var r, r' := s.run, Step(cfg, s, e).run;
    StepLog(cfg, s, e);
    StepCounted(cfg, s, e);
    if r'.log != r.log {
      CountOneMore(r.log, r'.log[|r.log|], {Refused, Burned, Lost});
    }
  }

  lemma RejectionsBounded(cfg: Config, s: State, env: Env, t: nat)
    requires cfg.fixed.None? && Healing(s)
    ensures Rejections(Exec(cfg, s, env, t).run.log) <= 1
  {
    ExecHealing(cfg, s, env, t);
    RejectionsAfterFirst(Exec(cfg, s, env, t).run.log);
  }

  ghost predicate NoTrouble(r: Run) { r.status != Failed && OtherFailures(r.log) == 0 }

  lemma {:induction false} SmoothRun(cfg: Config, s: State, env: Env, t: nat, msgs: seq<Msg>)
    requires cfg.cached && cfg.fixed.None? && Smooth(env)
    requires Keeps(s.run, msgs) && Healing(s) && Counted(s.run) && NoTrouble(s.run)
    ensures NoTrouble(Exec(cfg, s, env, t).run)
  {
    hide Step, Keeps, Healing, Counted, Count;
    if t > 0 {
      ExecStep(cfg, s, env, t);
      hide Exec;
      SmoothRun(cfg, s, env, t - 1, msgs);
      ExecKeeps(cfg, s, env, t - 1, msgs);
      ExecCounted(cfg, s, env, t - 1);
      RejectionsBounded(cfg, s, env, t);
      SmoothStep(cfg, Exec(cfg, s, env, t - 1), EventAt(cfg, s, env, t - 1), msgs);
    }
  }

  /** When nothing else goes wrong, a call never ends with an error, from any cache content. */
  lemma SmoothNeverFails(cfg: Config, msgs: seq<Msg>, sh: Shared, env: Env, t: nat)
    requires cfg.cached && cfg.fixed.None? && sh.next < U64 && msgs != [] && Smooth(env)
    ensures Exec(cfg, State(Start(msgs, Passes), sh), env, t).run.status != Failed
  {
    var s := State(Start(msgs, Passes), sh);
    assert Flatten<Msg>([]) + msgs == msgs;
    assert Keeps(s.run, msgs) && Healing(s) && Counted(s.run) && NoTrouble(s.run);
    hide Exec, Smooth, Healing, Counted, Keeps;
    SmoothRun(cfg, s, env, t, msgs);
  }

  /** A lost reply: one message is executed twice and acknowledged once. */
  lemma LostReplyRepeats(m: Msg, sh: Shared, env: Env)
    requires sh.delivered == [] && sh.next < U64 && sh.cache == None
    requires forall t: nat, r: Run ::
      env(t, r) == Event(false, Built, true, if t == 0 then Lose else Accept)
    ensures var s := Exec(Config(true, None), State(Start([m], Passes), sh), env, 2);
            s.run.status == Done && s.run.sent == [[m]] && s.shared.delivered == [[m], [m]]
  {
    var cfg, s := Config(true, None), State(Start([m], Passes), sh);
    var one := Step(cfg, s, env(0, s.run));
    assert Exec(cfg, s, env, 1) == one;
    assert one.shared.delivered == [[m]] && one.shared.cache == None && one.run.left == [m];
    assert Exec(cfg, s, env, 2) == Step(cfg, one, env(1, one.run));
    assert [m][|[m]|..] == [];
  }
}
