/**
 The client that sends batches, as it updates its account cache and drives the node
 (modules/base_client.go, `SendBatch`; modules/account.go; utils/cache/cache.go). `Client.SendBatch`
 is the source's loop with its two jumps; its contract ties it, pass for pass, to the machine of module
 Sender, whose theorems are about every run.
 */
module Client {
  import opened Arith
  import opened Batches
  import opened Sender
  import Bank
  import Coins

  /** An account address in text form. */
  type Address = string

  /** The chain's view of every address, and every broadcast so far. */
  class Node {
    var next: map<Address, nat>
    var delivered: map<Address, seq<seq<Msg>>>
    var log: seq<Attempt>

    constructor ()
      ensures next == map[] && delivered == map[] && log == []
    {
      next, delivered, log := map[], map[], [];
    }

    /** The number the chain expects next; an address it has not seen starts at zero. */
    function NextOf(address: Address): nat
      reads this
    {
      if address in next then next[address] else 0
    }

    function DeliveredBy(address: Address): seq<seq<Msg>>
      reads this
    {
      if address in delivered then delivered[address] else []
    }

    /** Nothing but the chain's view of this address differs. */
    twostate predicate OnlyTouches(address: Address)
      reads this
    {
      next - {address} == old(next) - {address} && delivered - {address} == old(delivered) - {address}
    }

    /** Broadcasts a transaction and waits for the reply; false is an error reply, or none. */
    method BroadcastTx(address: Address, number: nat, mss: seq<Msg>, v: Verdict) returns (ok: bool)
      modifies this
      ensures OnlyTouches(address)
      ensures var o := Judge(number, old(NextOf(address)), v);
              && ok == (o == Acked)
              && log == old(log) + [Attempt(number, old(NextOf(address)), mss, o)]
              && NextOf(address) == (if o in {Acked, Lost, Burned} then Succ(old(NextOf(address))) else old(NextOf(address)))
              && DeliveredBy(address) == old(DeliveredBy(address)) + (if o in {Acked, Lost} then [mss] else [])
    {
      var expected := NextOf(address);
      var o := Judge(number, expected, v);
      log := log + [Attempt(number, expected, mss, o)];
      if o == Acked || o == Lost { delivered := delivered[address := DeliveredBy(address) + [mss]]; }
      if o == Acked || o == Lost || o == Burned { next := next[address := Succ(expected)]; }
      ok := o == Acked;
    }
  }

  /** The cache of the last number used by each address; entries may vanish before any lookup. */
  class AccountCache {
    const enabled: bool
    var entries: map<Address, nat>

    constructor (enabled: bool)
      ensures this.enabled == enabled && entries == map[]
    {
      this.enabled, entries := enabled, map[];
    }

    ghost predicate Valid()
      reads this
    {
      !enabled ==> entries == map[]
    }

    function Lookup(address: Address): (r: Option<nat>)
      reads this
      ensures r.Some? <==> address in entries
    {
      if address in entries then Some(entries[address]) else None
    }

    /** Nothing but the entry of this address differs. */
    twostate predicate OnlyTouches(address: Address)
      reads this
    {
      entries - {address} == old(entries) - {address}
    }

    method SaveAccount(address: Address, number: nat)
      requires Valid()
      modifies this
      ensures Valid() && OnlyTouches(address)
      ensures Lookup(address) == if enabled then Some(number) else None
    {
      if enabled { entries := entries[address := number]; }
    }

    method RemoveCache(address: Address) returns (removed: bool)
      requires Valid()
      modifies this
      ensures Valid() && OnlyTouches(address)
      ensures Lookup(address) == None && removed == old(Lookup(address)).Some?
    {
      removed := address in entries;
      entries := entries - {address};
    }

    /** The next number for an address, kept for the call after this one. */
    method QueryAndRefreshAccount(address: Address, onChain: nat, evicted: bool) returns (number: nat)
      requires Valid()
      modifies this
      ensures Valid() && OnlyTouches(address)
      ensures number == if enabled && !evicted && old(Lookup(address)).Some? then Succ(old(Lookup(address)).value) else onChain
      ensures Lookup(address) == if enabled then Some(number) else None
    {
      if evicted { entries := entries - {address}; }
      if address in entries {
        number := Succ(entries[address]);
      } else {
        number := onChain;
      }
      SaveAccount(address, number);
    }
  }

  /** A run driven by a fixed list of events. */
  function Fixed(events: nat -> Event): Env { (t: nat, r: Run) => events(t) }

  /** Events that depend on what the call did so far are no more general: each run is the run of its own events. */
  lemma {:induction false} EveryRunIsFixed(cfg: Config, s: State, env: Env, t: nat)
    ensures Exec(cfg, s, Fixed((n: nat) => EventAt(cfg, s, env, n)), t) == Exec(cfg, s, env, t)
  {
    hide Step;
    if t > 0 { EveryRunIsFixed(cfg, s, env, t - 1); }
  }

  class BaseClient {
    const accounts: AccountCache
    const node: Node

    constructor (accounts: AccountCache, node: Node)
      ensures this.accounts == accounts && this.node == node
    {
      this.accounts, this.node := accounts, node;
    }

    ghost predicate Valid()
      reads this, accounts
    {
      accounts.Valid()
    }

    /** What a call for this address shares with others. */
    function SharedAt(address: Address): Shared
      reads accounts, node
    {
      Shared(accounts.Lookup(address), node.NextOf(address), node.DeliveredBy(address))
    }

    function ConfigFor(fixed: Option<nat>): Config { Config(accounts.enabled, fixed) }

    /** Prepares and signs one transaction; `None` is an error, a panic is reported apart. */
    method BuildTx(address: Address, fixed: Option<nat>, e: Event) returns (number: Option<nat>, panics: bool)
      requires Valid()
      modifies accounts
      ensures Valid() && accounts.OnlyTouches(address)
      ensures number.Some? <==> e.build == Built
      ensures panics <==> e.build == QueryPanics || e.build == BuildPanics
      ensures e.build == NotPrepared || e.build == QueryPanics ==> SharedAt(address) == old(SharedAt(address))
      ensures e.build != NotPrepared && e.build != QueryPanics ==>
        var taken := TakeNumber(ConfigFor(fixed), old(SharedAt(address)), e.evicted);
        && SharedAt(address) == old(SharedAt(address)).(cache := taken.cache)
        && (number.Some? ==> number.value == taken.number)
    {
      number, panics := None, e.build == QueryPanics;
      if e.build == NotPrepared || e.build == QueryPanics { return; }
      var n;
      if fixed.Some? {
        n := fixed.value;
      } else {
        n := accounts.QueryAndRefreshAccount(address, node.NextOf(address), e.evicted);
      }
      if e.build == Built { number := Some(n); }
      panics := e.build == BuildPanics;
    }

    /**
     One pass: build, check the size, broadcast, forgetting the cached number where the loop does. For a
     call r whose next piece is mss, the machine's step is what the reply tells the loop to do.
     */
    method TryOnce(address: Address, fixed: Option<nat>, mss: seq<Msg>, e: Event, ghost before: seq<Attempt>, ghost r: Run)
        returns (reply: Reply)
      requires Valid() && r.status == Running && node.log == before + r.log && Segment(r) == mss
      modifies accounts, node
      ensures Valid() && accounts.OnlyTouches(address) && node.OnlyTouches(address) && before <= node.log
      ensures Step(ConfigFor(fixed), State(r, old(SharedAt(address))), e)
           == State(After(r.(log := node.log[|before|..]), accounts.enabled, mss, reply), SharedAt(address))
    {
      assert node.log[|before|..] == r.log;
      var number, panics := BuildTx(address, fixed, e);
      if panics { return BuildPanicked; }
      if number.None? { return BuildFailed; }
      if !e.fits {
        var _ := accounts.RemoveCache(address);
        return TooLarge;
      }
      var ok := node.BroadcastTx(address, number.value, mss, e.verdict);
      assert node.log[|before|..] == r.log + [node.log[|node.log| - 1]];
      if ok { return Sent; }
      if accounts.enabled {
        var _ := accounts.RemoveCache(address);
      }
      return NotSent;
    }

    /** The call started as `start` is at r after this many passes. */
    ghost predicate At(job: Job, pass: nat, r: Run)
      reads accounts, node
    {
      && node.log == job.before + r.log
      && State(r, SharedAt(job.address)) == Exec(ConfigFor(job.fixed), job.start, Fixed(job.events), pass)
    }

    /** Sends one piece, again and again while the broadcast fails and tries are left. */
    method SendPiece(job: Job, mss: seq<Msg>, tries: nat, pass: nat, ghost r: Run)
        returns (reply: Reply, tries': nat, pass': nat, ghost r': Run)
      requires Valid() && At(job, pass, r)
      requires r.status == Running && r.tries == tries && Segment(r) == mss
      modifies accounts, node
      ensures Valid() && accounts.OnlyTouches(job.address) && node.OnlyTouches(job.address)
      ensures At(job, pass', r') && r'.tries == tries' && (reply == NotSent ==> r'.status == Failed)
      ensures exists tried: nat :: r' == After(r.(log := r'.log, tries := tried), accounts.enabled, mss, reply)
    {
      hide Exec, Step, SharedAt, ConfigFor;
      tries', pass', r' := tries, pass, r;
      while true
        invariant Valid() && accounts.OnlyTouches(job.address) && node.OnlyTouches(job.address)
        invariant At(job, pass', r') && r' == r.(log := r'.log, tries := tries')
        decreases TRY_THRESHOLD - tries'
      {
        reply := TryOnce(job.address, job.fixed, mss, job.events(pass'), job.before, r');
        NextPass(ConfigFor(job.fixed), job.start, job.events, pass');
        r' := After(r'.(log := node.log[|job.before|..]), accounts.enabled, mss, reply);
        pass' := pass' + 1;
        if reply != NotSent || !accounts.enabled { return; }
        tries' := tries' + 1;
        if tries' >= TRY_THRESHOLD { return; }
      }
    }

    /** The loop over the pieces, cut again at half the size whenever one is too large. */
    method SendPieces(job: Job, msgs: seq<Msg>) returns (rs: seq<seq<Msg>>, end: Status, ghost pass': nat, ghost r: Run)
      requires Valid() && At(job, 0, Run(msgs, MAX_BATCH, 0, [], [], Running)) && msgs != []
      modifies accounts, node
      ensures Valid() && accounts.OnlyTouches(job.address) && node.OnlyTouches(job.address)
      ensures At(job, pass', r) && r.sent == rs && r.status == end && end != Running
    {
      hide At, Segments, Rest;
      var left, batch: nat, tries, pass := msgs, MAX_BATCH, 0, 0;
      rs, r := [], Run(msgs, MAX_BATCH, 0, [], [], Running);
      label resize:
      while true
        invariant Valid() && accounts.OnlyTouches(job.address) && node.OnlyTouches(job.address) && At(job, pass, r) && left != []
        invariant r == Run(left, batch, tries, rs, r.log, if batch == 0 then Panicked else Running)
        decreases batch
      {
        var segments := SubArray(batch, left);
        if segments.None? {
          return rs, Panicked, pass, r;
        }
        RestAll(batch, left);
        for i := 0 to |segments.value|
          invariant Valid() && accounts.OnlyTouches(job.address) && node.OnlyTouches(job.address) && At(job, pass, r)
          invariant r == Run(Rest(batch, left, i), batch, tries, rs, r.log, if i == |segments.value| then Done else Running)
        {
          RestPiece(batch, left, i);
          var mss, reply: Reply := segments.value[i], NotSent;
          reply, tries, pass, r := SendPiece(job, mss, tries, pass, r);
          match reply {
            case Sent => rs := rs + [mss];
            case TooLarge =>
              left := left[i * batch..];
              batch := batch / 2;
              continue resize;
            case BuildPanicked => return rs, Panicked, pass, r;
            case _ => return rs, Failed, pass, r;
          }
        }
        return rs, Done, pass, r;
      }
    }

    /**
     Sends the messages in batches, on a client that may have sent before. Whatever the events, the
     results, the way the call ends, the cache entry, the chain and the broadcasts are those of the
     machine's run, and nothing is touched of any other address. The error is nil unless the call ended
     as Failed.
     */
    method SendBatch(msgs: seq<Msg>, basic: Msg -> Validity, address: Address, fixed: Option<nat>, events: nat -> Event)
        returns (rs: seq<seq<Msg>>, end: Status)
      requires Valid()
      modifies accounts, node
      ensures Valid() && accounts.OnlyTouches(address) && node.OnlyTouches(address)
      ensures var s := Exec(ConfigFor(fixed), State(Start(msgs, Validated(msgs, basic)), old(SharedAt(address))), Fixed(events), |msgs| + 10);
              rs == s.run.sent && end == s.run.status && node.log == old(node.log) + s.run.log && SharedAt(address) == s.shared
      ensures end != Running
    {
      rs, end := [], Failed;
      var check := ValidateBasics(msgs, basic);
      var job := Job(address, fixed, events, State(Start(msgs, check), SharedAt(address)), node.log);
      ghost var pass, r := 0, Start(msgs, check);
      assert At(job, pass, r);
      hide Exec;
      if msgs != [] {
        if check == Panics {
          end := Panicked;
        } else if check == Passes {
          rs, end, pass, r := SendPieces(job, msgs);
        }
      }
      RunOver(ConfigFor(fixed), msgs, check, job.start.shared, events, pass);
    }
  }

  /** The loop that validates the messages: it ends at the first that does not pass. */
  method ValidateBasics(msgs: seq<Msg>, basic: Msg -> Validity) returns (v: Validity)
    ensures v == Validated(msgs, basic)
  {
    assert msgs[0..] == msgs;
    for i := 0 to |msgs|
      invariant Validated(msgs[i..], basic) == Validated(msgs, basic)
    {
      assert msgs[i..][0] == msgs[i] && msgs[i..][1..] == msgs[i + 1..];
      if basic(msgs[i]) != Passes { return basic(msgs[i]); }
    }
    return Passes;
  }

  /** How a multi-send validates, as the sender tells cases apart. */
  function MultiSendBasic(isAddress: string -> bool, inputs: seq<Bank.Entry>, outputs: seq<Bank.Entry>): Validity {
    match Bank.MultiSendVerdict(isAddress, inputs, outputs)
    case Accepted => Passes
    case Rejected => Refuses
    case Panicked => Panics
  }

  /** A multi-send of five of one denom for five of another: a nil error, nothing sent, and no pass was made. */
  lemma HiddenMultiSendPanic(cfg: Config, m: Msg, isAddress: string -> bool, address: string, sh: Shared, env: Env, t: nat)
    requires isAddress(address)
    ensures var i, o := Bank.Entry(address, [Coins.Coin("aaa", 5)]), Bank.Entry(address, [Coins.Coin("bbb", 5)]);
            var basic := (x: Msg) => MultiSendBasic(isAddress, [i], [o]);
            var r := Exec(cfg, State(Start([m], Validated([m], basic)), sh), env, t).run;
            r.status == Panicked && r.sent == [] && r.log == []
  {
    var i, o := Bank.Entry(address, [Coins.Coin("aaa", 5)]), Bank.Entry(address, [Coins.Coin("bbb", 5)]);
    hide Bank.MultiSendVerdict;
    Bank.UnbalancedCanPanic(isAddress, address);
    ExecStops(cfg, State(Start([m], Panics), sh), env, 0, t);
  }

  /** What a call was given, the state it started from, and the broadcasts before it. */
  datatype Job = Job(address: Address, fixed: Option<nat>, events: nat -> Event, start: State, before: seq<Attempt>)

  /** How one pass ended, as the loop of `SendBatch` tells cases apart. */
  datatype Reply = Sent | NotSent | TooLarge | BuildFailed | BuildPanicked

  /** What the loop does with a reply: go on, retry, resize or return. */
  function After(r: Run, cached: bool, mss: seq<Msg>, reply: Reply): Run
    requires |mss| <= |r.left|
  {
    match reply
    case Sent => r.(left := r.left[|mss|..], sent := r.sent + [mss], status := if |mss| == |r.left| then Done else Running)
    case NotSent =>
      if cached then r.(tries := r.tries + 1, status := if r.tries + 1 >= TRY_THRESHOLD then Failed else Running)
      else r.(status := Failed)
    case TooLarge => r.(batch := r.batch / 2, status := if r.batch / 2 == 0 then Panicked else Running)
    case BuildFailed => r.(status := Failed)
    case BuildPanicked => r.(status := Panicked)
  }

  /** What the first i pieces leave over. */
  function Rest(batch: nat, left: seq<Msg>, i: nat): seq<Msg> {
    if i * batch <= |left| then left[i * batch..] else []
  }

  lemma RestAll(batch: nat, left: seq<Msg>)
    ensures Rest(batch, left, 0) == left
  {
  }

  /** Piece i is the next piece of what is left, and sending it leaves what the first i + 1 pieces leave. */
  lemma RestPiece(batch: nat, left: seq<Msg>, i: nat)
    requires batch > 0 && left != [] && i < |Segments(batch, left)|
    ensures var rest := Rest(batch, left, i); var piece := Segments(batch, left)[i];
            && i * batch <= |left| && rest == left[i * batch..] && rest != []
            && piece == (if |rest| <= batch then rest else rest[..batch])
            && (i + 1 == |Segments(batch, left)| <==> |piece| == |rest|)
            && Rest(batch, left, i + 1) == rest[|piece|..]
  {
    hide Segments;
    SegmentsFrom(batch, left, i);
    SegmentsCover(batch, left);
    var segs, at := Segments(batch, left), i * batch;
    var rest := left[at..];
    assert segs[i] == segs[i..][0] && segs[i] != [];
    FirstOfSegments(batch, rest);
    NextMultiple(i, batch);
    assert |rest| > batch ==> rest[batch..] == left[at + batch..];
  }

  lemma NextMultiple(i: nat, n: nat)
    ensures (i + 1) * n == i * n + n
  {
  }

  lemma FirstOfSegments(n: nat, s: seq<Msg>)
    requires n > 0
    ensures Segments(n, s)[0] == (if |s| <= n then s else s[..n])
    ensures |Segments(n, s)| == 1 <==> |s| <= n
  {
  }

  lemma NextPass(cfg: Config, start: State, events: nat -> Event, t: nat)
    ensures Exec(cfg, start, Fixed(events), t + 1) == Step(cfg, Exec(cfg, start, Fixed(events), t), events(t))
  {
  }

  lemma RunOver(cfg: Config, msgs: seq<Msg>, check: Validity, sh: Shared, events: nat -> Event, t: nat)
    requires Exec(cfg, State(Start(msgs, check), sh), Fixed(events), t).run.status != Running
    ensures Exec(cfg, State(Start(msgs, check), sh), Fixed(events), |msgs| + 10)
         == Exec(cfg, State(Start(msgs, check), sh), Fixed(events), t)
  {
    hide Exec, Step;
    var s, n := State(Start(msgs, check), sh), |msgs| + 10;
    if t <= n {
      ExecStops(cfg, s, Fixed(events), t, n);
    } else {
      RunStops(cfg, msgs, check, sh, Fixed(events), n);
      ExecStops(cfg, s, Fixed(events), n, t);
    }
  }
}
