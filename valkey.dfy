/**
 * The Valkey remote cache wrapper: a circuit breaker over a key-value
 * server. It counts hits, misses, skips, errors and sets, and once it has
 * seen MaximumConsecutiveFailures failures in a row it stops contacting the
 * server for good.
 */
module ValkeyCache {
  import opened Common

  type Bytes = seq<bv8>

  const MaximumConsecutiveFailures: nat := 10

  /** What one call to the server did: returned a value (possibly empty or absent), or raised. */
  datatype Reply = Returned(response: Option<Bytes>) | Raised

  /** The wrapper's counters. */
  datatype Counters = Counters(
    consecutiveFailures: nat, hits: nat, misses: nat, skips: nat, errors: nat, sets: nat)
  {
    predicate Disabled() { consecutiveFailures >= MaximumConsecutiveFailures }

    /** The sum of the five event counters. */
    function Events(): nat { hits + misses + skips + errors + sets }
  }

  /** The counters right after construction, with or without a server. */
  function InitialCounters(hasServer: bool): (c: Counters)
    ensures c.Disabled() <==> !hasServer
    ensures c.Events() == 0
    ensures c.consecutiveFailures == if hasServer then 0 else MaximumConsecutiveFailures
  {
    Counters(if hasServer then 0 else MaximumConsecutiveFailures, 0, 0, 0, 0, 0)
  }

  /** A Python truth test on a response: `None` and `b""` are false. */
  predicate Truthy(response: Option<Bytes>)
  {
    response.Some? && |response.value| > 0
  }

  /**
   * One `get`: the new counters and the returned value, given what the
   * server would reply if it were asked.
   */
  function GetStep(c: Counters, reply: Reply): (r: (Counters, Option<Bytes>))
    // a disabled cache skips without consulting the reply
    ensures c.Disabled() ==> r == (c.(skips := c.skips + 1), None)
    ensures !c.Disabled() && reply.Returned? && Truthy(reply.response) ==>
      r == (c.(consecutiveFailures := 0, hits := c.hits + 1), reply.response)
    ensures !c.Disabled() && reply.Returned? && !Truthy(reply.response) ==>
      r == (c.(consecutiveFailures := 0, misses := c.misses + 1), None)
    ensures !c.Disabled() && reply.Raised? ==>
      r == (c.(consecutiveFailures := c.consecutiveFailures + 1, errors := c.errors + 1), None)
  {
    if c.Disabled() then
      (c.(skips := c.skips + 1), None)
    else match reply
      case Raised =>
        (c.(consecutiveFailures := c.consecutiveFailures + 1, errors := c.errors + 1), None)
      case Returned(response) =>
        if Truthy(response) then (c.(consecutiveFailures := 0, hits := c.hits + 1), response)
        else (c.(consecutiveFailures := 0, misses := c.misses + 1), None)
  }

  /** One `set`, given whether the server call would raise. */
  function SetStep(c: Counters, raises: bool): (r: Counters)
    ensures c.Disabled() ==> r == c.(skips := c.skips + 1)
    ensures !c.Disabled() && !raises ==> r == c.(sets := c.sets + 1)
    ensures !c.Disabled() && raises ==>
      r == c.(consecutiveFailures := MaximumConsecutiveFailures, errors := c.errors + 1)
  {
    if !c.Disabled() then
      if raises then c.(consecutiveFailures := MaximumConsecutiveFailures, errors := c.errors + 1)
      else c.(sets := c.sets + 1)
    else c.(skips := c.skips + 1)
  }

  /** A call to the cache: a `get` with the server's reply, or a `set` with whether it raises. */
  datatype Call = Get(key: Bytes, reply: Reply) | Set(key: Bytes, value: Bytes, raises: bool)

  function Step(c: Counters, call: Call): Counters
  {
    match call
    case Get(_, reply) => GetStep(c, reply).0
    case Set(_, _, raises) => SetStep(c, raises)
  }

  /** The counters after a sequence of calls. */
  function Run(c: Counters, calls: seq<Call>): Counters
    decreases |calls|
  {
    if calls == [] then c else Run(Step(c, calls[0]), calls[1..])
  }

  /**
   * Every `get` and every `set` increments exactly one of the five counters,
   * by one: no counter decreases and their sum grows by one.
   */
  lemma StepCountsOneEvent(c: Counters, call: Call)
    ensures var c' := Step(c, call);
      c'.hits >= c.hits && c'.misses >= c.misses && c'.skips >= c.skips &&
      c'.errors >= c.errors && c'.sets >= c.sets
    ensures Step(c, call).Events() == c.Events() + 1
  {
  }

  /** A disabled cache stays disabled, and asks the server nothing: the reply does not matter. */
  lemma DisabledIsPermanent(c: Counters, call: Call, other: Reply)
    requires c.Disabled()
    ensures Step(c, call).Disabled()
    ensures call.Get? ==> GetStep(c, call.reply) == GetStep(c, other)
  {
  }

  /** Over any run, the events counted equal the calls made, and a disabled cache only skips. */
  lemma {:induction false} RunCountsCalls(c: Counters, calls: seq<Call>)
    ensures Run(c, calls).Events() == c.Events() + |calls|
    ensures c.Disabled() ==> Run(c, calls) == c.(skips := c.skips + |calls|)
    decreases |calls|
  {
    if calls != [] {
      StepCountsOneEvent(c, calls[0]);
      RunCountsCalls(Step(c, calls[0]), calls[1..]);
    }
  }

  /** Ten failed `get`s in a row from an enabled cache disable it. */
  lemma {:induction false} RepeatedGetFailuresDisable(c: Counters, n: nat)
    requires c.consecutiveFailures + n >= MaximumConsecutiveFailures
    requires n > 0
    ensures Run(c, seq(n, _ => Get([], Raised))).Disabled()
    decreases n
  {
    var calls := seq(n, _ => Get([], Raised));
    var c' := Step(c, calls[0]);
    assert calls[1..] == seq(n - 1, _ => Get([], Raised));
    assert Run(c, calls) == Run(c', calls[1..]);
    if c.Disabled() {
      RunCountsCalls(c', calls[1..]);
    } else if n == 1 {
      assert calls[1..] == [];
    } else {
      RepeatedGetFailuresDisable(c', n - 1);
    }
  }

  /** The cache object; the server is modelled only by whether it exists. */
  class Cache {
    const hasServer: bool
    var consecutiveFailures: nat
    var hits: nat
    var misses: nat
    var skips: nat
    var errors: nat
    var sets: nat

    function State(): Counters
      reads this
    {
      Counters(consecutiveFailures, hits, misses, skips, errors, sets)
    }

    /** Without a server the cache can never be enabled. */
    ghost predicate Valid()
      reads this
    {
      !hasServer ==> State().Disabled()
    }

    constructor (hasServer: bool)
      ensures Valid() && this.hasServer == hasServer
      ensures State() == InitialCounters(hasServer)
    {
      this.hasServer := hasServer;
      consecutiveFailures := if hasServer then 0 else MaximumConsecutiveFailures;
      hits, misses, skips, errors, sets := 0, 0, 0, 0, 0;
    }

    /** `get`: `reply` is what the server would answer; it is consulted only while enabled. */
    method Get(key: Bytes, reply: Reply) returns (r: Option<Bytes>)
      requires Valid()
      modifies this
      ensures Valid()
      ensures (State(), r) == GetStep(old(State()), reply)
    {
      if consecutiveFailures >= MaximumConsecutiveFailures {
        skips := skips + 1;
        return None;
      }
      match reply {
        case Raised =>
          consecutiveFailures := consecutiveFailures + 1;
          errors := errors + 1;
          return None;
        case Returned(response) =>
          consecutiveFailures := 0;
          if Truthy(response) {
            hits := hits + 1;
            return response;
          }
      }
      misses := misses + 1;
      return None;
    }

    /** `set`: `raises` says whether the server call would raise; consulted only while enabled. */
    method Set(key: Bytes, value: Bytes, raises: bool)
      requires Valid()
      modifies this
      ensures Valid()
      ensures State() == SetStep(old(State()), raises)
    {
      if consecutiveFailures < MaximumConsecutiveFailures {
        if raises {
          consecutiveFailures := MaximumConsecutiveFailures;
          errors := errors + 1;
        } else {
          sets := sets + 1;
        }
      } else {
        skips := skips + 1;
      }
    }
  }
}
