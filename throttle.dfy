/**
 * The rate limiter `throttle(func, limit)`. The closure keeps one
 * `inThrottle` flag. A call made while it is unset runs `func` with that
 * call's arguments; only when `func` returns normally is the flag set and
 * the timer started. A call made while the flag is set is dropped. The timer
 * that clears the flag `limit` milliseconds later is the `Expire` event.
 */
module Throttle {

  /**
   * What reaches the throttled closure: a call with its arguments and
   * whether `func` would throw on it, or the timer firing.
   */
  datatype Event<A> = Invoke(args: A, throws: bool) | Expire

  /** The closure's flag, and the arguments of every call that ran `func`, in order. */
  datatype State<A> = State(inThrottle: bool, ran: seq<A>)

  /** One event applied to the closure. */
  function Next<A>(s: State<A>, e: Event<A>): (r: State<A>)
    // the history of runs is append-only, at most one run per event
    ensures |s.ran| <= |r.ran| <= |s.ran| + 1 && r.ran[..|s.ran|] == s.ran
    // a run happens only for a call made while the flag is unset, with that call's arguments
    ensures |r.ran| > |s.ran| <==> e.Invoke? && !s.inThrottle
    ensures |r.ran| > |s.ran| ==> r.ran[|s.ran|] == e.args
    // the flag is set by a run that returned normally, kept by a dropped call, cleared by the timer
    ensures r.inThrottle <==> e.Invoke? && (s.inThrottle || !e.throws)
  {
    match e
    case Invoke(args, throws) =>
      if s.inThrottle then s
      else State(!throws, s.ran + [args])
    case Expire => s.(inThrottle := false)
  }

  /** The closure after the events `events`, in order. */
  function Replay<A>(s: State<A>, events: seq<Event<A>>): (r: State<A>)
    ensures |s.ran| <= |r.ran| && r.ran[..|s.ran|] == s.ran
    decreases |events|
  {
    if events == [] then s else Replay(Next(s, events[0]), events[1..])
  }

  /** The events are all calls: no timer fires among them. */
  predicate OnlyCalls<A>(events: seq<Event<A>>) {
    forall j | 0 <= j < |events| :: events[j].Invoke?
  }

  /** The arguments of a run of calls, in order. */
  function CallArgs<A>(events: seq<Event<A>>): seq<A>
    requires OnlyCalls(events)
  {
    seq(|events|, j requires 0 <= j < |events| && OnlyCalls(events) => events[j].args)
  }

  /** The number of timer expiries among `events`. */
  function Expiries<A>(events: seq<Event<A>>): nat
    decreases |events|
  {
    if events == [] then 0 else (if events[0].Expire? then 1 else 0) + Expiries(events[1..])
  }

  /** The number of calls among `events` on which `func` throws. */
  function Throws<A>(events: seq<Event<A>>): nat
    decreases |events|
  {
    if events == [] then 0 else (if events[0].Invoke? && events[0].throws then 1 else 0) + Throws(events[1..])
  }

  /** While the flag is set, any number of calls runs nothing and changes nothing. */
  lemma {:induction false} CallsDroppedDuringCooldown<A>(s: State<A>, events: seq<Event<A>>)
    requires s.inThrottle && OnlyCalls(events)
    ensures Replay(s, events) == s
    decreases |events|
  {
    if events != [] {
      CallsDroppedDuringCooldown(Next(s, events[0]), events[1..]);
    }
  }

  /**
   * Calls within one cooldown window, starting with the flag unset, run
   * `func` for every call up to and including the first one on which it
   * returns normally (call `k`), and for none after it; the flag ends set.
   * When `func` returns normally on the first call, that call alone runs.
   */
  lemma {:induction false} WindowRunsUntilFirstReturn<A>(s: State<A>, events: seq<Event<A>>, k: nat)
    requires !s.inThrottle && OnlyCalls(events)
    requires k < |events| && !events[k].throws
    requires forall j | 0 <= j < k :: events[j].throws
    ensures Replay(s, events) == State(true, s.ran + CallArgs(events[..k + 1]))
    decreases k
  {
    var next := Next(s, events[0]);
    if k == 0 {
      CallsDroppedDuringCooldown(next, events[1..]);
      assert CallArgs(events[..1]) == [events[0].args];
    } else {
      WindowRunsUntilFirstReturn(next, events[1..], k - 1);
      assert CallArgs(events[..k + 1]) == [events[0].args] + CallArgs(events[1..][..k]);
    }
  }

  /**
   * Calls on which `func` keeps throwing never set the flag: every one of
   * them runs `func`.
   */
  lemma {:induction false} ThrowingCallsAllRun<A>(s: State<A>, events: seq<Event<A>>)
    requires !s.inThrottle && OnlyCalls(events)
    requires forall j | 0 <= j < |events| :: events[j].throws
    ensures Replay(s, events) == State(false, s.ran + CallArgs(events))
    decreases |events|
  {
    if events != [] {
      ThrowingCallsAllRun(Next(s, events[0]), events[1..]);
      assert CallArgs(events) == [events[0].args] + CallArgs(events[1..]);
    }
  }

  /**
   * Rate limit: over any events, `func` runs at most once per timer expiry,
   * once per call on which it throws, and once more when the flag starts
   * unset.
   */
  lemma {:induction false} RunsBoundedByExpiries<A>(s: State<A>, events: seq<Event<A>>)
    ensures |Replay(s, events).ran| <= |s.ran| + Expiries(events) + Throws(events) + (if s.inThrottle then 0 else 1)
    decreases |events|
  {
    if events != [] {
      RunsBoundedByExpiries(Next(s, events[0]), events[1..]);
    }
  }

  /** The closure returned by `throttle`. */
  class Throttled<A> {
    var inThrottle: bool
    /** The arguments `func` was applied to, call by call. */
    var ran: seq<A>

    ghost function Current(): State<A>
      reads this
    {
      State(inThrottle, ran)
    }

    /** `throttle(func, limit)`: the flag starts unset and nothing has run. */
    constructor ()
      ensures Current() == State(false, [])
    {
      inThrottle := false;
      ran := [];
    }

    /**
     * A call of the closure; `throws` is whether `func` throws on `args`,
     * and `executed` tells whether `func` ran.
     */
    method Call(args: A, throws: bool) returns (executed: bool)
      modifies this
      ensures executed == !old(inThrottle)
      ensures inThrottle == (old(inThrottle) || !throws)
      ensures ran == if executed then old(ran) + [args] else old(ran)
      ensures Current() == Next(old(Current()), Invoke(args, throws))
    {
      executed := !inThrottle;
      if !inThrottle {
        ran := ran + [args];
        if !throws {
          inThrottle := true;
        }
      }
    }

    /** The cooldown timer fires and clears the flag. */
    method Expire()
      modifies this
      ensures !inThrottle && ran == old(ran)
      ensures Current() == Next(old(Current()), Event.Expire)
    {
      inThrottle := false;
    }
  }
}
