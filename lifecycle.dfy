/**
  The agent's life around the event loop (src/interception/main.c): creating the two memory
  pools at start-up, the signal handler that asks the loop to stop, and the teardown
  `server_release_resources` performs afterwards. The pool allocator and the subsystems torn
  down are foreign code, so the model records what the agent does to them as a trace of
  events and proves the trace safe: no pool is destroyed twice or before it exists, and none
  is left behind.
*/
module Lifecycle {

  /** The two pools of the settings record: `srv_settings.pool` and `srv_settings.cpool`. */
  datatype Pool = Main | Conn

  /** One step the agent takes on a pool or a subsystem. */
  datatype Event =
    | Create(p: Pool)             // tc_create_pool succeeded
    | Destroy(p: Pool)            // tc_destroy_pool
    | ReleaseTunnelResources      // release_tunnel_resources
    | ServerOver                  // server_over
    | ReleaseObsoleteEvents       // finally_release_obsolete_events
    | EventLoopFinish             // tc_event_loop_finish
    | LogEnd                      // tc_log_end

  /** Which pools currently exist. */
  datatype Pools = Pools(main: bool, conn: bool)

  /** No pool exists: before start-up, and what a clean shutdown must return to. */
  const NoPools := Pools(false, false)

  /** The outcome of replaying a trace: a misuse of a pool, or the pools then held. */
  datatype Replayed = Fault | Held(pools: Pools)

  function Has(ps: Pools, p: Pool): bool
  {
    if p == Main then ps.main else ps.conn
  }

  function With(ps: Pools, p: Pool, b: bool): (r: Pools)
    ensures Has(r, p) == b && Has(r, if p == Main then Conn else Main) == Has(ps, if p == Main then Conn else Main)
  {
    if p == Main then ps.(main := b) else ps.(conn := b)
  }

  /**
    One event applied to the pools held: creating a pool that exists, or destroying one
    that does not (a double free, or a free before creation), is a fault.
  */
  function Apply(ps: Pools, e: Event): Replayed
  {
    match e
    case Create(p) => if Has(ps, p) then Fault else Held(With(ps, p, true))
    case Destroy(p) => if Has(ps, p) then Held(With(ps, p, false)) else Fault
    case _ => Held(ps)
  }

  /** A trace applied event by event; the first fault ends it. */
  function Replay(ps: Pools, t: seq<Event>): Replayed
    decreases |t|
  {
    if t == [] then Held(ps)
    else match Apply(ps, t[0])
      case Fault => Fault
      case Held(q) => Replay(q, t[1..])
  }

  /** Replaying `s + t` is replaying `s`, then `t` from where `s` left the pools. */
  lemma {:induction false} ReplayConcat(ps: Pools, s: seq<Event>, t: seq<Event>)
    ensures Replay(ps, s + t) == match Replay(ps, s) case Fault => Fault case Held(q) => Replay(q, t)
    decreases |s|
  {
    if s == [] {
      assert s + t == t;
    } else {
      assert (s + t)[0] == s[0];
      assert (s + t)[1..] == s[1..] + t;
      match Apply(ps, s[0])
      case Fault =>
      case Held(q) => ReplayConcat(q, s[1..], t);
    }
  }

  /** `a` and `b` both happen in `t`, `a` first. */
  predicate Precedes(t: seq<Event>, a: Event, b: Event)
  {
    exists i, j :: 0 <= i < j < |t| && t[i] == a && t[j] == b
  }

  /** No event happens twice in `t`. */
  predicate Distinct(t: seq<Event>)
  {
    forall i, j :: 0 <= i < j < |t| ==> t[i] != t[j]
  }

  /** What pool creation at start-up does, given whether each `tc_create_pool` succeeds. */
  function PoolSetup(poolOk: bool, cpoolOk: bool): seq<Event>
  {
    if !poolOk then []
    else if !cpoolOk then [Create(Main), Destroy(Main)]
    else [Create(Main), Create(Conn)]
  }

  /** `server_release_resources`: the teardown, in the order the agent performs it. */
  function Teardown(): seq<Event>
  {
    [ReleaseTunnelResources, ServerOver, ReleaseObsoleteEvents, EventLoopFinish,
     Destroy(Main), Destroy(Conn), LogEnd]
  }

  /**
    Pool creation never misuses a pool, and holds both pools exactly when both allocations
    succeed: when the second cannot be created the first is destroyed again, so a failed
    start-up keeps none (main.c:581-589).
  */
  lemma PoolSetupReplay(poolOk: bool, cpoolOk: bool)
    ensures Replay(NoPools, PoolSetup(poolOk, cpoolOk))
      == Held(if poolOk && cpoolOk then Pools(true, true) else NoPools)
  {
    var t := PoolSetup(poolOk, cpoolOk);
    if poolOk {
      var one := Pools(true, false);
      assert Apply(NoPools, t[0]) == Held(one);
      assert t[1..] == [t[1]] && [t[1]][1..] == [];
      assert Replay(NoPools, t) == Replay(one, [t[1]]);
      if cpoolOk {
        assert Apply(one, t[1]) == Held(Pools(true, true));
        assert Replay(one, [t[1]]) == Replay(Pools(true, true), []);
      } else {
        assert Apply(one, t[1]) == Held(NoPools);
      }
    }
  }

  /** The teardown, run while both pools exist, destroys each once and leaves none. */
  lemma TeardownReplay()
    ensures Replay(Pools(true, true), Teardown()) == Held(NoPools)
  {
    var t := Teardown();
    assert t == [t[0], t[1], t[2], t[3]] + [t[4], t[5], t[6]];
    ReplayConcat(Pools(true, true), [t[0], t[1], t[2], t[3]], [t[4], t[5], t[6]]);
    assert [t[0], t[1], t[2], t[3]][1..][1..][1..][1..] == [];
    assert [t[4], t[5], t[6]][1..][1..][1..] == [];
  }

  /**
    A run that gets as far as the event loop and then shuts down, or that stops at a failed
    pool creation, never misuses a pool and ends holding none.
  */
  lemma RunReleasesPools(poolOk: bool, cpoolOk: bool)
    ensures Replay(NoPools, PoolSetup(poolOk, cpoolOk) + (if poolOk && cpoolOk then Teardown() else []))
      == Held(NoPools)
  {
    var s := PoolSetup(poolOk, cpoolOk);
    var t := if poolOk && cpoolOk then Teardown() else [];
    ReplayConcat(NoPools, s, t);
    PoolSetupReplay(poolOk, cpoolOk);
    if poolOk && cpoolOk {
      TeardownReplay();
    }
  }

  /**
    The teardown order: each step happens once; tunnels are released first and the log is
    closed last; the server stops before obsolete events are released, the event loop is
    finished before the pools go, and `pool` is destroyed before `cpool`.
  */
  lemma TeardownOrder()
    ensures Distinct(Teardown())
    ensures Teardown()[0] == ReleaseTunnelResources && Teardown()[|Teardown()| - 1] == LogEnd
    ensures Precedes(Teardown(), ServerOver, ReleaseObsoleteEvents)
    ensures Precedes(Teardown(), EventLoopFinish, Destroy(Main))
    ensures Precedes(Teardown(), Destroy(Main), Destroy(Conn))
  {
    var t := Teardown();
    assert t[1] == ServerOver && t[2] == ReleaseObsoleteEvents;
    assert t[3] == EventLoopFinish && t[4] == Destroy(Main) && t[5] == Destroy(Conn);
  }

  /** The agent's process-wide state the start-up and shutdown code touch. */
  class Agent {
    /** `tc_over`: the signal number that stops the event loop; 0 while it runs. */
    var tcOver: int
    /** What the agent has done so far to its pools and subsystems. */
    var trace: seq<Event>

    /** A fresh process: no signal received, nothing created. */
    constructor ()
      ensures tcOver == 0 && trace == []
    {
      tcOver := 0;
      trace := [];
    }

    /** `signal_handler`, installed for SIGTERM and SIGINT: records the signal number. */
    method SignalHandler(sig: int)
      modifies this`tcOver
      ensures tcOver == sig
    {
      tcOver := sig;
    }

    /**
      The pool creation in `main`: `pool` first, then `cpool`; if `cpool` cannot be
      created, `pool` is destroyed before `main` returns -1. `poolOk` and `cpoolOk` are
      whether each allocation succeeds.
    */
    method CreatePools(poolOk: bool, cpoolOk: bool) returns (r: int)
      modifies this`trace
      ensures r == (if poolOk && cpoolOk then 0 else -1)
      ensures trace == old(trace) + PoolSetup(poolOk, cpoolOk)
    {
      if !poolOk {
        return -1;
      }
      trace := trace + [Create(Main)];
      if !cpoolOk {
        trace := trace + [Destroy(Main)];
        return -1;
      }
      trace := trace + [Create(Conn)];
      r := 0;
    }

    /** `server_release_resources`: the seven teardown steps, in order. */
    method ServerReleaseResources()
      modifies this`trace
      ensures trace == old(trace) + Teardown()
    {
      trace := trace + [ReleaseTunnelResources];
      trace := trace + [ServerOver];
      trace := trace + [ReleaseObsoleteEvents];
      trace := trace + [EventLoopFinish];
      trace := trace + [Destroy(Main)];
      trace := trace + [Destroy(Conn)];
      trace := trace + [LogEnd];
    }
  }
}
