/**
 * The serialization gate, `REQUEST_MUTEX`, seen through the events a
 * servlet produces: taking the gate, invoking the application handler and
 * releasing the gate.
 */
module Gate {
  import opened Common

  datatype GateEvent = Acquire | Invoke | Release

  /**
   * The gate after one event, from state `held`; None when the event is out
   * of order. When `serialized`, the handler may only run while the gate is held.
   */
  function Step(serialized: bool, held: bool, e: GateEvent): Option<bool> {
    match e
    case Acquire => if held then None else Some(true)
    case Release => if held then Some(false) else None
    case Invoke => if serialized && !held then None else Some(held)
  }

  /** The gate after a whole log of events, or None when some event is out of order. */
  function Run(serialized: bool, held: bool, log: seq<GateEvent>): Option<bool>
    decreases |log|
  {
    if log == [] then Some(held)
    else match Step(serialized, held, log[0])
      case None => None
      case Some(next) => Run(serialized, next, log[1..])
  }

  lemma {:induction false} RunAppend(serialized: bool, held: bool, a: seq<GateEvent>, b: seq<GateEvent>)
    ensures Run(serialized, held, a + b) ==
            match Run(serialized, held, a)
            case None => None
            case Some(h) => Run(serialized, h, b)
    decreases |a|
  {
    if a == [] {
      assert a + b == b;
    } else {
      assert (a + b)[1..] == a[1..] + b;
      match Step(serialized, held, a[0])
      case None =>
      case Some(next) => RunAppend(serialized, next, a[1..], b);
    }
  }

  /**
   * The events of one request: none for a static hit; otherwise the handler
   * invocation, bracketed by taking and releasing the gate when serialized.
   */
  function RequestEvents(serialized: bool, staticHit: bool): (events: seq<GateEvent>)
    ensures staticHit ==> events == []
    ensures !serialized ==> Acquire !in events && Release !in events
    ensures !staticHit ==> Invoke in events
  {
    if staticHit then []
    else if serialized then [Acquire, Invoke, Release]
    else [Invoke]
  }

  /** The events of a serialized miss, appended one at a time. */
  lemma {:induction false} SerializedMissEvents(log: seq<GateEvent>)
    ensures log + [Acquire] + [Invoke] + [Release] == log + RequestEvents(true, false)
  {
    assert RequestEvents(true, false) == [Acquire] + [Invoke] + [Release];
  }

  /** A request that starts with the gate free leaves it free. */
  lemma {:induction false} RequestLeavesGateFree(serialized: bool, staticHit: bool, log: seq<GateEvent>)
    requires Run(serialized, false, log) == Some(false)
    ensures Run(serialized, false, log + RequestEvents(serialized, staticHit)) == Some(false)
  {
    var events := RequestEvents(serialized, staticHit);
    RunAppend(serialized, false, log, events);
    if !staticHit && serialized {
      assert events[1..] == [Invoke, Release] && events[2..] == [Release];
      assert Run(true, true, events[2..]) == Some(false) by {
        assert events[2..][1..] == [];
      }
      assert Run(true, true, events[1..]) == Some(false);
    }
  }

  /** The log of a sequence of requests, `hits[i]` telling whether request i was a static hit. */
  function Requests(serialized: bool, hits: seq<bool>): seq<GateEvent>
    decreases |hits|
  {
    if hits == [] then []
    else Requests(serialized, hits[..|hits| - 1]) + RequestEvents(serialized, hits[|hits| - 1])
  }

  /** Any sequence of requests replays cleanly and ends with the gate free. */
  lemma {:induction false} RequestsLeaveGateFree(serialized: bool, hits: seq<bool>)
    ensures Run(serialized, false, Requests(serialized, hits)) == Some(false)
    decreases |hits|
  {
    if hits != [] {
      RequestsLeaveGateFree(serialized, hits[..|hits| - 1]);
      RequestLeavesGateFree(serialized, hits[|hits| - 1], Requests(serialized, hits[..|hits| - 1]));
    }
  }

  /** In serialized mode every handler invocation of a clean log happens while the gate is held. */
  lemma {:induction false} InvocationsHoldGate(log: seq<GateEvent>, i: nat)
    requires Run(true, false, log).Some?
    requires i < |log| && log[i] == Invoke
    ensures Run(true, false, log[..i]) == Some(true)
  {
    assert log == log[..i] + log[i..];
    RunAppend(true, false, log[..i], log[i..]);
  }
}
