/**
 * The task buffer of the encryption panel (`TaskBuffer` in libs/misc.py): a FIFO
 * of file names waiting to be processed. `extend` appends names; `new_task`, fired
 * when a job finishes, starts the head name with the finished job's action, or
 * reports that everything is done when the buffer is empty. After either it shows
 * the number of names left ("buffer: n").
 */
module Tasks {

  /** What a job does to its file; a finished job hands its own action on. */
  datatype Action = Encryption | Decryption

  /** What `new_task` emits to the panel. */
  datatype Signal = StartTask(act: Action, fileName: string) | AllTaskDone

  /** One `new_task(act)` on a buffer: the signal emitted and the buffer left. */
  function Advance(buffer: seq<string>, act: Action): (r: (Signal, seq<string>))
    ensures buffer == [] ==> r == (AllTaskDone, [])
    ensures buffer != [] ==> r.0 == StartTask(act, buffer[0]) && [buffer[0]] + r.1 == buffer
  {
    if buffer == [] then (AllTaskDone, [])
    else (StartTask(act, buffer[0]), buffer[1..])
  }

  /**
   * The signals of `new_task(act)` called again and again (each job finishing
   * with the same action) until the buffer reports all-done.
   */
  function Drain(buffer: seq<string>, act: Action): (r: seq<Signal>)
    decreases |buffer|
    ensures |r| == |buffer| + 1
    ensures forall i :: 0 <= i < |buffer| ==> r[i] == StartTask(act, buffer[i])
    ensures r[|buffer|] == AllTaskDone
  {
    var (signal, rest) := Advance(buffer, act);
    if signal == AllTaskDone then [signal] else [signal] + Drain(rest, act)
  }

  /** What happens to the buffer over time: names added, or a job finishing. */
  datatype Event = Added(names: seq<string>) | Finished(act: Action)

  /** All names added by the events, in order. */
  function Enqueued(events: seq<Event>): seq<string>
  {
    if events == [] then []
    else (if events[0].Added? then events[0].names else []) + Enqueued(events[1..])
  }

  /** The names started, in start order, and the names still waiting. */
  datatype Trace = Trace(started: seq<string>, waiting: seq<string>)

  /** The trace of a buffer through a sequence of events. */
  function Replay(buffer: seq<string>, events: seq<Event>): Trace
    decreases |events|
  {
    if events == [] then Trace([], buffer)
    else if events[0].Added? then Replay(buffer + events[0].names, events[1..])
    else
      var step := Advance(buffer, events[0].act);
      var t := Replay(step.1, events[1..]);
      Trace((if step.0.StartTask? then [step.0.fileName] else []) + t.started, t.waiting)
  }

  /**
   * FIFO, whatever the interleaving of additions and finished jobs: the names
   * started followed by those still waiting are exactly the names ever added, in
   * the order they were added. No name is lost, duplicated or reordered.
   */
  lemma {:induction false} ReplayIsFifo(buffer: seq<string>, events: seq<Event>)
    ensures Replay(buffer, events).started + Replay(buffer, events).waiting == buffer + Enqueued(events)
    decreases |events|
  {
    if events != [] {
      if events[0].Added? {
        ReplayIsFifo(buffer + events[0].names, events[1..]);
        FifoAddedStep(buffer, events);
      } else {
        ReplayIsFifo(Advance(buffer, events[0].act).1, events[1..]);
        FifoFinishedStep(buffer, events);
      }
    }
  }

  /** The FIFO equation survives an addition at the front of the events. */
  lemma FifoAddedStep(buffer: seq<string>, events: seq<Event>)
    requires events != [] && events[0].Added?
    requires var t := Replay(buffer + events[0].names, events[1..]);
      t.started + t.waiting == buffer + events[0].names + Enqueued(events[1..])
    ensures Replay(buffer, events).started + Replay(buffer, events).waiting == buffer + Enqueued(events)
  {
    var names, tail := events[0].names, events[1..];
    assert Replay(buffer, events) == Replay(buffer + names, tail);
    assert Enqueued(events) == names + Enqueued(tail);
    assert buffer + names + Enqueued(tail) == buffer + (names + Enqueued(tail));
  }

  /** The FIFO equation survives a finished job at the front of the events. */
  lemma FifoFinishedStep(buffer: seq<string>, events: seq<Event>)
    requires events != [] && events[0].Finished?
    requires var t := Replay(Advance(buffer, events[0].act).1, events[1..]);
      t.started + t.waiting == Advance(buffer, events[0].act).1 + Enqueued(events[1..])
    ensures Replay(buffer, events).started + Replay(buffer, events).waiting == buffer + Enqueued(events)
  {
    var step := Advance(buffer, events[0].act);
    var t := Replay(step.1, events[1..]);
    var e := Enqueued(events[1..]);
    assert Enqueued(events) == e;
    if buffer == [] {
      assert Replay(buffer, events) == t;
    } else {
      var head := [buffer[0]];
      assert Replay(buffer, events) == Trace(head + t.started, t.waiting);
      assert head + t.started + t.waiting == buffer + e by {
        assert t.started + t.waiting == step.1 + e;
        assert head + step.1 == buffer;
        SeqConsAssoc(head, t.started, t.waiting, step.1, e);
      }
    }
  }

  /** h + a + b == (h + c) + d whenever a + b == c + d. */
  lemma SeqConsAssoc<T>(h: seq<T>, a: seq<T>, b: seq<T>, c: seq<T>, d: seq<T>)
    requires a + b == c + d
    ensures h + a + b == (h + c) + d
  {
    assert h + a + b == h + (a + b);
    assert (h + c) + d == h + (c + d);
  }

  /**
   * Names a, b, c queued; a starts; while b runs, d is queued: the start order
   * is a, b, c, d and then the buffer reports all-done with nothing left.
   */
  lemma LateAdditionKeepsOrder(act: Action)
    ensures var events := [Added(["a", "b", "c"]), Finished(act), Finished(act), Added(["d"]),
                           Finished(act), Finished(act), Finished(act)];
            Replay([], events) == Trace(["a", "b", "c", "d"], [])
  {
    var fin := Finished(act);
    var e6 := [fin];
    var e5 := [fin] + e6;
    var e4 := [fin] + e5;
    var e3 := [Added(["d"])] + e4;
    var e2 := [fin] + e3;
    var e1 := [fin] + e2;
    var e0 := [Added(["a", "b", "c"])] + e1;
    assert e0 == [Added(["a", "b", "c"]), fin, fin, Added(["d"]), fin, fin, fin];
    assert Replay([], [fin]) == Trace([], []);
    assert Replay(["d"], e5) == Trace(["d"], []) by {
      assert ["d"][1..] == [];
    }
    assert Replay(["c"], e3) == Trace(["c", "d"], []) by {
      assert ["c"] + ["d"] == ["c", "d"];
      assert Replay(["c", "d"], e4) == Trace(["c", "d"], []) by {
        assert ["c", "d"][1..] == ["d"];
      }
    }
    assert Replay(["b", "c"], e2) == Trace(["b", "c", "d"], []) by {
      assert ["b", "c"][1..] == ["c"];
      assert ["b"] + ["c", "d"] == ["b", "c", "d"];
    }
    assert Replay(["a", "b", "c"], e1) == Trace(["a", "b", "c", "d"], []) by {
      assert ["a", "b", "c"][1..] == ["b", "c"];
      assert ["a"] + ["b", "c", "d"] == ["a", "b", "c", "d"];
    }
    assert [] + ["a", "b", "c"] == ["a", "b", "c"];
  }

  /** The pending file names, which the buffer's methods update in place. */
  class TaskBuffer {
    var buffer: seq<string>

    constructor ()
      ensures buffer == []
    {
      buffer := [];
    }

    /** Appends the names in their order; returns the count the label then shows. */
    method Extend(names: seq<string>) returns (shown: nat)
      modifies this
      ensures buffer == old(buffer) + names
      ensures shown == |buffer|
    {
      for i := 0 to |names|
        invariant buffer == old(buffer) + names[..i]
      {
        buffer := buffer + [names[i]];
      }
      assert names[..|names|] == names;
      shown := |buffer|;
    }

    /**
     * A job that did `act` has finished: starts the head name with the same
     * action, or signals that all tasks are done; returns the count the label shows.
     */
    method NewTask(act: Action) returns (signal: Signal, shown: nat)
      modifies this
      ensures (signal, buffer) == Advance(old(buffer), act)
      ensures shown == |buffer|
    {
      if buffer != [] {
        var head := buffer[0];
        buffer := buffer[1..];
        signal := StartTask(act, head);
      } else {
        signal := AllTaskDone;
      }
      shown := |buffer|;
    }
  }
}
