/** The lazy quad stream and every way of taking quads from it. Listeners may
    call back into it, so what they do is a script the stream consumes: a
    listener's call takes actions off it until one returns or throws. */
module LazyStream {
  import opened Base
  import opened Handles

  datatype Event = Data | End | Error | Readable

  /** What a listener, or the code around the stream, does next. */
  datatype Action =
    | Read
    | On(event: Event)
    | Off(event: Event)
    | Emit(event: Event)
    | Destroy
    | Iterate
    | IterNext(k: nat)
    | IterReturn(k: nat)
    | FreeStore
    | Throw
    | Return

  datatype Task = Start | Finish(event: Event)

  /** An iterator that has not run yet, is between two of its quads, or is over. */
  datatype Iterator = Unstarted | Suspended | Over

  /** What a call into the stream comes to. */
  datatype Outcome<Q> = Quad(value: Q) | Nothing | Threw

  /** How many own events of a kind are still queued. */
  function Queued(tasks: seq<Task>, event: Event): (n: nat) {
    if tasks == [] then 0 else Queued(tasks[1..], event) + (if tasks[0] == Finish(event) then 1 else 0)
  }

  lemma {:induction false} QueuedMore(tasks: seq<Task>, event: Event, last: Event)
    ensures Queued(tasks + [Finish(last)], event) == Queued(tasks, event) + (if event == last then 1 else 0)
  {
    var more := tasks + [Finish(last)];
    if tasks == [] {
      assert more[1..] == [];
    } else {
      QueuedMore(tasks[1..], event, last);
      assert more[1..] == tasks[1..] + [Finish(last)];
    }
  }

  /** Where a run stands. */
  datatype Progress<Q> = Progress(taken: seq<Q>, done: bool, ended: bool, failed: bool, tasks: seq<Task>, ends: nat, errors: nat, script: nat, left: nat)

  /** What a run may only add to. */
  ghost predicate Advances<Q(!new)>(was: Progress<Q>, now: Progress<Q>) {
    && was.taken <= now.taken && now.script <= was.script
    && (was.done ==> now.done && now.taken == was.taken && now.ended == was.ended && now.failed == was.failed)
    && was.ends <= now.ends && was.errors <= now.errors && now.left <= was.left
  }

  /** A call besides emits no own event, and queues one only on a stream not done. */
  ghost predicate Follows<Q(!new)>(was: Progress<Q>, now: Progress<Q>) {
    && Advances(was, now)
    && now.ends == was.ends && now.errors == was.errors
    && was.tasks <= now.tasks && (was.done ==> now.tasks == was.tasks)
  }

  lemma FollowsTwice<Q(!new)>(a: Progress<Q>, b: Progress<Q>, c: Progress<Q>)
    requires Follows(a, b) && Follows(b, c)
    ensures Follows(a, c)
  {
  }

  lemma AdvancesTwice<Q(!new)>(a: Progress<Q>, b: Progress<Q>, c: Progress<Q>)
    requires Advances(a, b) && Advances(b, c)
    ensures Advances(a, c)
  {
  }

  class QuadStream<Q(!new)> {
    var chunks: QuadChunks?<Q>
    var listeners: map<Event, nat>
    var buffer: seq<Q>
    var pos: nat
    var started: bool
    var draining: bool
    var done: bool
    var ended: bool
    var failed: bool
    /** Microtasks not run yet. */
    var tasks: seq<Task>
    var iterators: seq<Iterator>
    /** What the code around the stream still does. */
    var script: seq<Action>
    /** The handle, whether or not the stream still holds it. */
    ghost const handle: QuadChunks<Q>
    /** The match's rows, in order. */
    ghost const all: seq<Q>
    /** Every quad handed out, in order; the stream's own events emitted. */
    ghost var taken: seq<Q>
    ghost var ends: nat
    ghost var errors: nat

    ghost predicate Valid()
      reads this, handle
    {
      && Consistent()
      && (!done ==> taken + buffer[pos..] + handle.Rest() == all && handle.rows.Some?)
    }

    /** All of it but where the rows still to come are. */
    ghost predicate Consistent()
      reads this, handle
    {
      && pos <= |buffer| && listeners.Keys == {Data, End, Error, Readable}
      && (done <==> chunks == null) && (chunks != null ==> chunks == handle)
      && handle.frees == (if done then 1 else 0)
      && (done ==> buffer == [] && pos == 0)
      && taken <= all
      && !(ended && failed) && (ended || failed ==> done)
      && (ended ==> taken == all)
      && ends + Queued(tasks, End) == (if ended then 1 else 0)
      && errors + Queued(tasks, Error) == (if failed then 1 else 0)
    }

    ghost function Now(): (p: Progress<Q>)
      reads this, handle
    {
      Progress(taken, done, ended, failed, tasks, ends, errors, |script|, handle.Left())
    }

    /** How many more steps a drain can take. */
    ghost function Steps(): (n: int)
      reads this, handle
    {
      StepsOf(Now())
    }

    ghost function StepsOf(p: Progress<Q>): (n: int) {
      if p.done then 0 else 1 + |all| - |p.taken| + p.left
    }

    constructor (handle: QuadChunks<Q>, script: seq<Action>)
      requires handle.frees == 0 && handle.rows.Some?
      ensures Valid() && taken == [] && all == old(handle.Rest()) && !done && this.handle == handle
      ensures tasks == [Start] && ends == 0 && errors == 0
    {
      this.chunks, this.handle, this.script := handle, handle, script;
      listeners := map[Data := 0, End := 0, Error := 0, Readable := 0];
      buffer, pos := [], 0;
      started, draining, done, ended, failed := false, false, false, false, false;
      tasks := [Start];
      iterators := [];
      all := handle.Rest();
      taken, ends, errors := [], 0, 0;
    }

    /** Frees the handle, once, and drops the buffered chunk. */
    method Release()
      requires pos <= |buffer| && (chunks != null ==> chunks == handle && handle.frees == 0)
      modifies this`chunks, this`buffer, this`pos, handle`frees
      ensures chunks == null && buffer == [] && pos == 0
      ensures handle.frees == if old(chunks) != null then 1 else old(handle.frees)
    {
      var held := chunks;
      chunks, buffer, pos := null, [], 0;
      if held != null {
        held.Free();
      }
    }

    /** Stops the stream without an event. */
    method Stop()
      requires Valid()
      modifies this, handle
      ensures Valid() && done && Follows(old(Now()), Now())
      ensures taken == old(taken) && script == old(script) && tasks == old(tasks)
      ensures ended == old(ended) && failed == old(failed)
      ensures iterators == old(iterators) && draining == old(draining)
    {
      done := true;
      Release();
    }

    /** One pull: the buffer holds rows again, or the stream is done, ended with
        every quad taken or failed for a reason. */
    method Refill()
      requires Valid() && pos == |buffer|
      modifies this, handle
      ensures Valid() && Follows(old(Now()), Now())
      ensures taken == old(taken) && script == old(script)
      ensures iterators == old(iterators) && draining == old(draining)
      ensures !done ==> pos < |buffer|
      ensures !old(done) ==> Steps() < old(Steps())
      ensures done && !old(done) ==> ended || failed
      ensures failed && !old(failed) ==> old(handle.MayThrow())
      ensures handle.MayThrow() ==> old(handle.MayThrow())
    {
      if done {
        return;
      }
      hide QuadStream.Consistent, Queued, Follows;
      ghost var was := Now();
      var payload := PullChunk();
      ghost var pulled := Now();
      match payload
      case Thrown =>
        Close(Error);
        FollowsTwice(was, pulled, Now());
      case Undefined =>
        Close(End);
        FollowsTwice(was, pulled, Now());
      case Payload(rows) => Load(rows);
    }

    /** One pull of the handle: its answer accounts for the rows still to come. */
    method PullChunk() returns (r: Pull<seq<Q>>)
      requires Valid() && !done && pos == |buffer|
      modifies handle`rows
      ensures Consistent() && !done && Follows(old(Now()), Now())
      ensures r.Payload? ==> r.value != [] && taken + r.value + handle.Rest() == all && handle.rows.Some? && Steps() < old(Steps())
      ensures !r.Payload? ==> handle.rows.None?
      ensures r.Undefined? ==> taken == all
      ensures r.Thrown? ==> old(handle.MayThrow())
      ensures handle.MayThrow() ==> old(handle.MayThrow())
    {
      hide Queued;
      assert buffer[pos..] == [] && taken + [] == taken;
      r := chunks.Next();
      match r
      case Payload(rows) => assert taken + (rows + handle.Rest()) == taken + rows + handle.Rest();
      case Undefined => assert taken + [] == taken;
      case Thrown =>
    }

    method Load(rows: seq<Q>)
      requires Consistent() && !done && handle.rows.Some? && taken + rows + handle.Rest() == all
      modifies this`buffer, this`pos
      ensures Valid() && Now() == old(Now()) && pos == 0 && buffer == rows
    {
      buffer, pos := rows, 0;
      assert buffer[pos..] == rows;
    }

    /** Ends or fails the stream: its event is emitted in a microtask. */
    method Close(event: Event)
      requires Consistent() && !done && handle.rows.None? && event in {End, Error}
      requires event == End ==> taken == all
      modifies this, handle
      ensures Valid() && done && Follows(old(Now()), Now())
      ensures (taken, script, iterators, draining) == old((taken, script, iterators, draining))
      ensures ended == (event == End) && failed == (event == Error)
      ensures handle.MayThrow() == old(handle.MayThrow())
    {
      hide Queued, RowsOf;
      done, ended, failed := true, event == End, event == Error;
      Release();
      QueuedMore(tasks, End, event);
      QueuedMore(tasks, Error, event);
      tasks := tasks + [Finish(event)];
    }

    /** Hands out the buffer's next quad. */
    method TakeNext() returns (q: Q)
      requires Valid() && pos < |buffer|
      modifies this`pos, this`taken
      ensures Valid() && Follows(old(Now()), Now()) && taken == old(taken) + [q] && Steps() < old(Steps())
    {
      q := buffer[pos];
      assert buffer[pos..] == [q] + buffer[pos + 1..];
      assert taken + buffer[pos..] + handle.Rest() == taken + [q] + buffer[pos + 1..] + handle.Rest();
      pos := pos + 1;
      taken := taken + [q];
    }

    /** The next quad, pulling chunks while the buffer is empty; nothing once
        the stream is done. */
    method ReadQuad() returns (out: Outcome<Q>)
      requires Valid()
      modifies this, handle
      ensures Valid() && Follows(old(Now()), Now()) && !out.Threw?
      ensures out.Quad? ==> taken == old(taken) + [out.value]
      ensures out.Nothing? ==> done && taken == old(taken) && (old(done) || ended || failed)
      ensures failed && !old(failed) ==> old(handle.MayThrow())
    {
      hide QuadStream.Valid, Follows;
      Same(Now());
      while true
        invariant Valid() && Follows(old(Now()), Now()) && taken == old(taken)
        invariant done ==> old(done) || ended || failed
        invariant failed ==> old(failed) || old(handle.MayThrow())
        invariant handle.MayThrow() ==> old(handle.MayThrow())
        decreases Steps()
      {
        if done {
          return Nothing;
        }
        InBuffer();
        ghost var before := Now();
        if pos < |buffer| {
          var q := TakeNext();
          FollowsTwice(old(Now()), before, Now());
          return Quad(q);
        }
        Refill();
        FollowsTwice(old(Now()), before, Now());
      }
    }

    lemma InBuffer()
      requires Valid()
      ensures pos <= |buffer| && Steps() >= 0
    {
    }

    // ----- listeners

    /** Calls the listeners an event has now, in order, until one throws. */
    method Emitting(event: Event) returns (threw: bool)
      requires Valid()
      modifies this, handle
      ensures Valid() && Follows(old(Now()), Now())
      decreases |script|, 1
    {
      hide QuadStream.Valid, Follows;
      Same(Now());
      ListenersOf(event);
      var n := listeners[event];
      ghost var start := Now();
      for i := 0 to n
        invariant Valid() && Follows(start, Now())
      {
        ghost var before := Now();
        ScriptShrinks(start, before);
        threw := Listener();
        FollowsTwice(start, before, Now());
        if threw {
          return;
        }
      }
      threw := false;
    }

    lemma ListenersOf(event: Event)
      requires Valid()
      ensures event in listeners
    {
    }

    /** One listener's call: the script's actions until one returns or throws. */
    method Listener() returns (threw: bool)
      requires Valid()
      modifies this, handle
      ensures Valid() && Follows(old(Now()), Now())
      decreases |script|, 0
    {
      hide QuadStream.Valid, Follows;
      ghost var start := Now();
      Same(start);
      while script != []
        invariant Valid() && Follows(start, Now())
        decreases |script|
      {
        ghost var before := Now();
        ScriptShrinks(start, before);
        var action := NextAction();
        FollowsTwice(start, before, Now());
        if action == Throw || action == Return {
          return action == Throw;
        }
        ghost var popped := Now();
        var out := Act(action);
        FollowsTwice(start, popped, Now());
        ScriptShrinks(popped, Now());
      }
      threw := false;
    }

    method NextAction() returns (action: Action)
      requires Valid() && script != []
      modifies this`script
      ensures Valid() && Follows(old(Now()), Now()) && |script| == |old(script)| - 1
    {
      action, script := script[0], script[1..];
    }

    /** Hands quads to the `data` listeners until the stream is done, unless an
        outer call is doing so. Left by a throw, the stream is done too. */
    method Drain() returns (threw: bool)
      requires Valid()
      modifies this, handle
      ensures Valid() && Follows(old(Now()), Now())
      ensures threw || !old(draining) ==> done
      decreases |script|, 3
    {
      hide QuadStream.Valid, Follows;
      ghost var start := Now();
      Same(start);
      if draining {
        return false;
      }
      SetDraining(true);
      while true
        invariant Valid() && Follows(start, Now())
        decreases Steps()
      {
        if done {
          SetDraining(false);
          return false;
        }
        InBuffer();
        ghost var before := Now();
        if pos < |buffer| {
          ScriptShrinks(start, before);
          threw := EmitNext();
          FollowsTwice(start, before, Now());
          if threw {
            SetDraining(false);
            return;
          }
        } else {
          Refill();
          FollowsTwice(start, before, Now());
        }
      }
    }

    method PopTask() returns (task: Task)
      requires Valid() && tasks != []
      modifies this`tasks, this`ends, this`errors
      ensures Valid() && Advances(old(Now()), Now()) && tasks == old(tasks)[1..] && task == old(tasks)[0]
    {
      task := tasks[0];
      tasks := tasks[1..];
      if task == Finish(End) {
        ends := ends + 1;
      } else if task == Finish(Error) {
        errors := errors + 1;
      }
    }

    method SetStarted()
      requires Valid()
      modifies this`started
      ensures Valid() && Now() == old(Now())
    {
      started := true;
    }

    method SetDraining(on: bool)
      requires Valid()
      modifies this`draining
      ensures Valid() && Now() == old(Now()) && Steps() == old(Steps())
    {
      draining := on;
    }

    /** Hands the buffer's next quad to the `data` listeners. */
    method EmitNext() returns (threw: bool)
      requires Valid() && pos < |buffer|
      modifies this, handle
      ensures Valid() && Follows(old(Now()), Now()) && Steps() < old(Steps())
      ensures threw ==> done
      decreases |script|, 2
    {
      hide QuadStream.Valid, Follows;
      ghost var was := Now();
      var q := TakeNext();
      ghost var before := Now();
      ScriptShrinks(was, before);
      threw := Emitting(Data);
      FollowsTwice(was, before, Now());
      StepsShrink(before, Now());
      if threw {
        ghost var emitted := Now();
        Stop();
        FollowsTwice(was, emitted, Now());
        NoSteps();
      }
    }

    lemma StepsShrink(was: Progress<Q>, now: Progress<Q>)
      requires Follows(was, now)
      ensures StepsOf(now) <= StepsOf(was) || StepsOf(now) <= 0
    {
    }

    lemma Counts()
      requires Valid()
      ensures Accounted(Now())
    {
    }

    lemma NoSteps()
      requires Valid() && done
      ensures Steps() == 0
    {
    }

    // ----- what listeners and the code around the stream do

    method Act(action: Action) returns (out: Outcome<Q>)
      requires Valid()
      modifies this, handle
      ensures Valid() && Follows(old(Now()), Now())
      ensures out.Quad? ==> old(taken) + [out.value] <= taken
      decreases |script|, 5
    {
      hide QuadStream.Valid, Follows;
      Same(Now());
      out := Nothing;
      match action
      case Read => out := ReadQuad();
      case On(event) => var threw := Attach(event); out := if threw then Threw else Nothing;
      case Off(event) => Detach(event);
      case Emit(event) => var threw := Emitting(event); out := if threw then Threw else Nothing;
      case Destroy => Stop();
      case Iterate => AddIterator();
      case IterNext(k) => out := NextOf(k);
      case IterReturn(k) => ReturnOf(k);
      case FreeStore => FreeTheStore();
      case Throw => out := Threw;
      case Return =>
    }

    method FreeTheStore()
      requires Valid()
      modifies handle`alive
      ensures Valid() && Now() == old(Now())
    {
      if chunks != null {
        chunks.alive := false;
      }
    }

    /** Adds a listener: a `data` listener of a started stream drains it, a
        `readable` listener of a started stream not done is called. */
    method Attach(event: Event) returns (threw: bool)
      requires Valid()
      modifies this, handle
      ensures Valid() && Follows(old(Now()), Now())
      decreases |script|, 4
    {
      hide QuadStream.Valid, Follows;
      Same(Now());
      SetListeners(event, 1);
      threw := false;
      if event == Data {
        if started {
          threw := Drain();
        }
      } else if event == Readable && started && !done {
        threw := Listener();
      }
    }

    method Detach(event: Event)
      requires Valid()
      modifies this`listeners
      ensures Valid() && Now() == old(Now())
    {
      if listeners[event] > 0 {
        SetListeners(event, -1);
      }
    }

    method SetListeners(event: Event, more: int)
      requires Valid() && (more < 0 ==> event in listeners && listeners[event] + more >= 0)
      modifies this`listeners
      ensures Valid() && Now() == old(Now())
    {
      listeners := listeners[event := listeners[event] + more];
    }

    method AddIterator()
      requires Valid()
      modifies this`iterators
      ensures Valid() && Now() == old(Now())
    {
      iterators := iterators + [Unstarted];
    }

    method SetIterator(k: nat, state: Iterator)
      requires Valid() && k < |iterators|
      modifies this`iterators
      ensures Valid() && Now() == old(Now()) && |iterators| == |old(iterators)|
    {
      iterators := iterators[k := state];
    }

    /** The iterator's next quad. Over, it stops a stream that did not end, and
        rethrows a failed one's error. */
    method NextOf(k: nat) returns (out: Outcome<Q>)
      requires Valid()
      modifies this, handle
      ensures Valid() && Follows(old(Now()), Now())
      ensures out.Quad? ==> taken == old(taken) + [out.value]
      ensures !out.Quad? ==> taken == old(taken)
      ensures !out.Quad? && k < |iterators| && !old(k < |iterators| && iterators[k].Over?) ==> done
    {
      hide QuadStream.Valid, Follows;
      Same(Now());
      if k >= |iterators| || iterators[k].Over? {
        return Nothing;
      }
      while !done && pos == |buffer|
        invariant Valid() && Follows(old(Now()), Now()) && taken == old(taken) && iterators == old(iterators)
        decreases Steps()
      {
        InBuffer();
        ghost var before := Now();
        Refill();
        FollowsTwice(old(Now()), before, Now());
      }
      ghost var before := Now();
      InBuffer();
      if !done {
        var q := TakeNext();
        SetIterator(k, Suspended);
        FollowsTwice(old(Now()), before, Now());
        return Quad(q);
      }
      SetIterator(k, Over);
      out := if failed then Threw else Nothing;
      if !ended {
        Stop();
        FollowsTwice(old(Now()), before, Now());
      }
    }

    /** Leaves an iterator early: one that has run stops a stream that has not
        ended. */
    method ReturnOf(k: nat)
      requires Valid()
      modifies this, handle
      ensures Valid() && Follows(old(Now()), Now()) && taken == old(taken)
    {
      hide QuadStream.Valid, Follows;
      Same(Now());
      if k < |iterators| && !iterators[k].Over? {
        var ran := iterators[k].Suspended?;
        SetIterator(k, Over);
        if ran && !ended {
          Stop();
        }
      }
    }

    // ----- the event loop

    /** Runs the next microtask; an error it throws is nobody's. On a stream
        that is done nothing joins the queue. */
    method RunTask()
      requires Valid() && tasks != []
      modifies this, handle
      ensures Valid() && Advances(old(Now()), Now())
      ensures old(tasks)[1..] <= tasks && (old(done) ==> tasks == old(tasks)[1..])
    {
      hide QuadStream.Valid, Advances;
      ghost var start := Now();
      var task := PopTask();
      ghost var before := Now();
      match task
      case Start =>
        SetStarted();
        if !done {
          var threw := Emitting(Readable);
          CallAdvances(start, before, Now());
          ListenersOf(Data);
          if !threw && listeners[Data] > 0 {
            ghost var emitted := Now();
            threw := Drain();
            FollowsTwice(before, emitted, Now());
            CallAdvances(start, before, Now());
          }
        }
      case Finish(event) =>
        var threw := Emitting(event);
        CallAdvances(start, before, Now());
    }

    /** A whole run: microtasks and outside calls in any order. Whatever the
        listeners do, the quads handed out are a prefix of the match, in order
        and each once; at most one own event is emitted, and `end` only once
        every quad was; the handle is freed at most once. */
    method Run(turns: seq<bool>)
      requires Valid()
      modifies this, handle
      ensures Valid() && Advances(old(Now()), Now())
      ensures taken <= all && ends + errors <= 1 && (ends == 1 ==> taken == all)
      ensures handle.frees <= 1 && (handle.frees == 1 <==> done)
      ensures old(done) ==> |tasks| <= |old(tasks)|
    {
      ghost var start := Now();
      for i := 0 to |turns|
        invariant Valid() && Advances(start, Now())
        invariant start.done ==> |tasks| <= |start.tasks|
      {
        ghost var before := Now();
        if turns[i] && tasks != [] {
          RunTask();
        } else if script != [] {
          var action := NextAction();
          ghost var popped := Now();
          var out := Act(action);
          FollowsTwice(before, popped, Now());
        }
        AdvancesTwice(start, before, Now());
      }
    }

    // ----- destroying a stream

    /** The stream has its own event still to emit. */
    ghost predicate EventQueued()
      reads this
    {
      (ended && Queued(tasks, End) > 0) || (failed && Queued(tasks, Error) > 0)
    }

    /** A stream destroyed, and whatever runs after until every task queued has:
        nothing more is handed out, and none of its own events is emitted exactly
        when it had neither ended nor failed with its event still queued. */
    method DestroyThenRun(turns: seq<bool>)
      requires Valid()
      modifies this, handle
      ensures Valid() && done && tasks == [] && taken == old(taken)
      ensures ended == old(ended) && failed == old(failed)
      ensures ends == (if ended then 1 else 0) && errors == (if failed then 1 else 0)
      ensures ends == old(ends) && errors == old(errors) <==> !old(EventQueued())
    {
      hide QuadStream.Valid, Advances, Follows;
      ghost var start := Now();
      Counts();
      Stop();
      CallIsAdvance(start, Now());
      ghost var stopped := Now();
      Run(turns);
      AdvancesTwice(start, stopped, Now());
      while tasks != []
        invariant Valid() && Advances(start, Now()) && Advances(stopped, Now()) && done
        decreases |tasks|
      {
        ghost var before := Now();
        RunTask();
        AdvancesTwice(start, before, Now());
        AdvancesTwice(stopped, before, Now());
        StillDone(before, Now());
      }
      AllRan(start, stopped);
    }

    lemma StillDone(was: Progress<Q>, now: Progress<Q>)
      requires Advances(was, now) && was.done
      ensures now.done
    {
    }

    /** With no task left, what was emitted is what the stream came to. */
    lemma AllRan(start: Progress<Q>, stopped: Progress<Q>)
      requires Valid() && tasks == [] && done
      requires Accounted(start) && Advances(start, Now())
      requires stopped.done && Advances(stopped, Now())
      requires stopped.taken == start.taken && stopped.ended == start.ended && stopped.failed == start.failed
      ensures taken == start.taken && ended == start.ended && failed == start.failed
      ensures ends == (if ended then 1 else 0) && errors == (if failed then 1 else 0)
      ensures ends == start.ends && errors == start.errors <==>
                !((start.ended && Queued(start.tasks, End) > 0) || (start.failed && Queued(start.tasks, Error) > 0))
    {
    }
  }

  /** Own events emitted and queued are those the stream came to. */
  ghost predicate Accounted<Q>(p: Progress<Q>) {
    && p.ends + Queued(p.tasks, End) == (if p.ended then 1 else 0)
    && p.errors + Queued(p.tasks, Error) == (if p.failed then 1 else 0)
  }

  lemma CallIsAdvance<Q(!new)>(was: Progress<Q>, now: Progress<Q>)
    requires Follows(was, now)
    ensures Advances(was, now)
  {
  }

  /** A task's pop, and the calls it makes. */
  lemma CallAdvances<Q(!new)>(start: Progress<Q>, popped: Progress<Q>, now: Progress<Q>)
    requires Advances(start, popped) && Follows(popped, now)
    ensures Advances(start, now)
    ensures popped.tasks <= now.tasks && (popped.done ==> now.tasks == popped.tasks)
  {
    AdvancesTwice(start, popped, now);
  }

  /** A stream whose last chunk was pulled, then destroyed: its `end` is still
      emitted, after the call documented to stop it without. */
  method EndAfterDestroy<Q(!new)>() returns (stream: QuadStream<Q>, ghost atDestroy: nat)
    ensures stream.Valid() && stream.done && atDestroy == 0 && stream.ends == 1
  {
    var handle := new QuadChunks<Q>([]);
    stream := new QuadStream(handle, []);
    var out := stream.ReadQuad();
    EndedNotFailed(stream, out);
    atDestroy := stream.ends;
    stream.DestroyThenRun([]);
  }

  lemma EndedNotFailed<Q(!new)>(stream: QuadStream<Q>, out: Outcome<Q>)
    requires stream.Valid() && stream.all == [] && !stream.failed && !out.Threw?
    requires out.Quad? ==> stream.taken == [out.value]
    requires out.Nothing? ==> stream.ended || stream.failed
    ensures stream.ended
  {
  }

  /** The synchronous iterator over one handle of code chunks. */
  class HandleIterator<T(!new)> {
    var handle: ItemHandle?<T>
    ghost const held: ItemHandle<T>
    ghost const all: seq<T>
    ghost var taken: seq<T>

    /** What it yielded is a prefix of the handle's items, all of them once the
        handle ended; the handle is freed when it is let go, once. */
    ghost predicate Valid()
      reads this, held
    {
      && (handle != null ==> handle == held && held.items.Some? && taken + held.Rest() == all)
      && taken <= all && held.frees == (if handle == null then 1 else 0)
    }

    constructor (handle: ItemHandle<T>)
      requires handle.frees == 0 && handle.items.Some?
      ensures Valid() && all == old(handle.Rest()) && taken == [] && this.handle == handle
    {
      this.handle, held, all, taken := handle, handle, handle.Rest(), [];
    }

    /** The next item. With none it has let the handle go, without pulling it
        when aborted; unless aborted, it finishes without an error only when
        every item was yielded. */
    method Next(aborted: bool) returns (r: Pull<T>)
      requires Valid()
      modifies this, held
      ensures Valid() && old(taken) <= taken
      ensures r.Payload? ==> taken == old(taken) + [r.value] && handle != null
      ensures !r.Payload? ==> taken == old(taken) && handle == null
      ensures r.Undefined? && !aborted && old(handle) != null ==> taken == all
      ensures old(handle) == null ==> r.Undefined?
    {
      if handle == null || aborted {
        Free();
        return Undefined;
      }
      r := handle.Next();
      match r
      case Payload(value) =>
        assert taken + ([value] + held.Rest()) == taken + [value] + held.Rest();
        taken := taken + [value];
      case Undefined =>
        assert taken + [] == taken;
        Release();
      case Thrown => Release();
    }

    /** Frees the handle, at most once: at the end, at an error, when left early. */
    method Free()
      requires Valid()
      modifies this, held
      ensures Valid() && handle == null && taken == old(taken)
    {
      Release();
    }

    method Release()
      requires taken <= all && (handle != null ==> handle == held && held.frees == 0) && (handle == null ==> held.frees == 1)
      modifies this`handle, held`frees
      ensures Valid() && handle == null
    {
      var was := handle;
      handle := null;
      if was != null {
        was.Free();
      }
    }
  }

  lemma Same<Q(!new)>(p: Progress<Q>)
    ensures Follows(p, p)
  {
  }

  lemma ScriptShrinks<Q(!new)>(was: Progress<Q>, now: Progress<Q>)
    requires Follows(was, now)
    ensures now.script <= was.script
  {
  }
}
