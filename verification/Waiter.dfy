/**
  The wait-hook queue: tasks wait until their library is loaded, time out or are
  cancelled.  Each method body runs under the queue's mutex, so a run is a sequence
  of Submit, Cancel and worker-pass steps.  The clock and what the symbol lookup
  finds are parameters.  A task's `id` is its submission number.
 */
module Waiter {
  import opened Options

  datatype Task = Task(id: nat, lib: string, symbol: string, offset: nat, useOffset: bool,
                       timeout: nat, hasCallback: bool, start: nat)

  /** What the symbol resolver answers at one moment: 0 is "not found". */
  datatype Loaded = Loaded(find: (string, string) -> nat, base: string -> nat)

  /** The address a task would hook, 0 while its library or symbol is missing. */
  function Resolve(t: Task, loaded: Loaded): nat {
    if !t.useOffset then loaded.find(t.lib, t.symbol)
    else if loaded.base(t.lib) != 0 then (loaded.base(t.lib) + t.offset) % 0x1_0000_0000_0000_0000
    else 0
  }

  datatype Ending = Installed(at: nat) | TimedOut | Cancelled
  datatype Ended = Ended(task: Task, ending: Ending, time: nat)

  datatype Status = Invalid | InstalledNow | Pending

  /** The tasks that stay, in order. */
  function Keep(tasks: seq<Task>, fate: Task -> Option<Ending>): seq<Task> {
    if tasks == [] then []
    else
      var n := |tasks| - 1;
      Keep(tasks[..n], fate) + if fate(tasks[n]).None? then [tasks[n]] else []
  }

  /** The tasks that end, in order, with how they ended. */
  function Ends(tasks: seq<Task>, fate: Task -> Option<Ending>, time: nat): seq<Ended> {
    if tasks == [] then []
    else
      var n := |tasks| - 1;
      Ends(tasks[..n], fate, time) + if fate(tasks[n]).Some? then [Ended(tasks[n], fate(tasks[n]).value, time)] else []
  }

  /** The callbacks made for the ended tasks. */
  function Callbacks(ended: seq<Ended>): seq<(nat, Ending)> {
    if ended == [] then []
    else
      var n := |ended| - 1;
      Callbacks(ended[..n]) + if ended[n].task.hasCallback then [(ended[n].task.id, ended[n].ending)] else []
  }

  lemma {:induction false} CallbacksAppend(a: seq<Ended>, b: seq<Ended>)
    ensures Callbacks(a + b) == Callbacks(a) + Callbacks(b)
  {
    if b == [] {
      assert a + b == a;
    } else {
      var n := |b| - 1;
      CallbacksAppend(a, b[..n]);
      assert (a + b)[..|a + b| - 1] == a + b[..n] && (a + b)[|a + b| - 1] == b[n];
    }
  }

  predicate Increasing(tasks: seq<Task>) {
    forall i, j {:trigger tasks[i], tasks[j]} :: 0 <= i < j < |tasks| ==> tasks[i].id < tasks[j].id
  }

  predicate DistinctEnded(ended: seq<Ended>) {
    forall i, j {:trigger ended[i], ended[j]} :: 0 <= i < j < |ended| ==> ended[i].task.id != ended[j].task.id
  }

  predicate Expired(t: Task, now: nat) {
    t.timeout != 0 && now - t.start > t.timeout
  }

  /** A task timed out only after its deadline, which it has, and was installed only at a found address. */
  predicate JustEnded(ended: seq<Ended>) {
    forall e <- ended :: match e.ending
      case TimedOut => e.task.timeout > 0 && e.time > e.task.start + e.task.timeout
      case Installed(at) => at != 0
      case Cancelled => true
  }

  predicate Waiting(tasks: seq<Task>, id: nat) {
    exists t <- tasks :: t.id == id
  }

  predicate Over(ended: seq<Ended>, id: nat) {
    exists e <- ended :: e.task.id == id
  }

  /** Every accepted task is pending or has ended, and never both: nothing is lost, nothing ends twice. */
  ghost predicate Accounted(tasks: seq<Task>, ended: seq<Ended>, accepted: nat) {
    && Increasing(tasks) && DistinctEnded(ended) && |tasks| + |ended| == accepted
    && (forall id: nat :: id < accepted <==> Waiting(tasks, id) || Over(ended, id))
    && (forall id: nat :: !(Waiting(tasks, id) && Over(ended, id)))
  }

  /** A pass splits the queue in two: who stays and who ends is decided by the fate alone. */
  lemma {:induction false} KeepSplits(tasks: seq<Task>, fate: Task -> Option<Ending>, time: nat)
    ensures |Keep(tasks, fate)| + |Ends(tasks, fate, time)| == |tasks|
    ensures forall t :: t in Keep(tasks, fate) <==> t in tasks && fate(t).None?
    ensures forall e :: e in Ends(tasks, fate, time) <==> e.task in tasks && fate(e.task) == Some(e.ending) && e.time == time
  {
    if tasks == [] {
    } else {
      var n := |tasks| - 1;
      KeepSplits(tasks[..n], fate, time);
      assert tasks == tasks[..n] + [tasks[n]];
    }
  }

  /** A pass keeps the order of submission among those who stay and among those who end. */
  lemma {:induction false} KeepOrder(tasks: seq<Task>, fate: Task -> Option<Ending>, time: nat)
    requires Increasing(tasks)
    ensures Increasing(Keep(tasks, fate)) && EndedInOrder(Ends(tasks, fate, time))
  {
    if tasks == [] {
    } else {
      hide Increasing, EndedInOrder;
      var n := |tasks| - 1;
      var kept, gone := Keep(tasks[..n], fate), Ends(tasks[..n], fate, time);
      IncreasingFront(tasks);
      KeepOrder(tasks[..n], fate, time);
      KeepSplits(tasks[..n], fate, time);
      IncreasingAppend(kept, tasks[n]);
      if fate(tasks[n]).Some? {
        EndedAppend(gone, Ended(tasks[n], fate(tasks[n]).value, time));
      }
    }
  }

  lemma IncreasingFront(tasks: seq<Task>)
    requires Increasing(tasks) && tasks != []
    ensures Increasing(tasks[..|tasks| - 1]) && forall t <- tasks[..|tasks| - 1] :: t.id < tasks[|tasks| - 1].id
  {
  }

  lemma IncreasingAppend(tasks: seq<Task>, t: Task)
    requires Increasing(tasks) && forall u <- tasks :: u.id < t.id
    ensures Increasing(tasks + [t])
  {
  }

  lemma EndedAppend(ended: seq<Ended>, e: Ended)
    requires EndedInOrder(ended) && forall f <- ended :: f.task.id < e.task.id
    ensures EndedInOrder(ended + [e])
  {
  }

  predicate EndedInOrder(ended: seq<Ended>) {
    forall i, j {:trigger ended[i], ended[j]} :: 0 <= i < j < |ended| ==> ended[i].task.id < ended[j].task.id
  }

  lemma SameIdSame(tasks: seq<Task>, a: Task, b: Task)
    requires Increasing(tasks) && a in tasks && b in tasks
    ensures a.id == b.id ==> a == b
  {
    var i :| 0 <= i < |tasks| && tasks[i] == a;
    var j :| 0 <= j < |tasks| && tasks[j] == b;
  }

  /** Who waits and who is over after a pass. */
  lemma PassIds(tasks: seq<Task>, fate: Task -> Option<Ending>, time: nat, id: nat)
    requires Increasing(tasks)
    ensures Waiting(tasks, id) <==> Waiting(Keep(tasks, fate), id) || Over(Ends(tasks, fate, time), id)
    ensures !(Waiting(Keep(tasks, fate), id) && Over(Ends(tasks, fate, time), id))
  {
    KeepSplits(tasks, fate, time);
    if Waiting(tasks, id) {
      var t :| t in tasks && t.id == id;
      if fate(t).Some? {
        assert Ended(t, fate(t).value, time) in Ends(tasks, fate, time);
      }
      forall u, e | u in Keep(tasks, fate) && e in Ends(tasks, fate, time)
        ensures u.id != e.task.id
      {
        SameIdSame(tasks, u, e.task);
      }
    }
  }

  lemma OverAppend(a: seq<Ended>, b: seq<Ended>, id: nat)
    ensures Over(a + b, id) <==> Over(a, id) || Over(b, id)
  {
    assert forall e :: e in a + b <==> e in a || e in b;
  }

  /** Two lists of ended tasks with no task in common make one list without repetition. */
  lemma DistinctAppend(a: seq<Ended>, b: seq<Ended>)
    requires DistinctEnded(a) && DistinctEnded(b)
    requires forall id: nat :: !(Over(a, id) && Over(b, id))
    ensures DistinctEnded(a + b)
  {
    forall i, j {:trigger (a + b)[i], (a + b)[j]} | 0 <= i < j < |a + b|
      ensures (a + b)[i].task.id != (a + b)[j].task.id
    {
      if i < |a| <= j {
        var e, f := a[i], b[j - |a|];
        assert e in a && f in b;
        assert Over(a, e.task.id) && Over(b, f.task.id);
      }
    }
  }

  /** Moving tasks from the queue to the ended list keeps the account. */
  lemma PassAccounted(tasks: seq<Task>, ended: seq<Ended>, accepted: nat, fate: Task -> Option<Ending>, time: nat)
    requires Accounted(tasks, ended, accepted)
    ensures Accounted(Keep(tasks, fate), ended + Ends(tasks, fate, time), accepted)
  {
    hide Waiting, Over;
    var kept, more := Keep(tasks, fate), Ends(tasks, fate, time);
    forall id: nat
      ensures Waiting(tasks, id) <==> Waiting(kept, id) || Over(more, id)
      ensures !(Waiting(kept, id) && Over(more, id))
      ensures Over(ended + more, id) <==> Over(ended, id) || Over(more, id)
    {
      PassIds(tasks, fate, time, id);
      OverAppend(ended, more, id);
    }
    KeepSplits(tasks, fate, time);
    KeepOrder(tasks, fate, time);
    DistinctAppend(ended, more);
  }

  /** A newly accepted task joins the queue or, installed at once, the ended list. */
  lemma SubmitAccounted(tasks: seq<Task>, ended: seq<Ended>, accepted: nat, t: Task, e: Ended)
    requires Accounted(tasks, ended, accepted) && t.id == accepted && e.task == t
    ensures Accounted(tasks + [t], ended, accepted + 1) && Accounted(tasks, ended + [e], accepted + 1)
  {
    assert forall x :: x in tasks + [t] <==> x in tasks || x == t;
    forall id: nat
      ensures Waiting(tasks + [t], id) <==> Waiting(tasks, id) || id == accepted
      ensures Over(ended + [e], id) <==> Over(ended, id) || id == accepted
    {
      OverAppend(ended, [e], id);
      assert t in tasks + [t] && e in [e];
    }
    forall i | 0 <= i < |tasks|
      ensures tasks[i].id < accepted
    {
      assert Waiting(tasks, tasks[i].id);
    }
    DistinctAppend(ended, [e]);
  }

  lemma JustAppend(a: seq<Ended>, b: seq<Ended>)
    requires JustEnded(a) && JustEnded(b)
    ensures JustEnded(a + b)
  {
    assert forall e :: e in a + b <==> e in a || e in b;
  }

  /** What the worker decides for a task: the deadline is looked at before the library. */
  function PassFate(now: nat, loaded: Loaded): Task -> Option<Ending> {
    (t: Task) =>
      if Expired(t, now) then Some(TimedOut)
      else if Resolve(t, loaded) != 0 then Some(Installed(Resolve(t, loaded)))
      else None
  }

  function CancelFate(lib: string, symbol: Option<string>): Task -> Option<Ending> {
    (t: Task) => if t.lib == lib && (symbol.None? || t.symbol == symbol.value) then Some(Cancelled) else None
  }

  /**
    The middle of a sweep that erases in place: `seen` tasks of the queue `was` have been
    looked at, the cursor `i` stands after those that stay.
   */
  ghost predicate Sweeping(was: seq<Task>, before: seq<Ended>, fate: Task -> Option<Ending>, time: nat,
                           seen: nat, i: nat, tasks: seq<Task>, ended: seq<Ended>) {
    && seen <= |was|
    && i == |Keep(was[..seen], fate)| && tasks == Keep(was[..seen], fate) + was[seen..]
    && ended == before + Ends(was[..seen], fate, time)
  }

  lemma SweepStart(was: seq<Task>, before: seq<Ended>, fate: Task -> Option<Ending>, time: nat)
    ensures Sweeping(was, before, fate, time, 0, 0, was, before)
  {
  }

  lemma SweepStep(was: seq<Task>, before: seq<Ended>, fate: Task -> Option<Ending>, time: nat,
                  seen: nat, i: nat, tasks: seq<Task>, ended: seq<Ended>)
    requires Sweeping(was, before, fate, time, seen, i, tasks, ended) && i < |tasks|
    ensures fate(tasks[i]).None? ==> Sweeping(was, before, fate, time, seen + 1, i + 1, tasks, ended)
    ensures fate(tasks[i]).Some? ==>
      Sweeping(was, before, fate, time, seen + 1, i, tasks[..i] + tasks[i + 1..],
               ended + [Ended(tasks[i], fate(tasks[i]).value, time)])
  {
    assert was[..seen + 1][..seen] == was[..seen];
  }

  lemma SweepEnd(was: seq<Task>, before: seq<Ended>, fate: Task -> Option<Ending>, time: nat,
                 seen: nat, i: nat, tasks: seq<Task>, ended: seq<Ended>)
    requires Sweeping(was, before, fate, time, seen, i, tasks, ended) && i >= |tasks|
    ensures tasks == Keep(was, fate) && ended == before + Ends(was, fate, time)
  {
    assert was[..seen] == was;
  }

  class Waiter {
    var tasks: seq<Task>
    /** The calls made to user callbacks, in order. */
    var calls: seq<(nat, Ending)>
    var clock: nat
    /** How many tasks have been accepted, which is the next submission number. */
    var accepted: nat
    ghost var ended: seq<Ended>

    ghost predicate Valid()
      reads this
    {
      && Accounted(tasks, ended, accepted)
      && calls == Callbacks(ended)
      && JustEnded(ended)
      && (forall t <- tasks :: t.start <= clock)
    }

    constructor ()
      ensures Valid() && tasks == [] && ended == [] && calls == [] && accepted == 0 && clock == 0
    {
      tasks, calls, clock, ended, accepted := [], [], 0, [], 0;
    }

    /** Report how a task ended. */
    method Report(t: Task, ending: Ending)
      requires calls == Callbacks(ended)
      modifies `calls, `ended
      ensures ended == old(ended) + [Ended(t, ending, clock)]
      ensures calls == Callbacks(ended)
    {
      if t.hasCallback {
        calls := calls + [(t.id, ending)];
      }
      ended := ended + [Ended(t, ending, clock)];
    }

    /** Report how the task at the cursor ended and erase it from the queue. */
    method Finish(i: nat, ending: Ending)
      requires i < |tasks| && calls == Callbacks(ended)
      modifies `tasks, `calls, `ended
      ensures tasks == old(tasks[..i] + tasks[i + 1..])
      ensures ended == old(ended) + [Ended(old(tasks[i]), ending, clock)]
      ensures calls == Callbacks(ended)
    {
      Report(tasks[i], ending);
      tasks := tasks[..i] + tasks[i + 1..];
    }

    method Submit(lib: Option<string>, symbol: Option<string>, offset: nat, useOffset: bool, hasReplace: bool,
                  timeout: nat, hasCallback: bool, elapsed: nat, loaded: Loaded) returns (status: Status)
      requires Valid()
      modifies this
      ensures Valid()
      ensures status.Invalid? <==> lib.None? || !hasReplace
      ensures status.Invalid? ==> tasks == old(tasks) && ended == old(ended) && accepted == old(accepted) && clock == old(clock)
      ensures !status.Invalid? ==>
        var t := Task(old(accepted), lib.value, if symbol.Some? then symbol.value else "", offset, useOffset,
                      timeout, hasCallback, old(clock) + elapsed);
        var base := loaded.base(lib.value);
        var at := if useOffset then (base + offset) % 0x1_0000_0000_0000_0000 else loaded.find(lib.value, t.symbol);
        && clock == t.start && accepted == old(accepted) + 1
        && (status.InstalledNow? <==> at != 0 && (useOffset ==> base != 0))
        && (status.InstalledNow? ==> tasks == old(tasks) && ended == old(ended) + [Ended(t, Installed(at), t.start)])
        && (status.Pending? ==> tasks == old(tasks) + [t] && ended == old(ended))
    {
      hide Accounted, Callbacks;
      if lib.None? || !hasReplace {
        return Invalid;
      }
      clock := clock + elapsed;
      var t := Task(accepted, lib.value, if symbol.Some? then symbol.value else "", offset, useOffset,
                    timeout, hasCallback, clock);
      var at := Resolve(t, loaded);
      SubmitAccounted(tasks, ended, accepted, t, Ended(t, Installed(at), clock));
      accepted := accepted + 1;
      if at != 0 {
        JustAppend(ended, [Ended(t, Installed(at), clock)]);
        Report(t, Installed(at));
        return InstalledNow;
      }
      tasks := tasks + [t];
      return Pending;
    }

    /**
      One pass of the worker over the queue, erasing while it goes.  A task past its
      deadline times out, whether it could be installed or not, and one without a deadline
      never does; of the others those that are found are installed where they are found.
     */
    method Pass(elapsed: nat, loaded: Loaded)
      requires Valid()
      modifies `tasks, `calls, `ended, `clock
      ensures Valid() && clock == old(clock) + elapsed
      ensures tasks == Keep(old(tasks), PassFate(clock, loaded))
      ensures ended == old(ended) + Ends(old(tasks), PassFate(clock, loaded), clock)
      ensures forall t :: t in tasks <==>
                && t in old(tasks) && (t.timeout == 0 || clock <= t.start + t.timeout)
                && (!t.useOffset ==> loaded.find(t.lib, t.symbol) == 0)
                && (t.useOffset ==> loaded.base(t.lib) == 0 || (loaded.base(t.lib) + t.offset) % 0x1_0000_0000_0000_0000 == 0)
      ensures forall t <- old(tasks) :: t.timeout > 0 && clock > t.start + t.timeout ==> Ended(t, TimedOut, clock) in ended
      ensures forall t <- old(tasks) :: t.timeout == 0 || clock <= t.start + t.timeout ==>
                var found, base := loaded.find(t.lib, t.symbol), loaded.base(t.lib);
                var moved := (base + t.offset) % 0x1_0000_0000_0000_0000;
                && (!t.useOffset && found != 0 ==> Ended(t, Installed(found), clock) in ended)
                && (t.useOffset && base != 0 && moved != 0 ==> Ended(t, Installed(moved), clock) in ended)
    {
      hide Accounted, JustEnded, Callbacks, Keep, Ends, Sweeping;
      SweepStart(tasks, ended, PassFate(clock + elapsed, loaded), clock + elapsed);
      clock := clock + elapsed;
      ghost var was, wasEnded, fate := tasks, ended, PassFate(clock, loaded);
      ghost var seen := 0;
      var i := 0;
      while i < |tasks|
        invariant Sweeping(was, wasEnded, fate, clock, seen, i, tasks, ended)
        invariant calls == Callbacks(ended)
        modifies `tasks, `calls, `ended
        decreases |tasks| - i
      {
        SweepStep(was, wasEnded, fate, clock, seen, i, tasks, ended);
        if Expired(tasks[i], clock) {
          Finish(i, TimedOut);
        } else if Resolve(tasks[i], loaded) != 0 {
          Finish(i, Installed(Resolve(tasks[i], loaded)));
        } else {
          i := i + 1;
        }
        seen := seen + 1;
      }
      SweepEnd(was, wasEnded, fate, clock, seen, i, tasks, ended);
      Swept(was, wasEnded, fate, clock, accepted);
    }

    method Cancel(lib: string, symbol: Option<string>) returns (n: nat)
      requires Valid()
      modifies `tasks, `calls, `ended
      ensures Valid()
      ensures tasks == Keep(old(tasks), CancelFate(lib, symbol))
      ensures ended == old(ended) + Ends(old(tasks), CancelFate(lib, symbol), clock)
      ensures n == |old(tasks)| - |tasks|
      ensures forall t :: t in tasks <==>
        t in old(tasks) && !(t.lib == lib && (symbol.None? || t.symbol == symbol.value))
    {
      hide Accounted, JustEnded, Callbacks, Keep, Ends, Sweeping;
      SweepStart(tasks, ended, CancelFate(lib, symbol), clock);
      n := 0;
      ghost var was, wasEnded, fate := tasks, ended, CancelFate(lib, symbol);
      ghost var seen := 0;
      var i := 0;
      while i < |tasks|
        invariant Sweeping(was, wasEnded, fate, clock, seen, i, tasks, ended)
        invariant calls == Callbacks(ended)
        invariant n == |was| - |tasks|
        modifies `tasks, `calls, `ended
        decreases |tasks| - i
      {
        SweepStep(was, wasEnded, fate, clock, seen, i, tasks, ended);
        if tasks[i].lib == lib && (symbol.None? || tasks[i].symbol == symbol.value) {
          Finish(i, Cancelled);
          n := n + 1;
        } else {
          i := i + 1;
        }
        seen := seen + 1;
      }
      SweepEnd(was, wasEnded, fate, clock, seen, i, tasks, ended);
      Swept(was, wasEnded, fate, clock, accepted);
    }
  }

  /** What a sweep whose fates are just leaves behind. */
  lemma Swept(tasks: seq<Task>, ended: seq<Ended>, fate: Task -> Option<Ending>, time: nat, accepted: nat)
    requires Accounted(tasks, ended, accepted) && JustEnded(ended)
    requires forall t <- tasks :: match fate(t)
      case Some(TimedOut) => t.timeout > 0 && time > t.start + t.timeout
      case Some(Installed(at)) => at != 0
      case Some(Cancelled) => true
      case None => true
    ensures Accounted(Keep(tasks, fate), ended + Ends(tasks, fate, time), accepted)
    ensures JustEnded(ended + Ends(tasks, fate, time))
    ensures forall t :: t in Keep(tasks, fate) <==> t in tasks && fate(t).None?
    ensures forall t <- tasks :: fate(t).Some? ==> Ended(t, fate(t).value, time) in ended + Ends(tasks, fate, time)
  {
    hide Accounted;
    PassAccounted(tasks, ended, accepted, fate, time);
    KeepSplits(tasks, fate, time);
    JustAppend(ended, Ends(tasks, fate, time));
  }

  /** Every callback is the report of an ended task, in order, and no task is reported twice. */
  lemma {:induction false} CallbacksOnce(ended: seq<Ended>)
    requires DistinctEnded(ended)
    ensures forall c :: c in Callbacks(ended) <==>
      exists e <- ended :: e.task.hasCallback && c == (e.task.id, e.ending)
    ensures forall i, j :: 0 <= i < j < |Callbacks(ended)| ==> Callbacks(ended)[i].0 != Callbacks(ended)[j].0
  {
    if ended == [] {
    } else {
      var n := |ended| - 1;
      CallbacksOnce(ended[..n]);
      assert ended == ended[..n] + [ended[n]];
      var earlier := Callbacks(ended[..n]);
      forall i | 0 <= i < |earlier|
        ensures earlier[i].0 != ended[n].task.id
      {
        assert earlier[i] in earlier;
        var e :| e in ended[..n] && e.task.hasCallback && earlier[i] == (e.task.id, e.ending);
      }
    }
  }

  datatype Step =
    | Submit(lib: Option<string>, symbol: Option<string>, offset: nat, useOffset: bool, hasReplace: bool,
             timeout: nat, hasCallback: bool, elapsed: nat, loaded: Loaded)
    | Cancel(cancelled: string, only: Option<string>)
    | Pass(waited: nat, seenLoaded: Loaded)

  /** The queue, what has ended, how many tasks were accepted, and the clock. */
  datatype Queue = Queue(tasks: seq<Task>, ended: seq<Ended>, accepted: nat, clock: nat)

  ghost function ViewOf(w: Waiter): Queue
    reads w
  {
    Queue(w.tasks, w.ended, w.accepted, w.clock)
  }

  function AfterStep(q: Queue, step: Step): Queue {
    match step
    case Submit(lib, symbol, offset, useOffset, hasReplace, timeout, hasCallback, elapsed, loaded) =>
      if lib.None? || !hasReplace then q
      else
        var t := Task(q.accepted, lib.value, if symbol.Some? then symbol.value else "", offset, useOffset,
                      timeout, hasCallback, q.clock + elapsed);
        var at := Resolve(t, loaded);
        if at != 0 then Queue(q.tasks, q.ended + [Ended(t, Installed(at), t.start)], q.accepted + 1, t.start)
        else Queue(q.tasks + [t], q.ended, q.accepted + 1, t.start)
    case Cancel(lib, symbol) =>
      var fate := CancelFate(lib, symbol);
      Queue(Keep(q.tasks, fate), q.ended + Ends(q.tasks, fate, q.clock), q.accepted, q.clock)
    case Pass(waited, loaded) =>
      var now := q.clock + waited;
      var fate := PassFate(now, loaded);
      Queue(Keep(q.tasks, fate), q.ended + Ends(q.tasks, fate, now), q.accepted, now)
  }

  function AfterSteps(q: Queue, steps: seq<Step>): Queue {
    if steps == [] then q else AfterStep(AfterSteps(q, steps[..|steps| - 1]), steps[|steps| - 1])
  }

  /**
    Any interleaving of submissions, cancellations and worker passes, one step after the
    other: every accepted task is pending or has ended once, a task that has ended stays ended the way it did, and
    each task with a callback is reported at most once.
   */
  method Run(w: Waiter, steps: seq<Step>)
    requires w.Valid()
    modifies w
    ensures w.Valid() && ViewOf(w) == AfterSteps(old(ViewOf(w)), steps)
    ensures old(w.ended) <= w.ended && old(w.calls) <= w.calls && old(w.accepted) <= w.accepted
    ensures forall id: nat :: id < w.accepted <==> Waiting(w.tasks, id) || Over(w.ended, id)
    ensures forall id: nat :: !(Waiting(w.tasks, id) && Over(w.ended, id))
    ensures forall i, j :: 0 <= i < j < |w.calls| ==> w.calls[i].0 != w.calls[j].0
    ensures forall e <- w.ended :: e.ending.TimedOut? ==> e.task.timeout > 0 && e.time > e.task.start + e.task.timeout
    ensures forall e <- w.ended :: e.ending.Installed? ==> e.ending.at != 0
  {
    hide AfterStep, Waiting, Over, Increasing, Callbacks;
    for k := 0 to |steps|
      invariant w.Valid() && ViewOf(w) == AfterSteps(old(ViewOf(w)), steps[..k])
      invariant old(w.ended) <= w.ended && old(w.accepted) <= w.accepted
    {
      assert steps[..k + 1][..k] == steps[..k];
      RunOne(w, steps[k]);
    }
    assert steps[..|steps|] == steps;
    CallbacksOnce(w.ended);
    CallbacksAppend(old(w.ended), w.ended[|old(w.ended)|..]);
    assert w.ended == old(w.ended) + w.ended[|old(w.ended)|..];
  }

  method RunOne(w: Waiter, step: Step)
    requires w.Valid()
    modifies w
    ensures w.Valid() && ViewOf(w) == AfterStep(old(ViewOf(w)), step)
    ensures old(w.ended) <= w.ended && old(w.accepted) <= w.accepted
  {
    hide Accounted, Callbacks, JustEnded, Keep, Ends;
    match step
    case Submit(lib, symbol, offset, useOffset, hasReplace, timeout, hasCallback, elapsed, loaded) =>
      var _ := w.Submit(lib, symbol, offset, useOffset, hasReplace, timeout, hasCallback, elapsed, loaded);
    case Cancel(lib, symbol) =>
      var _ := w.Cancel(lib, symbol);
    case Pass(elapsed, loaded) =>
      w.Pass(elapsed, loaded);
  }
}
