/** `jobs.py`: the worker pool's protocol. The parent hands tasks to workers, waits until one of them has
    something for it, and then looks at each in turn; workers run, send and die, and the clock moves,
    between any two of the parent's steps.
 */
module Jobs {
  import opened Options

  // ----- states

  datatype Error = Raised | TimedOut | Died

  datatype Result<V> = Value(value: V) | Failure(error: Error)

  /** What a worker sends: a deadline, in cycles of the clock and 0 to disarm it, or the job's end. */
  datatype Body<V> = Deadline(seconds: nat, fallback: Option<V>) | Done(result: Result<V>)

  /** A message and the job it was sent in. The pipe carries no such mark and the parent never reads
      it: it is here to state whose message decides what. */
  datatype Message<V> = Message(job: nat, body: Body<V>)

  /** A worker: its process (alive, the task sent to it, the job it runs, its unread messages) and the
      parent's record of it (job, deadline, fallback, and the job that set the last two). */
  datatype Worker<V> = Worker(
    alive: bool, inbox: Option<nat>, running: Option<nat>, pipe: seq<Message<V>>,
    job: Option<nat>, until: Option<int>, fallback: Option<V>, armedBy: Option<nat>)

  function Spawned<V>(): Worker<V> {
    Worker(true, None, None, [], None, None, None, None)
  }

  /** A yielded result, and the job whose message decided it, if one did. */
  datatype Yielded<V> = Yielded(job: nat, result: Result<V>, decidedBy: Option<nat>)

  /** Where the parent is: handing out tasks and waiting, or in `_ended` with the worker at a place:
      reading its messages, asking whether it lives, asking for the time. */
  datatype Look = Resting | Reading(at: nat) | Asking(at: nat) | Timing(at: nat)

  /** The pool. The tasks that cannot be pickled never change. */
  datatype State<V> = State(
    clock: int, todo: seq<nat>, idle: seq<Worker<V>>, busy: seq<Worker<V>>,
    out: seq<Yielded<V>>, look: Look, failed: bool, unsendable: set<nat>)

  function Range(n: nat): (r: seq<nat>)
    ensures |r| == n && forall i {:trigger r[i]} :: 0 <= i < n ==> r[i] == i
  {
    seq(n, i requires 0 <= i < n => i)
  }

  ghost predicate Init<V(!new)>(s: State<V>, n: nat, count: nat) {
    && s.todo == Range(n) && s.busy == [] && s.out == [] && s.look == Resting && !s.failed
    && |s.idle| == count && forall i {:trigger s.idle[i]} :: 0 <= i < count ==> s.idle[i] == Spawned<V>()
  }

  // ----- the parent's steps

  /** `worker.start`: the first task to the last idle worker; the send raises to one that died idle, and
      for a task that cannot be pickled. */
  function Started<V>(s: State<V>): State<V>
    requires s.idle != [] && s.todo != []
  {
    var w := s.idle[|s.idle| - 1];
    if !w.alive || s.todo[0] in s.unsendable then s.(failed := true)
    else
      var started := w.(job := Some(s.todo[0]), until := None, fallback := None, armedBy := None,
        inbox := Some(s.todo[0]));
      s.(todo := s.todo[1..], idle := s.idle[..|s.idle| - 1], busy := s.busy + [started])
  }

  function Removed<T>(s: seq<T>, i: nat): seq<T>
    requires i < |s|
  {
    s[..i] + s[i + 1..]
  }

  /** The pass over the busy workers goes on with the one at `i`, or is over. */
  function Onward<V>(busy: seq<Worker<V>>, i: nat): Look {
    if i < |busy| then Reading(i) else Resting
  }

  /** The job ends: it is yielded, its worker is idle again or, dead or killed, replaced, and the pass
      goes on with the worker that was next. */
  function Ended<V>(s: State<V>, i: nat, w: Worker<V>, result: Result<V>, decidedBy: Option<nat>): State<V>
    requires i < |s.busy| && s.busy[i].job.Some?
  {
    s.(busy := Removed(s.busy, i), idle := s.idle + [if w.alive then w else Spawned()],
       out := s.out + [Yielded(s.busy[i].job.value, result, decidedBy)], look := Onward(Removed(s.busy, i), i))
  }

  ghost predicate Looking<V(!new)>(s: State<V>) {
    match s.look
    case Resting => true
    case Reading(i) => i < |s.busy|
    case Asking(i) => i < |s.busy|
    case Timing(i) => i < |s.busy|
  }

  /** One message read: a deadline is armed or disarmed, the job's end is its result. */
  function Read<V>(s: State<V>, i: nat): State<V>
    requires i < |s.busy| && s.busy[i].job.Some? && s.busy[i].pipe != []
  {
    var w := s.busy[i];
    var rest := w.(pipe := w.pipe[1..]);
    match w.pipe[0].body
    case Deadline(seconds, fallback) =>
      s.(busy := s.busy[i := rest.(until := if seconds > 0 then Some(s.clock + seconds) else None,
                                   fallback := fallback, armedBy := Some(w.pipe[0].job))])
    case Done(result) => Ended(s, i, rest, result, Some(w.pipe[0].job))
  }

  /** Past its deadline a worker is killed and its fallback, if any, is the result. */
  function Killed<V>(s: State<V>, i: nat): State<V>
    requires i < |s.busy| && s.busy[i].job.Some?
  {
    var w := s.busy[i];
    Ended(s, i, w.(alive := false), if w.fallback.Some? then Value(w.fallback.value) else Failure(TimedOut), w.armedBy)
  }

  /** What ends the parent's wait for a worker: a message, its death, or its deadline. */
  predicate Calls<V>(w: Worker<V>, clock: int) {
    w.pipe != [] || !w.alive || (w.until.Some? && w.until.value <= clock)
  }

  /** Some worker ends the parent's wait. */
  ghost predicate Called<V(!new)>(s: State<V>) {
    exists i {:trigger s.busy[i]} :: 0 <= i < |s.busy| && Calls(s.busy[i], s.clock)
  }

  /** One step of the parent: it starts tasks while it can, waits to be called, and then looks at every
      busy worker in turn. */
  ghost predicate ParentStep<V(!new)>(s: State<V>, t: State<V>) {
    match s.look
    case Resting =>
      if s.idle != [] && s.todo != [] then t == Started(s) else Called(s) && t == s.(look := Reading(0))
    case Reading(i) =>
      && i < |s.busy| && s.busy[i].job.Some?
      && t == if s.busy[i].pipe == [] then s.(look := Asking(i)) else Read(s, i)
    case Asking(i) =>
      && i < |s.busy| && s.busy[i].job.Some?
      && t == if s.busy[i].alive then s.(look := Timing(i)) else Ended(s, i, s.busy[i], Failure(Died), None)
    case Timing(i) =>
      && i < |s.busy| && s.busy[i].job.Some?
      && t == if s.busy[i].until.None? || s.clock < s.busy[i].until.value
              then s.(look := Onward(s.busy, i + 1)) else Killed(s, i)
  }

  // ----- the workers' steps and the clock

  /** A living worker takes its task, sends a deadline, ends the job it runs, or dies. */
  ghost predicate WorkerStep<V(!new)>(w: Worker<V>, v: Worker<V>) {
    && w.alive
    && (|| (w.inbox.Some? && w.running.None? && v == w.(running := w.inbox, inbox := None))
        || (w.running.Some? && exists seconds, fallback ::
              v == w.(pipe := w.pipe + [Message(w.running.value, Deadline(seconds, fallback))]))
        || (w.running.Some? && exists result ::
              v == w.(running := None, pipe := w.pipe + [Message(w.running.value, Done(result))]))
        || v == w.(alive := false))
  }

  ghost predicate OutsideStep<V(!new)>(s: State<V>, t: State<V>) {
    || (exists clock :: clock >= s.clock && t == s.(clock := clock))
    || (exists i: nat, v :: i < |s.busy| && WorkerStep(s.busy[i], v) && t == s.(busy := s.busy[i := v]))
    || (exists i: nat, v :: i < |s.idle| && WorkerStep(s.idle[i], v) && t == s.(idle := s.idle[i := v]))
  }

  ghost predicate Step<V(!new)>(s: State<V>, t: State<V>) {
    !s.failed && (ParentStep(s, t) || OutsideStep(s, t))
  }

  /** A run of the pool over `n` tasks and `count` workers. */
  ghost predicate Run<V(!new)>(run: seq<State<V>>, n: nat, count: nat) {
    && run != [] && Init(run[0], n, count)
    && forall i, j :: 0 <= i && j == i + 1 < |run| ==> Step(run[i], run[j])
  }

  // ----- what every step keeps

  /** An idle worker has nothing to read, to do or to say. */
  ghost predicate Quiet<V(!new)>(w: Worker<V>) {
    w.inbox.None? && w.running.None? && w.pipe == []
  }

  /** A busy worker: its task, running and messages are all its job's, whose end it sends last. */
  ghost predicate OnJob<V(!new)>(w: Worker<V>) {
    && w.job.Some?
    && (w.inbox.Some? ==> w.inbox == w.job && w.running.None? && w.pipe == [])
    && (w.running.Some? ==> w.running == w.job)
    && (forall k {:trigger w.pipe[k]} :: 0 <= k < |w.pipe| ==>
          && w.pipe[k].job == w.job.value
          && (w.pipe[k].body.Done? ==> k == |w.pipe| - 1 && w.running.None?))
    && (w.until.Some? || w.fallback.Some? ==> w.armedBy == w.job)
    && (w.armedBy.Some? ==> w.armedBy == w.job)
  }

  function Jobs<V>(busy: seq<Worker<V>>): (jobs: seq<nat>)
    ensures |jobs| == |busy|
    ensures forall i {:trigger jobs[i]} ::
        0 <= i < |busy| ==> jobs[i] == if busy[i].job.Some? then busy[i].job.value else 0
  {
    seq(|busy|, i requires 0 <= i < |busy| => if busy[i].job.Some? then busy[i].job.value else 0)
  }

  function Yields<V>(out: seq<Yielded<V>>): (jobs: seq<nat>)
    ensures |jobs| == |out| && forall i {:trigger jobs[i]} :: 0 <= i < |out| ==> jobs[i] == out[i].job
  {
    seq(|out|, i requires 0 <= i < |out| => out[i].job)
  }

  /** Queued, running and yielded partition the tasks. */
  ghost predicate Partition<V(!new)>(s: State<V>, n: nat) {
    multiset(s.todo) + multiset(Jobs(s.busy)) + multiset(Yields(s.out)) == multiset(Range(n))
  }

  ghost predicate Inv<V(!new)>(s: State<V>, n: nat, count: nat) {
    && |s.idle| + |s.busy| == count
    && Partition(s, n)
    && (forall i {:trigger s.idle[i]} :: 0 <= i < |s.idle| ==> Quiet(s.idle[i]))
    && (forall i {:trigger s.busy[i]} :: 0 <= i < |s.busy| ==> OnJob(s.busy[i]))
    && (forall i {:trigger s.out[i]} :: 0 <= i < |s.out| ==>
          s.out[i].decidedBy.Some? ==> s.out[i].decidedBy.value == s.out[i].job)
    && Looking(s)
  }

  lemma MultisetRemoved<T>(s: seq<T>, i: nat)
    requires i < |s|
    ensures multiset(s) == multiset(Removed(s, i)) + multiset{s[i]}
  {
    assert s == s[..i] + [s[i]] + s[i + 1..];
  }

  /** A job's end keeps the pool whole, whatever decided it. */
  lemma EndedKeeps<V(!new)>(s: State<V>, i: nat, w: Worker<V>, result: Result<V>, decidedBy: Option<nat>, n: nat,
        count: nat)
    requires Inv(s, n, count) && i < |s.busy| && s.busy[i].job.Some?
    requires (w.alive ==> Quiet(w)) && (decidedBy.Some? ==> decidedBy == s.busy[i].job)
    ensures Inv(Ended(s, i, w, result, decidedBy), n, count)
  {
    hide OnJob, Quiet, Partition;
    SpawnedQuiet<V>();
    EndedPartition(s, i, w, result, decidedBy, n);
  }

  lemma EndedPartition<V(!new)>(s: State<V>, i: nat, w: Worker<V>, result: Result<V>, decidedBy: Option<nat>, n: nat)
    requires Partition(s, n) && i < |s.busy| && s.busy[i].job.Some?
    ensures Partition(Ended(s, i, w, result, decidedBy), n)
  {
    var t := Ended(s, i, w, result, decidedBy);
    MultisetRemoved(Jobs(s.busy), i);
    assert Jobs(t.busy) == Removed(Jobs(s.busy), i);
    assert Yields(t.out) == Yields(s.out) + [s.busy[i].job.value];
  }

  lemma SpawnedQuiet<V(!new)>()
    ensures Quiet(Spawned<V>())
  {
  }

  lemma ReadKeeps<V(!new)>(s: State<V>, i: nat, n: nat, count: nat)
    requires Inv(s, n, count) && s.look == Reading(i) && i < |s.busy| && s.busy[i].job.Some? && s.busy[i].pipe != []
    ensures Inv(Read(s, i), n, count)
  {
    var w := s.busy[i];
    assert OnJob(w) && w.pipe[0].job == w.job.value;
    var rest := w.(pipe := w.pipe[1..]);
    match w.pipe[0].body
    case Deadline(seconds, fallback) =>
      var v := Read(s, i).busy[i];
      forall k {:trigger v.pipe[k]} | 0 <= k < |v.pipe| ensures v.pipe[k] == w.pipe[k + 1] {
      }
      SwapKeeps(s, i, v, n, count);
    case Done(result) =>
      EndedKeeps(s, i, rest, result, Some(w.pipe[0].job), n, count);
  }

  /** Changing a busy worker, but not its job, keeps the pool whole. */
  lemma SwapKeeps<V(!new)>(s: State<V>, i: nat, v: Worker<V>, n: nat, count: nat)
    requires Inv(s, n, count) && i < |s.busy| && OnJob(v) && v.job == s.busy[i].job
    ensures Inv(s.(busy := s.busy[i := v]), n, count)
  {
    hide OnJob, Quiet;
    assert Jobs(s.busy[i := v]) == Jobs(s.busy);
  }

  lemma WorkerKeeps<V(!new)>(w: Worker<V>, v: Worker<V>)
    requires WorkerStep(w, v)
    ensures v.job == w.job && v.until == w.until && |w.pipe| <= |v.pipe|
    ensures Quiet(w) ==> Quiet(v)
    ensures OnJob(w) ==> OnJob(v)
  {
  }

  lemma StartedKeeps<V(!new)>(s: State<V>, n: nat, count: nat)
    requires Inv(s, n, count) && s.look == Resting && s.idle != [] && s.todo != []
    ensures Inv(Started(s), n, count)
  {
    hide OnJob, Quiet, Partition;
    var w := s.idle[|s.idle| - 1];
    StartedPartition(s, n);
    if w.alive {
      TaskOnJob(w, s.todo[0]);
    }
  }

  lemma StartedPartition<V(!new)>(s: State<V>, n: nat)
    requires Partition(s, n) && s.idle != [] && s.todo != []
    ensures Partition(Started(s), n)
  {
    var t := Started(s);
    if s.idle[|s.idle| - 1].alive && s.todo[0] !in s.unsendable {
      assert Jobs(t.busy) == Jobs(s.busy) + [s.todo[0]];
      assert s.todo == [s.todo[0]] + t.todo;
    }
  }

  lemma TaskOnJob<V(!new)>(w: Worker<V>, j: nat)
    ensures Quiet(w) ==> OnJob(w.(job := Some(j), until := None, fallback := None, armedBy := None, inbox := Some(j)))
  {
  }

  lemma ParentKeeps<V(!new)>(s: State<V>, t: State<V>, n: nat, count: nat)
    requires Inv(s, n, count) && ParentStep(s, t)
    ensures Inv(t, n, count)
  {
    hide OnJob, Partition;
    match s.look
    case Resting =>
      if s.idle != [] && s.todo != [] {
        StartedKeeps(s, n, count);
      } else {
        LookKeeps(s, t, n, count);
      }
    case Reading(i) =>
      if s.busy[i].pipe == [] {
        LookKeeps(s, t, n, count);
      } else {
        ReadKeeps(s, i, n, count);
      }
    case Asking(i) =>
      if s.busy[i].alive {
        LookKeeps(s, t, n, count);
      } else {
        EndedKeeps(s, i, s.busy[i], Failure(Died), None, n, count);
      }
    case Timing(i) =>
      if s.busy[i].until.None? || s.clock < s.busy[i].until.value {
        LookKeeps(s, t, n, count);
      } else {
        KilledKeeps(s, i, n, count);
      }
  }

  lemma LookKeeps<V(!new)>(s: State<V>, t: State<V>, n: nat, count: nat)
    requires Inv(s, n, count) && t == s.(look := t.look) && Looking(t)
    ensures Inv(t, n, count)
  {
    hide OnJob, Quiet;
  }

  lemma KilledKeeps<V(!new)>(s: State<V>, i: nat, n: nat, count: nat)
    requires Inv(s, n, count) && i < |s.busy| && s.busy[i].job.Some?
    ensures Inv(Killed(s, i), n, count)
  {
    var w := s.busy[i];
    assert OnJob(w);
    EndedKeeps(s, i, w.(alive := false), if w.fallback.Some? then Value(w.fallback.value) else Failure(TimedOut),
               w.armedBy, n, count);
  }

  lemma OutsideKeeps<V(!new)>(s: State<V>, t: State<V>, n: nat, count: nat)
    requires Inv(s, n, count) && OutsideStep(s, t)
    ensures Inv(t, n, count)
  {
    hide OnJob, Quiet, WorkerStep;
    if clock :| clock >= s.clock && t == s.(clock := clock) {
    } else if i: nat, v :| i < |s.busy| && WorkerStep(s.busy[i], v) && t == s.(busy := s.busy[i := v]) {
      WorkerKeeps(s.busy[i], v);
      SwapKeeps(s, i, v, n, count);
    } else {
      var i: nat, v :| i < |s.idle| && WorkerStep(s.idle[i], v) && t == s.(idle := s.idle[i := v]);
      WorkerKeeps(s.idle[i], v);
    }
  }

  lemma InitHolds<V(!new)>(s: State<V>, n: nat, count: nat)
    requires Init(s, n, count)
    ensures Inv(s, n, count)
  {
    assert Jobs(s.busy) == [] && Yields(s.out) == [];
  }

  /** In every state of every run the pool is whole: queued, running and yielded partition the tasks,
      the workers are as many as ever, and no message of one job has decided another's. */
  lemma {:induction false} RunSafe<V(!new)>(run: seq<State<V>>, n: nat, count: nat, k: nat)
    requires Run(run, n, count) && k < |run|
    ensures Inv(run[k], n, count)
  {
    if k == 0 {
      InitHolds(run[0], n, count);
    } else {
      RunSafe(run, n, count, k - 1);
      StepKeeps(run[k - 1], run[k], n, count);
    }
  }

  lemma StepKeeps<V(!new)>(s: State<V>, t: State<V>, n: nat, count: nat)
    requires Inv(s, n, count) && Step(s, t)
    ensures Inv(t, n, count)
  {
    hide Inv, ParentStep, OutsideStep;
    if ParentStep(s, t) {
      ParentKeeps(s, t, n, count);
    } else {
      OutsideKeeps(s, t, n, count);
    }
  }

  lemma NoRepeats(s: seq<nat>, rest: multiset<nat>, n: nat)
    requires multiset(s) + rest == multiset(Range(n))
    ensures forall i, j :: 0 <= i < j < |s| ==> s[i] != s[j]
    ensures forall i {:trigger s[i]} :: 0 <= i < |s| ==> s[i] < n
  {
    forall x: nat ensures multiset(Range(n))[x] == if x < n then 1 else 0 {
      RangeOnce(n, x);
    }
    forall i {:trigger s[i]} | 0 <= i < |s| ensures s[i] < n {
      assert s[i] in multiset(s);
      assert multiset(Range(n))[s[i]] > 0;
    }
    forall i, j | 0 <= i < j < |s| ensures s[i] != s[j] {
      MultisetRemoved(s, j);
      assert Removed(s, j)[i] == s[i];
      assert s[i] in multiset(Removed(s, j));
      assert multiset(Range(n))[s[j]] <= 1;
    }
  }

  lemma {:induction false} RangeOnce(n: nat, x: nat)
    ensures multiset(Range(n))[x] == if x < n then 1 else 0
  {
    if n > 0 {
      RangeOnce(n - 1, x);
      assert Range(n) == Range(n - 1) + [n - 1];
    } else {
      assert Range(0) == [];
    }
  }

  /** No task yielded twice, and none decided by another's message. */
  ghost predicate NoneTwice<V(!new)>(s: State<V>, n: nat) {
    && (forall i, j :: 0 <= i < j < |s.out| ==> s.out[i].job != s.out[j].job)
    && (forall i {:trigger s.out[i]} :: 0 <= i < |s.out| ==>
          && s.out[i].job < n
          && (s.out[i].decidedBy.Some? ==> s.out[i].decidedBy.value == s.out[i].job))
  }

  /** Every task yielded once. */
  ghost predicate EachOnce<V(!new)>(s: State<V>, n: nat) {
    NoneTwice(s, n) && |s.out| == n && forall j: nat :: j < n ==> j in Yields(s.out)
  }

  /** No task is ever yielded twice; at the loop's end each has been yielded once, decided by none but
      its own messages. */
  lemma ExactlyOnce<V(!new)>(run: seq<State<V>>, n: nat, count: nat)
    requires Run(run, n, count)
    ensures var s := run[|run| - 1];
      && NoneTwice(s, n)
      && (s.todo == [] && s.busy == [] ==> EachOnce(s, n))
      && |s.idle| + |s.busy| == count
  {
    RunSafe(run, n, count, |run| - 1);
    WholeIsOnce(run[|run| - 1], n, count);
  }

  lemma WholeIsOnce<V(!new)>(s: State<V>, n: nat, count: nat)
    requires Inv(s, n, count)
    ensures NoneTwice(s, n) && (s.todo == [] && s.busy == [] ==> EachOnce(s, n))
  {
    var jobs := Yields(s.out);
    NoRepeats(jobs, multiset(s.todo) + multiset(Jobs(s.busy)), n);
    if s.todo == [] && s.busy == [] {
      assert Jobs(s.busy) == [];
      assert multiset(jobs) == multiset(Range(n));
      assert |multiset(jobs)| == |jobs| && |multiset(Range(n))| == n;
      forall j: nat | j < n ensures j in jobs {
        assert Range(n)[j] == j;
        assert j in multiset(jobs);
      }
    }
    forall i, j | 0 <= i < j < |s.out| ensures s.out[i].job != s.out[j].job {
      assert jobs[i] == s.out[i].job && jobs[j] == s.out[j].job;
    }
    forall i {:trigger s.out[i]} | 0 <= i < |s.out| ensures s.out[i].job < n {
      assert jobs[i] == s.out[i].job;
    }
  }

  // ----- progress

  /** What is left to start and to end; no step adds to it, and every start and end takes from it. */
  function Left<V>(s: State<V>): nat {
    2 * |s.todo| + |s.busy|
  }

  lemma LeftFalls<V(!new)>(s: State<V>, t: State<V>)
    requires Step(s, t)
    ensures Left(t) <= Left(s)
    ensures t.failed || (Left(t) == Left(s) <==> |t.todo| == |s.todo| && |t.out| == |s.out|)
  {
    if OutsideStep(s, t) {
    }
  }

  /** The tasks queued are the last ones: they are begun in order. */
  lemma {:induction false} BegunInOrder<V(!new)>(run: seq<State<V>>, n: nat, count: nat, k: nat)
    requires Run(run, n, count) && k < |run|
    ensures var todo := run[k].todo;
      |todo| <= n && forall i {:trigger todo[i]} :: 0 <= i < |todo| ==> todo[i] == n - |todo| + i
  {
    if k > 0 {
      BegunInOrder(run, n, count, k - 1);
      TodoStep(run[k - 1], run[k]);
    }
  }

  lemma TodoStep<V(!new)>(s: State<V>, t: State<V>)
    requires Step(s, t)
    ensures t.todo == s.todo || (s.todo != [] && t.todo == s.todo[1..])
  {
    if OutsideStep(s, t) {
    }
  }

  /** A job the parent can end without waiting: its end sent, its worker dead, or its deadline past with
      nothing left to read. */
  ghost predicate Ripe<V(!new)>(w: Worker<V>, clock: int) {
    || (exists k :: 0 <= k < |w.pipe| && w.pipe[k].body.Done?)
    || !w.alive
    || (w.pipe == [] && w.until.Some? && w.until.value <= clock)
  }

  /** Only the parent steps, from `s` on. */
  ghost predicate ParentRun<V(!new)>(run: seq<State<V>>, s: State<V>) {
    && run != [] && run[0] == s
    && forall i, j :: 0 <= i && j == i + 1 < |run| ==> ParentStep(run[i], run[j])
  }

  lemma ParentThen<V(!new)>(s: State<V>, t: State<V>, rest: seq<State<V>>)
    requires ParentStep(s, t) && ParentRun(rest, t)
    ensures ParentRun([s] + rest, s)
  {
    var run := [s] + rest;
    forall i, j | 0 <= i && j == i + 1 < |run| ensures ParentStep(run[i], run[j]) {
      if i == 0 {
        assert run[1] == rest[0];
      } else {
        assert run[i] == rest[i - 1] && run[j] == rest[j - 1];
      }
    }
  }

  /** The worker has sent its job's end. */
  ghost predicate HasEnded<V(!new)>(w: Worker<V>) {
    exists k :: 0 <= k < |w.pipe| && w.pipe[k].body.Done?
  }

  /** The job of the worker at `i` was yielded and nothing else; the worker that ended it and lives is idle,
      another is replaced. The parent is at the next. */
  ghost predicate YieldedAt<V(!new)>(s: State<V>, i: nat, t: State<V>)
    requires i < |s.busy| && s.busy[i].job.Some?
  {
    && |t.out| == |s.out| + 1 && t.out[|s.out|].job == s.busy[i].job.value
    && t.out[..|s.out|] == s.out && t.todo == s.todo && t.look == Onward(t.busy, i)
    && t.busy == Removed(s.busy, i) && t.clock == s.clock && t.failed == s.failed
    && |t.idle| == |s.idle| + 1 && t.idle[..|s.idle|] == s.idle
    && (if s.busy[i].alive && HasEnded(s.busy[i]) then t.idle[|s.idle|].job == s.busy[i].job && t.idle[|s.idle|].alive
        else t.idle[|s.idle|] == Spawned<V>())
  }

  /** Looking at a ripe worker, the parent yields its job so, in as many steps as it has messages and
      at most three more. */
  lemma {:induction false} RipeEnds<V(!new)>(s: State<V>, i: nat, n: nat, count: nat) returns (run: seq<State<V>>)
    requires Inv(s, n, count) && s.look == Reading(i) && i < |s.busy| && Ripe(s.busy[i], s.clock) && s.busy[i].job.Some?
    ensures ParentRun(run, s) && |run| <= |s.busy[i].pipe| + 4
    ensures YieldedAt(s, i, run[|run| - 1])
    decreases |s.busy[i].pipe|
  {
    hide Inv, OnJob;
    var w := s.busy[i];
    if w.pipe == [] {
      run := EndsUnheard(s, i);
    } else {
      hide ParentRun, YieldedAt;
      ReadKeeps(s, i, n, count);
      var t := Read(s, i);
      if w.pipe[0].body.Done? {
        run := EndsHeard(s, i);
      } else {
        StillRipe(s, i, n, count);
        var rest := RipeEnds(t, i, n, count);
        ParentThen(s, t, rest);
        YieldedAfter(s, i, rest[|rest| - 1]);
        run := [s] + rest;
      }
    }
  }

  lemma EndsUnheard<V(!new)>(s: State<V>, i: nat) returns (run: seq<State<V>>)
    requires s.look == Reading(i) && i < |s.busy| && Ripe(s.busy[i], s.clock) && s.busy[i].job.Some?
    requires s.busy[i].pipe == []
    ensures ParentRun(run, s) && |run| <= 4 && YieldedAt(s, i, run[|run| - 1])
  {
    var w := s.busy[i];
    var asking := s.(look := Asking(i));
    if !w.alive {
      run := [s, asking, Ended(asking, i, w, Failure(Died), None)];
    } else {
      var timing := asking.(look := Timing(i));
      run := [s, asking, timing, Killed(timing, i)];
    }
  }

  lemma EndsHeard<V(!new)>(s: State<V>, i: nat) returns (run: seq<State<V>>)
    requires s.look == Reading(i) && i < |s.busy| && s.busy[i].job.Some?
    requires s.busy[i].pipe != [] && s.busy[i].pipe[0].body.Done?
    ensures ParentRun(run, s) && |run| == 2 && YieldedAt(s, i, run[1])
  {
    run := [s, Read(s, i)];
  }

  lemma YieldedAfter<V(!new)>(s: State<V>, i: nat, t: State<V>)
    requires i < |s.busy| && s.busy[i].job.Some? && s.busy[i].pipe != [] && s.busy[i].pipe[0].body.Deadline?
    requires HasEnded(Read(s, i).busy[i]) <==> HasEnded(s.busy[i])
    requires YieldedAt(Read(s, i), i, t)
    ensures YieldedAt(s, i, t)
  {
    hide HasEnded;
    assert Removed(Read(s, i).busy, i) == Removed(s.busy, i);
  }

  lemma StillRipe<V(!new)>(s: State<V>, i: nat, n: nat, count: nat)
    requires i < |s.busy| && s.busy[i].job.Some? && s.busy[i].pipe != [] && s.busy[i].pipe[0].body.Deadline?
    requires Inv(s, n, count) && Ripe(s.busy[i], s.clock)
    ensures Ripe(Read(s, i).busy[i], s.clock) && (HasEnded(Read(s, i).busy[i]) <==> HasEnded(s.busy[i]))
  {
    var w, v := s.busy[i], Read(s, i).busy[i];
    if k :| 0 <= k < |w.pipe| && w.pipe[k].body.Done? {
      assert v.pipe[k - 1] == w.pipe[k];
    }
    if k :| 0 <= k < |v.pipe| && v.pipe[k].body.Done? {
      assert v.pipe[k] == w.pipe[k + 1];
    }
  }

  // ----- a whole pass over the workers

  /** Looking at another worker, the parent takes its deadlines and goes on with the next. */
  lemma {:induction false} UnripeStays<V(!new)>(s: State<V>, i: nat, n: nat, count: nat)
      returns (run: seq<State<V>>, w: Worker<V>)
    requires Inv(s, n, count) && s.look == Reading(i)
    requires i < |s.busy| && !Ripe(s.busy[i], s.clock) && s.busy[i].job.Some?
    ensures ParentRun(run, s) && w.job == s.busy[i].job
    ensures run[|run| - 1] == s.(busy := s.busy[i := w], look := Onward(s.busy, i + 1))
    decreases |s.busy[i].pipe|
  {
    hide Inv, OnJob;
    w := s.busy[i];
    if w.pipe == [] {
      var asking := s.(look := Asking(i));
      var timing := asking.(look := Timing(i));
      run := [s, asking, timing, timing.(look := Onward(s.busy, i + 1))];
      assert s.busy[i := w] == s.busy;
    } else {
      assert w.pipe[0].body.Deadline?;
      ReadKeeps(s, i, n, count);
      StillUnripe(s, i);
      var t := Read(s, i);
      var rest;
      rest, w := UnripeStays(t, i, n, count);
      ParentThen(s, t, rest);
      run := [s] + rest;
    }
  }

  lemma StillUnripe<V(!new)>(s: State<V>, i: nat)
    requires i < |s.busy| && s.busy[i].job.Some? && s.busy[i].pipe != [] && !Ripe(s.busy[i], s.clock)
    ensures s.busy[i].pipe[0].body.Deadline? && !Ripe(Read(s, i).busy[i], s.clock)
  {
    var w := s.busy[i];
    assert !w.pipe[0].body.Done?;
    var v := Read(s, i).busy[i];
    forall k {:trigger v.pipe[k]} | 0 <= k < |v.pipe| ensures !v.pipe[k].body.Done? {
      assert v.pipe[k] == w.pipe[k + 1];
    }
  }

  /** The jobs of the workers that are ripe, or of those that are not, in order. */
  ghost function Sifted<V(!new)>(busy: seq<Worker<V>>, clock: int, ripe: bool): (jobs: seq<nat>) {
    if busy == [] then []
    else (if Ripe(busy[0], clock) == ripe && busy[0].job.Some? then [busy[0].job.value] else [])
         + Sifted(busy[1..], clock, ripe)
  }

  lemma {:induction false} ParentRunKeeps<V(!new)>(run: seq<State<V>>, s: State<V>, n: nat, count: nat)
    requires ParentRun(run, s) && Inv(s, n, count)
    ensures Inv(run[|run| - 1], n, count)
    decreases |run|
  {
    hide Inv, ParentStep;
    if |run| > 1 {
      assert ParentStep(run[0], run[1]);
      ParentKeeps(s, run[1], n, count);
      ParentRunKeeps(run[1..], run[1], n, count);
    }
  }

  lemma {:induction false} ParentOn<V(!new)>(run: seq<State<V>>, s: State<V>, rest: seq<State<V>>)
    requires ParentRun(run, s) && ParentRun(rest, run[|run| - 1])
    ensures ParentRun(run + rest[1..], s) && (run + rest[1..])[|run + rest[1..]| - 1] == rest[|rest| - 1]
  {
    hide ParentStep;
    var all := run + rest[1..];
    forall i, j | 0 <= i && j == i + 1 < |all| ensures ParentStep(all[i], all[j]) {
      if j >= |run| {
        assert all[j] == rest[j - |run| + 1] && all[i] == rest[j - |run|];
      }
    }
  }

  /** From the worker at `i` on exactly the ripe jobs were yielded, in order, and the others go on. */
  ghost predicate PassedOver<V(!new)>(s: State<V>, i: nat, t: State<V>)
    requires i <= |s.busy|
  {
    && t.look == Resting && t.todo == s.todo && t.clock == s.clock && t.failed == s.failed
    && Yields(t.out) == Yields(s.out) + Sifted(s.busy[i..], s.clock, true)
    && Jobs(t.busy) == Jobs(s.busy[..i]) + Sifted(s.busy[i..], s.clock, false)
  }

  lemma PassedRipe<V(!new)>(s: State<V>, i: nat, t: State<V>, u: State<V>)
    requires i < |s.busy| && s.busy[i].job.Some? && Ripe(s.busy[i], s.clock) && YieldedAt(s, i, t) && i <= |t.busy|
    requires PassedOver(t, i, u)
    ensures PassedOver(s, i, u)
  {
    hide Ripe;
    assert s.busy[i..] == [s.busy[i]] + s.busy[i + 1..];
    assert t.busy[i..] == s.busy[i + 1..] && t.busy[..i] == s.busy[..i];
    assert Yields(t.out) == Yields(s.out) + [s.busy[i].job.value];
  }

  lemma YieldedThere<V(!new)>(s: State<V>, i: nat, t: State<V>)
    requires i < |s.busy| && s.busy[i].job.Some? && YieldedAt(s, i, t)
    ensures |t.busy| == |s.busy| - 1 && t.look == Onward(t.busy, i)
  {
  }

  lemma PassedUnripe<V(!new)>(s: State<V>, i: nat, w: Worker<V>, u: State<V>)
    requires i < |s.busy| && s.busy[i].job.Some? && !Ripe(s.busy[i], s.clock) && w.job == s.busy[i].job
    requires PassedOver(s.(busy := s.busy[i := w], look := Onward(s.busy, i + 1)), i + 1, u)
    ensures PassedOver(s, i, u)
  {
    hide Ripe;
    var busy := s.busy[i := w];
    assert s.busy[i..] == [s.busy[i]] + s.busy[i + 1..];
    assert busy[i + 1..] == s.busy[i + 1..];
    assert Jobs(busy[..i + 1]) == Jobs(s.busy[..i]) + [w.job.value];
  }

  /** A pass of the parent, with nothing else happening. */
  lemma {:induction false} PassEnds<V(!new)>(s: State<V>, i: nat, n: nat, count: nat) returns (run: seq<State<V>>)
    requires Inv(s, n, count) && i <= |s.busy| && s.look == Onward(s.busy, i)
    ensures ParentRun(run, s) && PassedOver(s, i, run[|run| - 1])
    decreases |s.busy| - i
  {
    if i == |s.busy| {
      run := [s];
      assert s.busy[..i] == s.busy;
    } else {
      BusyOnJob(s, i, n, count);
      assert s.look == Reading(i);
      hide Inv, ParentRun, Ripe, PassedOver, YieldedAt, Onward;
      var first, rest, w;
      if Ripe(s.busy[i], s.clock) {
        first := RipeEnds(s, i, n, count);
        YieldedThere(s, i, first[|first| - 1]);
        ParentRunKeeps(first, s, n, count);
        rest := PassEnds(first[|first| - 1], i, n, count);
        PassedRipe(s, i, first[|first| - 1], rest[|rest| - 1]);
      } else {
        first, w := UnripeStays(s, i, n, count);
        ParentRunKeeps(first, s, n, count);
        rest := PassEnds(first[|first| - 1], i + 1, n, count);
        PassedUnripe(s, i, w, rest[|rest| - 1]);
      }
      ParentOn(first, s, rest);
      run := first + rest[1..];
    }
  }

  lemma BusyOnJob<V(!new)>(s: State<V>, i: nat, n: nat, count: nat)
    requires Inv(s, n, count) && i < |s.busy|
    ensures s.busy[i].job.Some?
  {
    assert OnJob(s.busy[i]);
  }

  // ----- the loop ends

  /** The loop is over: it raised, or nothing is queued or running. */
  predicate Over<V>(s: State<V>) {
    s.failed || (s.todo == [] && s.busy == [])
  }

  /** The parent is not waiting. */
  ghost predicate Enabled<V(!new)>(s: State<V>) {
    s.look != Resting || (s.idle != [] && s.todo != []) || Called(s)
  }

  /** While the loop runs the parent can move unless it waits: it has handed out what it can, and no
      busy worker has said anything, died or run past a deadline. */
  lemma AlwaysMoves<V(!new)>(s: State<V>, n: nat, count: nat)
    requires Inv(s, n, count) && count > 0 && !Over(s)
    ensures (exists t :: ParentStep(s, t)) <==> Enabled(s)
    ensures !Enabled(s) ==> s.busy != [] && forall i {:trigger s.busy[i]} :: 0 <= i < |s.busy| ==>
              s.busy[i].alive && s.busy[i].pipe == [] && (s.busy[i].until.Some? ==> s.clock < s.busy[i].until.value)
  {
    hide OnJob, Quiet, Partition;
    match s.look
    case Resting =>
      if s.idle != [] && s.todo != [] {
        assert ParentStep(s, Started(s));
      } else if Called(s) {
        assert ParentStep(s, s.(look := Reading(0)));
      } else {
        forall i {:trigger s.busy[i]} | 0 <= i < |s.busy| ensures !Calls(s.busy[i], s.clock) {
        }
      }
    case Reading(i) =>
      assert OnJob(s.busy[i]);
      LooksOn(s, i);
    case Asking(i) =>
      assert OnJob(s.busy[i]);
      LooksOn(s, i);
    case Timing(i) =>
      assert OnJob(s.busy[i]);
      LooksOn(s, i);
  }

  lemma LooksOn<V(!new)>(s: State<V>, i: nat)
    requires i < |s.busy| && OnJob(s.busy[i]) && (s.look == Reading(i) || s.look == Asking(i) || s.look == Timing(i))
    ensures exists t :: ParentStep(s, t)
  {
    hide OnJob;
    assert s.busy[i].job.Some? by {
      OnSome(s.busy[i]);
    }
    match s.look
    case Reading(_) =>
      assert ParentStep(s, if s.busy[i].pipe == [] then s.(look := Asking(i)) else Read(s, i));
    case Asking(_) =>
      assert ParentStep(s, if s.busy[i].alive then s.(look := Timing(i))
                           else Ended(s, i, s.busy[i], Failure(Died), None));
    case Timing(_) =>
      assert ParentStep(s, if s.busy[i].until.None? || s.clock < s.busy[i].until.value
                           then s.(look := Onward(s.busy, i + 1)) else Killed(s, i));
  }

  lemma OnSome<V(!new)>(w: Worker<V>)
    requires OnJob(w)
    ensures w.job.Some?
  {
  }

  /** Turn `k` of an endless run: a step while the loop runs, and nothing once it is over. */
  ghost predicate Turn<V(!new)>(run: nat -> State<V>, k: nat) {
    if Over(run(k)) then run(k + 1) == run(k) else Step(run(k), run(k + 1))
  }

  ghost predicate Endless<V(!new)>(run: nat -> State<V>, n: nat, count: nat) {
    Init(run(0), n, count) && forall k: nat :: Turn(run, k)
  }

  /** At `l`, not before `k`, the parent moves, waits or has left the loop. */
  ghost predicate Chance<V(!new)>(run: nat -> State<V>, k: nat, l: nat) {
    k <= l && (Over(run(l)) || !Enabled(run(l)) || ParentStep(run(l), run(l + 1)))
  }

  /** A parent that does not wait moves at some time: nothing holds it up for ever. */
  ghost predicate Fair<V(!new)>(run: nat -> State<V>) {
    forall k: nat :: ChanceFrom(run, k)
  }

  ghost predicate ChanceFrom<V(!new)>(run: nat -> State<V>, k: nat) {
    exists l: nat :: Chance(run, k, l)
  }

  ghost predicate Reaches<V(!new)>(run: nat -> State<V>, time: int, l: nat) {
    Over(run(l)) || run(l).clock >= time
  }

  /** The clock passes every time. */
  ghost predicate TimePasses<V(!new)>(run: nat -> State<V>) {
    forall time: int :: Reached(run, time)
  }

  ghost predicate Reached<V(!new)>(run: nat -> State<V>, time: int) {
    exists l: nat :: Reaches(run, time, l)
  }

  /** The parent will not wait for ever for this worker: it has sent its job's end, is dead, or its last
      word was a deadline. */
  predicate Owed<V>(w: Worker<V>) {
    || !w.alive
    || (if w.pipe == [] then w.until.Some? else
          var last := w.pipe[|w.pipe| - 1].body; last.Done? || last.seconds > 0)
  }

  /** At `l` the worker running job `j`, if there is one, is owed and says no more. */
  ghost predicate Finishing<V(!new)>(run: nat -> State<V>, j: nat, l: nat) {
    forall i: nat :: i < |run(l).busy| && run(l).busy[i].job == Some(j) ==> Finished(run(l), run(l + 1), i)
  }

  predicate AllFinished<V>(s: State<V>, t: State<V>) {
    forall i: nat :: i < |s.busy| ==> Finished(s, t, i)
  }

  predicate Finished<V>(s: State<V>, t: State<V>, i: nat) {
    i < |s.busy| && Owed(s.busy[i]) && !Speaks(s, t, i)
  }

  predicate Speaks<V>(s: State<V>, t: State<V>, i: nat) {
    i < |s.busy| && i < |t.busy| && t.busy[i].job == s.busy[i].job && |t.busy[i].pipe| > |s.busy[i].pipe|
  }

  ghost predicate FinishingFrom<V(!new)>(run: nat -> State<V>, j: nat, m: nat) {
    forall l: nat :: m <= l ==> Finishing(run, j, l)
  }

  predicate Runs<V>(s: State<V>, j: nat) {
    exists i {:trigger s.busy[i]} :: 0 <= i < |s.busy| && s.busy[i].job == Some(j)
  }

  /** Job `j`, if it is ever run, from some time on has sent its end, is dead, or has armed a deadline
      and hangs. */
  ghost predicate Finishes<V(!new)>(run: nat -> State<V>, j: nat) {
    (exists k: nat :: Runs(run(k), j)) ==> exists m: nat :: FinishingFrom(run, j, m)
  }

  lemma {:induction false} EndlessSafe<V(!new)>(run: nat -> State<V>, n: nat, count: nat, k: nat)
    requires Endless(run, n, count)
    ensures Inv(run(k), n, count)
  {
    hide Inv, Step;
    if k == 0 {
      InitHolds(run(0), n, count);
    } else {
      EndlessSafe(run, n, count, k - 1);
      assert Turn(run, k - 1);
      if !Over(run(k - 1)) {
        StepKeeps(run(k - 1), run(k), n, count);
      }
    }
  }

  lemma {:induction false} AllFinishing<V(!new)>(run: nat -> State<V>, n: nat) returns (m: nat)
    requires forall j: nat :: j < n ==> Finishes(run, j)
    ensures forall j: nat :: j < n ==> FinishingFrom(run, j, m)
  {
    if n == 0 {
      m := 0;
    } else {
      var before := AllFinishing(run, n - 1);
      var mine := OneFinishing(run, n - 1);
      m := if before > mine then before else mine;
      forall j: nat | j < n ensures FinishingFrom(run, j, m) {
        var from := if j < n - 1 then before else mine;
        assert FinishingFrom(run, j, from) && from <= m;
      }
    }
  }

  lemma OneFinishing<V(!new)>(run: nat -> State<V>, j: nat) returns (m: nat)
    requires Finishes(run, j)
    ensures FinishingFrom(run, j, m)
  {
    if k: nat :| Runs(run(k), j) {
      m :| FinishingFrom(run, j, m);
    } else {
      m := 0;
      forall l: nat | 0 <= l ensures Finishing(run, j, l) {
        assert !Runs(run(l), j);
      }
    }
  }

  predicate Falls(f: nat -> nat, k: nat) {
    f(k + 1) <= f(k)
  }

  /** What never rises settles. */
  lemma {:induction false} Levels(f: nat -> nat, k: nat) returns (m: nat)
    requires forall l: nat :: k <= l ==> Falls(f, l)
    ensures k <= m && forall l: nat {:trigger f(l)} :: m <= l ==> f(l) == f(m)
    decreases f(k)
  {
    if l: nat :| k <= l && f(l) != f(k) {
      Falling(f, k, l);
      m := Levels(f, l);
    } else {
      m := k;
    }
  }

  lemma {:induction false} Falling(f: nat -> nat, k: nat, l: nat)
    requires k <= l && forall i: nat :: k <= i ==> Falls(f, i)
    ensures f(l) <= f(k)
    decreases l
  {
    if k < l {
      Falling(f, k, l - 1);
      assert Falls(f, l - 1);
    }
  }

  /** The messages not yet read. */
  function Unread<V>(busy: seq<Worker<V>>): nat {
    if busy == [] then 0 else |busy[0].pipe| + Unread(busy[1..])
  }

  lemma {:induction false} UnreadSwap<V>(busy: seq<Worker<V>>, i: nat, v: Worker<V>)
    requires i < |busy|
    ensures Unread(busy[i := v]) == Unread(busy) - |busy[i].pipe| + |v.pipe|
  {
    if i == 0 {
      assert busy[0 := v][1..] == busy[1..];
    } else {
      assert busy[i := v][1..] == busy[1..][i - 1 := v];
      UnreadSwap(busy[1..], i - 1, v);
    }
  }

  function Deadlines<V>(busy: seq<Worker<V>>): (r: seq<Option<int>>)
    ensures |r| == |busy| && forall i {:trigger r[i]} :: 0 <= i < |busy| ==> r[i] == busy[i].until
  {
    seq(|busy|, i requires 0 <= i < |busy| => busy[i].until)
  }

  function Latest(untils: seq<Option<int>>): (time: int)
    ensures forall i {:trigger untils[i]} :: 0 <= i < |untils| ==> untils[i].Some? ==> untils[i].value <= time
  {
    if untils == [] then 0 else
      var before := Latest(untils[..|untils| - 1]);
      var last := untils[|untils| - 1];
      if last.Some? && last.value > before then last.value else before
  }

  /** How many more looks until the parent reads a message or ends a job, where every worker calls. */
  function Stage<V>(s: State<V>): nat {
    match s.look
    case Resting => 3
    case Reading(_) => 2
    case Asking(i) => if i < |s.busy| && s.busy[i].pipe != [] then 5 else 1
    case Timing(i) =>
      if i < |s.busy| && s.busy[i].pipe == [] && s.busy[i].until.Some? && s.busy[i].until.value <= s.clock then 0 else 4
  }

  /** A step between two starts or ends, by workers that say no more: it adds no message. */
  lemma QuietStep<V(!new)>(s: State<V>, t: State<V>, n: nat, count: nat)
    requires Inv(s, n, count) && Step(s, t) && !t.failed && Left(t) == Left(s)
    requires forall i: nat :: i < |s.busy| ==> !Speaks(s, t, i)
    ensures |t.busy| == |s.busy| && s.clock <= t.clock
    ensures Unread(t.busy) <= Unread(s.busy)
    ensures Unread(t.busy) == Unread(s.busy) ==> Deadlines(t.busy) == Deadlines(s.busy)
    ensures Unread(t.busy) == Unread(s.busy) && !ParentStep(s, t) ==> Stage(t) <= Stage(s)
  {
    hide Unread, OnJob;
    if ParentStep(s, t) {
      hide OutsideStep;
      if t.busy != s.busy {
        var i := s.look.at;
        assert t == Read(s, i);
        UnreadSwap(s.busy, i, t.busy[i]);
      }
    } else {
      hide ParentStep;
      QuietOutside(s, t);
    }
  }

  lemma QuietOutside<V(!new)>(s: State<V>, t: State<V>)
    requires OutsideStep(s, t)
    requires forall i: nat :: i < |s.busy| ==> !Speaks(s, t, i)
    ensures |t.busy| == |s.busy| && s.clock <= t.clock && Deadlines(t.busy) == Deadlines(s.busy)
    ensures Unread(t.busy) == Unread(s.busy) && Stage(t) <= Stage(s)
  {
    hide Unread, WorkerStep;
    if i: nat, v :| i < |s.busy| && WorkerStep(s.busy[i], v) && t == s.(busy := s.busy[i := v]) {
      WorkerKeeps(s.busy[i], v);
      assert !Speaks(s, t, i);
      UnreadSwap(s.busy, i, v);
      assert Deadlines(t.busy) == Deadlines(s.busy);
    }
  }

  /** Where every busy worker calls, the parent comes nearer to reading a message, a start or an end. */
  lemma Nearer<V(!new)>(s: State<V>, t: State<V>)
    requires ParentStep(s, t) && !t.failed && Left(t) == Left(s) && Unread(t.busy) == Unread(s.busy)
    requires forall i {:trigger s.busy[i]} :: 0 <= i < |s.busy| ==> Calls(s.busy[i], s.clock)
    requires |t.busy| == |s.busy|
    ensures Stage(t) < Stage(s)
  {
    hide Unread;
    if s.look.Reading? && s.busy[s.look.at].pipe != [] {
      UnreadSwap(s.busy, s.look.at, t.busy[s.look.at]);
    }
  }

  // The times of a run that never ends: from each on, one more thing never changes.

  /** From `m` on no job is started or ended, by workers that are owed and say no more. */
  ghost predicate Stalled<V(!new)>(run: nat -> State<V>, n: nat, count: nat, l: nat) {
    && Inv(run(l), n, count) && Step(run(l), run(l + 1)) && !Over(run(l)) && !Over(run(l + 1))
    && Left(run(l + 1)) == Left(run(l))
    && AllFinished(run(l), run(l + 1))
  }

  lemma Stalls<V(!new)>(run: nat -> State<V>, n: nat, count: nat) returns (m: nat)
    requires Endless(run, n, count) && forall j: nat :: j < n ==> Finishes(run, j)
    requires forall k: nat :: !Over(run(k))
    ensures forall l: nat :: m <= l ==> Stalled(run, n, count, l)
  {
    hide Inv, Step, Finished, Left, Finishes, Over, Init;
    var from := AllFinishing(run, n);
    var left := (k: nat) => Left(run(k));
    forall l: nat | from <= l ensures Falls(left, l) {
      assert Turn(run, l);
      LeftFalls(run(l), run(l + 1));
    }
    m := Levels(left, from);
    forall l: nat | m <= l ensures Stalled(run, n, count, l) {
      assert !Over(run(l)) && !Over(run(l + 1)) && Turn(run, l);
      assert Left(run(l)) == left(l) == left(m) == left(l + 1) == Left(run(l + 1));
      StalledAt(run, n, count, from, l);
    }
  }

  lemma StalledAt<V(!new)>(run: nat -> State<V>, n: nat, count: nat, from: nat, l: nat)
    requires Endless(run, n, count) && from <= l && forall j: nat :: j < n ==> FinishingFrom(run, j, from)
    requires !Over(run(l)) && !Over(run(l + 1)) && Left(run(l + 1)) == Left(run(l))
    ensures Stalled(run, n, count, l)
  {
    hide Inv, Step, Finished, Left, Over, Init;
    EndlessSafe(run, n, count, l);
    assert Turn(run, l);
    var s, t := run(l), run(l + 1);
    forall i: nat | i < |s.busy| ensures Finished(s, t, i) {
      HasJob(s, i, n, count);
      var j := s.busy[i].job.value;
      assert FinishingFrom(run, j, from) && Finishing(run, j, l);
    }
  }

  lemma HasJob<V(!new)>(s: State<V>, i: nat, n: nat, count: nat)
    requires Inv(s, n, count) && i < |s.busy|
    ensures s.busy[i].job.Some? && s.busy[i].job.value < n
  {
    assert OnJob(s.busy[i]);
    var jobs := Jobs(s.busy);
    assert jobs[i] in multiset(jobs);
    assert multiset(Range(n))[jobs[i]] > 0;
    RangeOnce(n, jobs[i]);
  }

  /** And no message is read. */
  ghost predicate Mute<V(!new)>(run: nat -> State<V>, n: nat, count: nat, l: nat) {
    && Stalled(run, n, count, l)
    && Unread(run(l + 1).busy) == Unread(run(l).busy)
  }

  lemma Mutes<V(!new)>(run: nat -> State<V>, n: nat, count: nat, k: nat) returns (m: nat)
    requires forall l: nat :: k <= l ==> Stalled(run, n, count, l)
    ensures k <= m && forall l: nat :: m <= l ==> Mute(run, n, count, l)
  {
    hide Stalled, Unread;
    var unread := (l: nat) => Unread(run(l).busy);
    forall l: nat | k <= l ensures Falls(unread, l) {
      StalledTurn(run, n, count, l);
    }
    m := Levels(unread, k);
    forall l: nat | m <= l ensures Mute(run, n, count, l) {
      assert unread(l) == unread(m) == unread(l + 1);
    }
  }

  lemma StalledTurn<V(!new)>(run: nat -> State<V>, n: nat, count: nat, l: nat)
    requires Stalled(run, n, count, l)
    ensures var s, t := run(l), run(l + 1);
      && |t.busy| == |s.busy| && s.clock <= t.clock && Unread(t.busy) <= Unread(s.busy)
      && (Unread(t.busy) == Unread(s.busy) ==>
            Deadlines(t.busy) == Deadlines(s.busy) && (!ParentStep(s, t) ==> Stage(t) <= Stage(s)))
  {
    hide Inv, Step, ParentStep, Unread, Stage, Owed, Left;
    var s, t := run(l), run(l + 1);
    forall i: nat | i < |s.busy| ensures !Speaks(s, t, i) {
      assert Finished(s, t, i);
    }
    QuietStep(s, t, n, count);
  }

  /** And every busy worker calls. */
  ghost predicate AllCall<V(!new)>(run: nat -> State<V>, n: nat, count: nat, l: nat) {
    && Mute(run, n, count, l)
    && forall i {:trigger run(l).busy[i]} :: 0 <= i < |run(l).busy| ==> Calls(run(l).busy[i], run(l).clock)
  }

  lemma AllWillCall<V(!new)>(run: nat -> State<V>, n: nat, count: nat, k: nat) returns (m: nat)
    requires Endless(run, n, count) && TimePasses(run) && forall k: nat :: !Over(run(k))
    requires forall l: nat :: k <= l ==> Mute(run, n, count, l)
    ensures k <= m && forall l: nat :: m <= l ==> AllCall(run, n, count, l)
  {
    hide Mute, TimePasses, Calls, Endless, Over;
    m := TimeReached(run, n, count, k, Latest(Deadlines(run(k).busy)));
    forall l: nat | m <= l ensures AllCall(run, n, count, l) {
      Lasting(run, n, count, m, l);
      Lasting(run, n, count, k, l);
      forall i {:trigger run(l).busy[i]} | 0 <= i < |run(l).busy| ensures Calls(run(l).busy[i], run(l).clock) {
        OwedCalls(run, n, count, l, i);
        assert Deadlines(run(l).busy)[i] == run(l).busy[i].until;
      }
    }
  }

  lemma OwedCalls<V(!new)>(run: nat -> State<V>, n: nat, count: nat, l: nat, i: nat)
    requires Mute(run, n, count, l) && i < |run(l).busy|
    ensures run(l).busy[i].until.Some? && run(l).busy[i].until.value <= run(l).clock ==>
        Calls(run(l).busy[i], run(l).clock)
    ensures run(l).busy[i].until.None? ==> Calls(run(l).busy[i], run(l).clock)
  {
    assert Finished(run(l), run(l + 1), i);
  }

  lemma TimeReached<V(!new)>(run: nat -> State<V>, n: nat, count: nat, k: nat, time: int) returns (m: nat)
    requires Endless(run, n, count) && TimePasses(run) && forall k: nat :: !Over(run(k))
    ensures k <= m && run(m).clock >= time
  {
    assert Reached(run, time);
    var l: nat :| Reaches(run, time, l);
    m := if l < k then k else l;
    ClockRises(run, n, count, l, m);
  }

  lemma {:induction false} ClockRises<V(!new)>(run: nat -> State<V>, n: nat, count: nat, k: nat, l: nat)
    requires Endless(run, n, count) && k <= l
    ensures run(k).clock <= run(l).clock
    decreases l
  {
    if k < l {
      ClockRises(run, n, count, k, l - 1);
      assert Turn(run, l - 1);
    }
  }

  lemma {:induction false} Lasting<V(!new)>(run: nat -> State<V>, n: nat, count: nat, k: nat, l: nat)
    requires k <= l && forall i: nat :: k <= i ==> Mute(run, n, count, i)
    ensures Deadlines(run(l).busy) == Deadlines(run(k).busy) && run(k).clock <= run(l).clock
    decreases l
  {
    hide Stalled, Unread;
    if k < l {
      Lasting(run, n, count, k, l - 1);
      assert Mute(run, n, count, l - 1);
      StalledTurn(run, n, count, l - 1);
    }
  }

  /** The loop ends: with a worker at all, a parent that nothing holds up, a clock that passes every
      time, and jobs of which each ends, dies or hangs under a deadline, every endless run comes to a
      state where the loop raised or has yielded every task once. */
  lemma Terminates<V(!new)>(run: nat -> State<V>, n: nat, count: nat) returns (k: nat)
    requires Endless(run, n, count) && count > 0
    requires Fair(run) && TimePasses(run)
    requires forall j: nat :: j < n ==> Finishes(run, j)
    ensures run(k).failed || (run(k).todo == [] && run(k).busy == [] && EachOnce(run(k), n))
  {
    hide Endless, Fair, TimePasses, Finishes, EachOnce, Inv;
    if over: nat :| Over(run(over)) {
      k := over;
      EndlessSafe(run, n, count, k);
      WholeIsOnce(run(k), n, count);
    } else {
      var stalled := Stalls(run, n, count);
      var mute := Mutes(run, n, count, stalled);
      var calling := AllWillCall(run, n, count, mute);
      NoEndlessLook(run, n, count, calling);
    }
  }

  lemma NoEndlessLook<V(!new)>(run: nat -> State<V>, n: nat, count: nat, k: nat)
    requires Fair(run) && count > 0
    ensures !forall l: nat :: k <= l ==> AllCall(run, n, count, l)
  {
    hide AllCall, ParentStep, Stage, Over;
    if forall l: nat :: k <= l ==> AllCall(run, n, count, l) {
      var stage := (l: nat) => Stage(run(l));
      forall l: nat | k <= l ensures Falls(stage, l) {
        Looks(run, n, count, l);
      }
      var m := Levels(stage, k);
      assert ChanceFrom(run, m);
      var l: nat :| Chance(run, m, l);
      Looks(run, n, count, l);
      assert stage(l) == stage(m) == stage(l + 1);
    }
  }

  /** Where nothing starts or ends, no message is read and every busy worker calls, the parent is not
      waiting, and each of its steps brings it nearer to what it does not do. */
  lemma Looks<V(!new)>(run: nat -> State<V>, n: nat, count: nat, l: nat)
    requires AllCall(run, n, count, l) && count > 0
    ensures !Over(run(l)) && Enabled(run(l))
    ensures Stage(run(l + 1)) <= Stage(run(l))
    ensures ParentStep(run(l), run(l + 1)) ==> Stage(run(l + 1)) < Stage(run(l))
  {
    hide ParentStep, Stage, Inv, Step, Unread, Owed, Speaks;
    StalledTurn(run, n, count, l);
    EnabledThen(run(l), n, count);
    if ParentStep(run(l), run(l + 1)) {
      Nearer(run(l), run(l + 1));
    }
  }

  lemma EnabledThen<V(!new)>(s: State<V>, n: nat, count: nat)
    requires Inv(s, n, count) && count > 0 && !Over(s)
    requires forall i {:trigger s.busy[i]} :: 0 <= i < |s.busy| ==> Calls(s.busy[i], s.clock)
    ensures Enabled(s)
  {
    if s.busy != [] {
      assert Calls(s.busy[0], s.clock);
    }
  }

  /** The one worker takes the first task and says nothing for ever. */
  function HangingAt<V>(s: State<V>, k: nat): State<V>
    requires s.idle != [] && s.todo != []
  {
    if k == 0 then s else Started(s).(clock := s.clock + k - 1)
  }

  function Hanging<V>(s: State<V>): nat -> State<V>
    requires s.idle != [] && s.todo != []
  {
    (k: nat) => HangingAt(s, k)
  }

  /** One job that neither ends, dies nor arms a deadline keeps the loop for ever: the parent waits, and
      nothing else is missing. */
  lemma UnarmedHangs<V(!new)>(s: State<V>, n: nat)
    requires Init(s, n, 1) && n > 0 && 0 !in s.unsendable
    ensures var run := Hanging(s);
      && Endless(run, n, 1) && Fair(run) && TimePasses(run)
      && (forall j: nat :: 0 < j < n ==> Finishes(run, j)) && !Finishes(run, 0)
      && forall k: nat :: !Over(run(k))
  {
    hide Turn, Chance, Over, Finishes, Reaches, Started;
    var run := Hanging(s);
    forall k: nat ensures Turn(run, k) && ChanceFrom(run, k) && !Over(run(k)) {
      HangingTurn(s, n, k);
      assert Chance(run, k, k + 1);
    }
    forall time: int ensures Reached(run, time) {
      HangingTime(s, n, time);
    }
    HangingJobs(s, n);
    assert run(0) == s;
  }

  lemma HangingWorker<V(!new)>(s: State<V>, n: nat, k: nat)
    requires Init(s, n, 1) && n > 0 && 0 !in s.unsendable && k > 0
    ensures var t := HangingAt(s, k);
      && !t.failed && t.look == Resting && t.idle == [] && |t.busy| == 1 && t.clock == s.clock + k - 1
      && t.busy[0].job == Some(0) && t.busy[0].pipe == [] && t.busy[0].alive && t.busy[0].until.None?
  {
    assert s.idle[0] == Spawned<V>() && s.todo[0] == 0;
  }

  lemma HangingTurn<V(!new)>(s: State<V>, n: nat, k: nat)
    requires Init(s, n, 1) && n > 0 && 0 !in s.unsendable
    ensures var run := Hanging(s); Turn(run, k) && Chance(run, k, k + 1) && !Over(run(k))
  {
    var run := Hanging(s);
    HangingWorker(s, n, k + 1);
    if k > 0 {
      hide Started, Init;
      HangingWorker(s, n, k);
      var t := run(k);
      assert run(k + 1) == t.(clock := t.clock + 1);
      assert OutsideStep(t, t.(clock := t.clock + 1));
    } else {
      assert run(1) == Started(s);
      assert ParentStep(run(0), run(1));
    }
  }

  lemma HangingTime<V(!new)>(s: State<V>, n: nat, time: int)
    requires Init(s, n, 1) && n > 0 && 0 !in s.unsendable
    ensures Reached(Hanging(s), time)
  {
    var l: nat := if time > s.clock then time - s.clock + 1 else 1;
    HangingWorker(s, n, l);
    assert Reaches(Hanging(s), time, l);
  }

  lemma HangingJobs<V(!new)>(s: State<V>, n: nat)
    requires Init(s, n, 1) && n > 0 && 0 !in s.unsendable
    ensures var run := Hanging(s); (forall j: nat :: 0 < j < n ==> Finishes(run, j)) && !Finishes(run, 0)
  {
    hide HangingAt, Started;
    var run := Hanging(s);
    forall k: nat, j: nat ensures Runs(run(k), j) <==> k > 0 && j == 0 {
      HangingRuns(s, n, k, j);
    }
    assert Runs(run(1), 0);
    forall m: nat ensures !FinishingFrom(run, 0, m) {
      HangingWorker(s, n, m + 1);
      assert run(m + 1).busy[0].job == Some(0);
      assert !Finishing(run, 0, m + 1);
    }
  }

  lemma HangingRuns<V(!new)>(s: State<V>, n: nat, k: nat, j: nat)
    requires Init(s, n, 1) && n > 0 && 0 !in s.unsendable
    ensures Runs(HangingAt(s, k), j) <==> k > 0 && j == 0
  {
    if k > 0 {
      HangingWorker(s, n, k);
      assert HangingAt(s, k).busy[0].job == Some(0);
    }
  }

  /** A worker that dies idle is not replaced: the next task sent to it raises, and the loop is over
      with tasks not yielded. */
  lemma DeadIdleRaises<V(!new)>(s: State<V>, n: nat, count: nat)
    requires Init(s, n, count) && n > 0 && count > 0
    ensures var dead := s.(idle := s.idle[count - 1 := Spawned<V>().(alive := false)]);
      Run([s, dead, dead.(failed := true)], n, count) && dead.todo != []
  {
    var v := Spawned<V>().(alive := false);
    assert WorkerStep(s.idle[count - 1], v);
    var dead := s.(idle := s.idle[count - 1 := v]);
    assert OutsideStep(s, dead);
    assert Started(dead) == dead.(failed := true);
    assert ParentStep(dead, dead.(failed := true));
  }

  /** The parent is about to send a task to a worker that is dead, or one that cannot be pickled. */
  predicate SendFails<V(!new)>(s: State<V>) {
    && s.look == Resting && s.idle != [] && s.todo != []
    && (!s.idle[|s.idle| - 1].alive || s.todo[0] in s.unsendable)
  }

  /** The loop raises in a step exactly when the parent sends a task to a dead worker, or one that cannot
      be pickled. */
  lemma RaisesExactly<V(!new)>(s: State<V>, t: State<V>)
    requires Step(s, t)
    ensures t.failed <==> ParentStep(s, t) && SendFails(s)
  {
  }

  ghost predicate AllAlive<V(!new)>(idle: seq<Worker<V>>) {
    forall i {:trigger idle[i]} :: 0 <= i < |idle| ==> idle[i].alive
  }

  /** Between the two states a worker died while it was idle. */
  ghost predicate IdleDeath<V(!new)>(s: State<V>, t: State<V>) {
    exists i {:trigger s.idle[i]} :: 0 <= i < |s.idle| && s.idle[i].alive
      && t == s.(idle := s.idle[i := s.idle[i].(alive := false)])
  }

  /** Workers are alive when they turn idle, so one that is idle and dead died idle. */
  lemma StaysAlive<V(!new)>(s: State<V>, t: State<V>)
    requires Step(s, t) && AllAlive(s.idle) && !IdleDeath(s, t)
    ensures AllAlive(t.idle)
  {
  }

  lemma TodoStays<V(!new)>(s: State<V>, t: State<V>)
    requires Step(s, t)
    ensures t.unsendable == s.unsendable && forall task :: task in t.todo ==> task in s.todo
  {
  }

  /** In every run that raises, a worker died while it was idle, or a task cannot be pickled. */
  lemma {:induction false} RaisesOnlySo<V(!new)>(run: seq<State<V>>, n: nat, count: nat)
    requires Run(run, n, count) && run[|run| - 1].failed
    ensures (exists i, j :: 0 <= i && j == i + 1 < |run| && IdleDeath(run[i], run[j]))
            || exists task: nat :: task < n && task in run[0].unsendable
  {
    if forall i, j :: 0 <= i && j == i + 1 < |run| ==> !IdleDeath(run[i], run[j]) {
      var k := 0;
      while k < |run| - 1 && !run[k + 1].failed
        invariant k < |run| && AllAlive(run[k].idle) && !run[k].failed
        invariant run[k].unsendable == run[0].unsendable && forall task :: task in run[k].todo ==> task < n
      {
        StaysAlive(run[k], run[k + 1]);
        TodoStays(run[k], run[k + 1]);
        k := k + 1;
      }
      RaisesExactly(run[k], run[k + 1]);
      var task := run[k].todo[0];
      assert task in run[k].todo && task in run[0].unsendable;
    }
  }
}
