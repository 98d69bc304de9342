/** `jobs.py`: what a job's result is, over whole runs of the pool, in terms of the messages its worker sent. */
module Results {
  import opened Options
  import opened Jobs

  // ----- the messages sent

  /** In this step the worker at `x` sends a message in job `j`. */
  ghost predicate Says<V(!new)>(s: State<V>, t: State<V>, x: nat, j: nat, body: Body<V>) {
    && x < |s.busy| == |t.busy| && s.busy[x].running == Some(j)
    && t == s.(busy := s.busy[x := t.busy[x]]) && t.busy[x].pipe == s.busy[x].pipe + [Message(j, body)]
  }

  lemma SaysThere<V(!new)>(s: State<V>, t: State<V>, x: nat, j: nat, body: Body<V>)
    requires Says(s, t, x, j, body)
    ensures x < |s.busy| == |t.busy| && |t.busy[x].pipe| == |s.busy[x].pipe| + 1
    ensures t.busy[x].pipe[|s.busy[x].pipe|] == Message(j, body)
    ensures forall y {:trigger t.busy[y]} :: 0 <= y < |t.busy| && y != x ==> t.busy[y] == s.busy[y]
  {
  }

  lemma SaysOne<V(!new)>(s: State<V>, t: State<V>, x: nat, j: nat, body: Body<V>, y: nat, i: nat, other: Body<V>)
    requires Says(s, t, x, j, body) && Says(s, t, y, i, other)
    ensures x == y && j == i && body == other
  {
    SaysThere(s, t, x, j, body);
    SaysThere(s, t, y, i, other);
    hide Says;
  }

  ghost predicate Speaks<V(!new)>(s: State<V>, t: State<V>, j: nat) {
    exists x: nat, body :: Says(s, t, x, j, body)
  }

  /** What the step sends in job `j`. */
  ghost function Said<V(!new)>(s: State<V>, t: State<V>, j: nat): seq<Body<V>> {
    if Speaks(s, t, j) then
      var x: nat, body :| Says(s, t, x, j, body);
      [body]
    else []
  }

  lemma SaidIs<V(!new)>(s: State<V>, t: State<V>, x: nat, j: nat, body: Body<V>, i: nat)
    requires Says(s, t, x, j, body)
    ensures Said(s, t, i) == if i == j then [body] else []
  {
    if Speaks(s, t, i) {
      var y: nat, other :| Says(s, t, y, i, other);
      SaysOne(s, t, x, j, body, y, i, other);
    }
    if i == j {
      assert Speaks(s, t, j);
      var y: nat, other :| Says(s, t, y, j, other) && Said(s, t, j) == [other];
      SaysOne(s, t, x, j, body, y, j, other);
    }
  }

  /** Nothing is sent where no busy worker's messages grow. */
  ghost predicate Silent<V(!new)>(s: State<V>, t: State<V>) {
    |s.busy| == |t.busy| ==> forall x {:trigger s.busy[x]} :: 0 <= x < |s.busy| ==> |t.busy[x].pipe| <= |s.busy[x].pipe|
  }

  lemma SilentSaid<V(!new)>(s: State<V>, t: State<V>, j: nat)
    requires Silent(s, t)
    ensures Said(s, t, j) == []
  {
  }

  /** What was sent in job `j` before state `k`, in order. */
  ghost function Told<V(!new)>(run: seq<State<V>>, k: nat, j: nat): seq<Body<V>>
    requires k < |run|
  {
    if k == 0 then [] else Told(run, k - 1, j) + Said(run[k - 1], run[k], j)
  }

  // ----- what the parent has read

  /** The clock showed `time` at a state before `k`. */
  ghost predicate Showed<V(!new)>(run: seq<State<V>>, k: nat, time: int)
    requires k < |run|
  {
    exists m: nat {:trigger run[m]} :: m < k && run[m].clock == time
  }

  /** How many of its job's messages the parent has read from a worker. */
  ghost function Read<V(!new)>(run: seq<State<V>>, k: nat, w: Worker<V>): int
    requires k < |run| && w.job.Some?
  {
    |Told(run, k, w.job.value)| - |w.pipe|
  }

  /** The worker's pipe holds what it sent in its job and was not read. What was read are deadlines, and the
      last of them is the one the parent keeps, from when it read it. */
  ghost predicate Follows<V(!new)>(run: seq<State<V>>, k: nat, w: Worker<V>)
    requires k < |run| && w.job.Some?
  {
    var told, r := Told(run, k, w.job.value), Read(run, k, w);
    && r >= 0 && (forall m {:trigger told[m]} :: 0 <= m < r ==> told[m].Deadline?)
    && (forall m {:trigger told[m]} :: r <= m < |told| ==> told[m] == w.pipe[m - r].body)
    && if r == 0 then w.until.None? && w.fallback.None?
       else w.fallback == told[r - 1].fallback
            && (if told[r - 1].seconds == 0 then w.until.None?
                else w.until.Some? && Showed(run, k, w.until.value - told[r - 1].seconds))
  }

  /** At a state before `k` the parent looked at the worker at `i`, on job `j`, and found nothing to read after
      `r` messages. */
  ghost predicate Empty<V(!new)>(run: seq<State<V>>, k: nat, i: nat, j: nat, r: int)
    requires k < |run|
  {
    exists p: nat {:trigger run[p]} ::
      && p < k && run[p].look == Reading(i) && i < |run[p].busy| && run[p].busy[i].job == Some(j)
      && run[p].busy[i].pipe == [] && |Told(run, p, j)| == r
  }

  ghost predicate Polled<V(!new)>(run: seq<State<V>>, k: nat, i: nat, w: Worker<V>)
    requires k < |run| && w.job.Some?
  {
    Empty(run, k, i, w.job.value, Read(run, k, w))
  }

  ghost predicate Heard<V(!new)>(run: seq<State<V>>, k: nat)
    requires k < |run|
  {
    var s := run[k];
    && (forall i {:trigger s.busy[i]} :: 0 <= i < |s.busy| ==> s.busy[i].job.Some? && Follows(run, k, s.busy[i]))
    && (forall j {:trigger j in s.todo} :: j in s.todo ==> Told(run, k, j) == [])
    && (match s.look
        case Asking(i) => i < |s.busy| && Polled(run, k, i, s.busy[i])
        case Timing(i) => i < |s.busy| && Polled(run, k, i, s.busy[i])
        case _ => true)
  }

  // ----- one step

  /** The worker's record and messages are the same. */
  predicate Alike<V(==)>(w: Worker<V>, v: Worker<V>) {
    v.job == w.job && v.pipe == w.pipe && v.until == w.until && v.fallback == w.fallback
  }

  lemma ToldSame<V(!new)>(run: seq<State<V>>, k: nat, j: nat)
    requires k + 1 < |run| && Said(run[k], run[k + 1], j) == []
    ensures Told(run, k + 1, j) == Told(run, k, j)
  {
  }

  lemma FollowsOn<V(!new)>(run: seq<State<V>>, k: nat, w: Worker<V>, v: Worker<V>)
    requires k + 1 < |run| && w.job.Some? && Alike(w, v) && Follows(run, k, w)
    requires Told(run, k + 1, w.job.value) == Told(run, k, w.job.value)
    ensures Follows(run, k + 1, v)
  {
    hide Told;
    forall time | Showed(run, k, time) ensures Showed(run, k + 1, time) {
    }
  }

  lemma PolledOn<V(!new)>(run: seq<State<V>>, k: nat, i: nat, w: Worker<V>, v: Worker<V>)
    requires k + 1 < |run| && w.job.Some? && v.job == w.job && Polled(run, k, i, w)
    requires Read(run, k + 1, v) == Read(run, k, w)
    ensures Polled(run, k + 1, i, v)
  {
    hide Told, Read;
  }

  /** Jobs in hand differ, and are not queued. */
  lemma Apart<V(!new)>(s: State<V>, n: nat, count: nat)
    requires Inv(s, n, count)
    ensures forall x, y {:trigger s.busy[x], s.busy[y]} :: 0 <= x < y < |s.busy| ==> s.busy[x].job != s.busy[y].job
    ensures forall x {:trigger s.busy[x]} :: 0 <= x < |s.busy| ==> s.busy[x].job.Some? && s.busy[x].job.value !in s.todo
  {
    var jobs := Jobs.Jobs(s.busy);
    assert multiset(s.todo + jobs) == multiset(s.todo) + multiset(jobs);
    NoRepeats(s.todo + jobs, multiset(Yields(s.out)), n);
    forall x {:trigger s.busy[x]} | 0 <= x < |s.busy| ensures s.busy[x].job.Some? && s.busy[x].job.value !in s.todo {
      assert OnJob(s.busy[x]) && jobs[x] == s.busy[x].job.value;
      forall i {:trigger s.todo[i]} | 0 <= i < |s.todo| ensures s.todo[i] != jobs[x] {
        assert (s.todo + jobs)[i] == s.todo[i] && (s.todo + jobs)[|s.todo| + x] == jobs[x];
      }
    }
    forall x, y {:trigger s.busy[x], s.busy[y]} | 0 <= x < y < |s.busy| ensures s.busy[x].job != s.busy[y].job {
      assert OnJob(s.busy[x]) && OnJob(s.busy[y]);
      assert (s.todo + jobs)[|s.todo| + x] == jobs[x] && (s.todo + jobs)[|s.todo| + y] == jobs[y];
    }
  }

  /** A step in which nobody speaks and every busy worker keeps its record and messages. */
  ghost predicate Calm<V(!new)>(s: State<V>, t: State<V>) {
    && t.todo == s.todo && |t.busy| == |s.busy|
    && forall x {:trigger s.busy[x]} {:trigger t.busy[x]} :: 0 <= x < |s.busy| ==> Alike(s.busy[x], t.busy[x])
  }

  lemma CalmHeard<V(!new)>(run: seq<State<V>>, k: nat)
    requires k + 1 < |run| && Heard(run, k) && Calm(run[k], run[k + 1])
    requires var s, t := run[k], run[k + 1];
      t.look == s.look || t.look.Reading? || t.look.Resting?
      || (s.look.Reading? && t.look == Asking(s.look.at) && s.look.at < |s.busy| && s.busy[s.look.at].pipe == [])
      || (s.look.Asking? && t.look == Timing(s.look.at))
    ensures Heard(run, k + 1)
  {
    var s, t := run[k], run[k + 1];
    forall j: nat ensures Told(run, k + 1, j) == Told(run, k, j) {
      SilentSaid(s, t, j);
      ToldSame(run, k, j);
    }
    hide Told, Follows;
    forall i {:trigger t.busy[i]} | 0 <= i < |t.busy| ensures t.busy[i].job.Some? && Follows(run, k + 1, t.busy[i]) {
      FollowsOn(run, k, s.busy[i], t.busy[i]);
    }
    match t.look
    case Reading(_) =>
    case Resting =>
    case Asking(i) =>
      if s.look.Reading? {
        assert run[k].look == Reading(i);
      } else {
        PolledOn(run, k, i, s.busy[i], t.busy[i]);
      }
    case Timing(i) => PolledOn(run, k, i, s.busy[i], t.busy[i]);
  }

  /** A worker says something in its job. */
  lemma SaidHeard<V(!new)>(run: seq<State<V>>, k: nat, x: nat, j: nat, body: Body<V>, n: nat, count: nat)
    requires k + 1 < |run| && Heard(run, k) && Inv(run[k], n, count) && Says(run[k], run[k + 1], x, j, body)
    requires run[k].busy[x].job == Some(j)
    requires Alike(run[k].busy[x].(pipe := run[k + 1].busy[x].pipe), run[k + 1].busy[x])
    ensures Heard(run, k + 1)
  {
    var s, t := run[k], run[k + 1];
    Apart(s, n, count);
    forall i: nat ensures Told(run, k + 1, i) == Told(run, k, i) + if i == j then [body] else [] {
      SaidIs(s, t, x, j, body, i);
    }
    hide Told, Says, Inv;
    forall i {:trigger t.busy[i]} | 0 <= i < |t.busy|
      ensures t.busy[i].job.Some? && Follows(run, k + 1, t.busy[i])
      ensures Read(run, k + 1, t.busy[i]) == Read(run, k, s.busy[i])
    {
      if i == x {
        FollowsSaid(run, k, s.busy[x], t.busy[x], body);
      } else {
        assert t.busy[i] == s.busy[i];
        FollowsOn(run, k, s.busy[i], t.busy[i]);
      }
    }
    hide Follows, Read;
    match t.look
    case Reading(_) =>
    case Resting =>
    case Asking(i) => PolledOn(run, k, i, s.busy[i], t.busy[i]);
    case Timing(i) => PolledOn(run, k, i, s.busy[i], t.busy[i]);
  }

  lemma FollowsSaid<V(!new)>(run: seq<State<V>>, k: nat, w: Worker<V>, v: Worker<V>, body: Body<V>)
    requires k + 1 < |run| && w.job.Some? && Follows(run, k, w)
    requires v.pipe == w.pipe + [Message(w.job.value, body)] && Alike(w.(pipe := v.pipe), v)
    requires Told(run, k + 1, w.job.value) == Told(run, k, w.job.value) + [body]
    ensures Follows(run, k + 1, v) && Read(run, k + 1, v) == Read(run, k, w)
  {
    hide Told;
    forall time | Showed(run, k, time) ensures Showed(run, k + 1, time) {
    }
  }

  /** The parent reads a deadline. */
  lemma ReadHeard<V(!new)>(run: seq<State<V>>, k: nat, i: nat, n: nat, count: nat)
    requires k + 1 < |run| && Heard(run, k) && Inv(run[k], n, count) && run[k].look == Reading(i) && i < |run[k].busy|
    requires run[k].busy[i].pipe != [] && run[k].busy[i].pipe[0].body.Deadline? && run[k + 1] == Jobs.Read(run[k], i)
    ensures Heard(run, k + 1)
  {
    var s, t := run[k], run[k + 1];
    forall j: nat ensures Told(run, k + 1, j) == Told(run, k, j) {
      SilentSaid(s, t, j);
      ToldSame(run, k, j);
    }
    hide Told, Inv;
    forall x {:trigger t.busy[x]} | 0 <= x < |t.busy| ensures t.busy[x].job.Some? && Follows(run, k + 1, t.busy[x]) {
      if x == i {
        FollowsRead(run, k, i);
      } else {
        FollowsOn(run, k, s.busy[x], t.busy[x]);
      }
    }
  }

  lemma FollowsRead<V(!new)>(run: seq<State<V>>, k: nat, i: nat)
    requires k + 1 < |run| && i < |run[k].busy| && run[k].busy[i].job.Some? && Follows(run, k, run[k].busy[i])
    requires run[k].busy[i].pipe != [] && run[k].busy[i].pipe[0].body.Deadline? && run[k + 1] == Jobs.Read(run[k], i)
    requires Told(run, k + 1, run[k].busy[i].job.value) == Told(run, k, run[k].busy[i].job.value)
    ensures run[k + 1].busy[i].job == run[k].busy[i].job && Follows(run, k + 1, run[k + 1].busy[i])
  {
    hide Told;
    var w, v := run[k].busy[i], run[k + 1].busy[i];
    var told, r := Told(run, k, w.job.value), Read(run, k, w);
    assert told[r] == w.pipe[0].body && Read(run, k + 1, v) == r + 1;
    assert run[k].clock == run[k].clock + told[r].seconds - told[r].seconds;
    assert Showed(run, k + 1, run[k].clock);
    forall m {:trigger told[m]} | r + 1 <= m < |told| ensures told[m] == v.pipe[m - (r + 1)].body {
      assert v.pipe[m - (r + 1)] == w.pipe[m - r];
    }
  }

  /** A task is started, or a job ends: the workers in hand are some of those before, and at most a fresh
      one. */
  lemma MovedHeard<V(!new)>(run: seq<State<V>>, k: nat)
    requires k + 1 < |run| && Heard(run, k)
    requires var s, t := run[k], run[k + 1];
      && |t.busy| != |s.busy| && (t.look.Reading? || t.look.Resting?) && (forall j :: j in t.todo ==> j in s.todo)
      && forall x {:trigger t.busy[x]} :: 0 <= x < |t.busy| ==> t.busy[x] in s.busy || Fresh(t.busy[x], s.todo)
    ensures Heard(run, k + 1)
  {
    var s, t := run[k], run[k + 1];
    forall j: nat ensures Told(run, k + 1, j) == Told(run, k, j) {
      SilentSaid(s, t, j);
      ToldSame(run, k, j);
    }
    hide Told;
    forall x {:trigger t.busy[x]} | 0 <= x < |t.busy| ensures t.busy[x].job.Some? && Follows(run, k + 1, t.busy[x]) {
      if y: nat :| y < |s.busy| && s.busy[y] == t.busy[x] {
        FollowsOn(run, k, s.busy[y], t.busy[x]);
      }
    }
  }

  /** A worker that has just been sent one of the tasks. */
  predicate Fresh<V(!new)>(w: Worker<V>, todo: seq<nat>) {
    w.job.Some? && w.job.value in todo && w.pipe == [] && w.until.None? && w.fallback.None?
  }

  lemma OutsideHeard<V(!new)>(run: seq<State<V>>, k: nat, n: nat, count: nat)
    requires k + 1 < |run| && Heard(run, k) && Inv(run[k], n, count) && OutsideStep(run[k], run[k + 1])
    ensures Heard(run, k + 1)
  {
    var s, t := run[k], run[k + 1];
    hide Heard, Inv;
    if x: nat, v :| x < |s.busy| && WorkerStep(s.busy[x], v) && t == s.(busy := s.busy[x := v]) {
      WorkerHeard(run, k, x, v, n, count);
    } else {
      CalmHeard(run, k);
    }
  }

  lemma WorkerHeard<V(!new)>(run: seq<State<V>>, k: nat, x: nat, v: Worker<V>, n: nat, count: nat)
    requires k + 1 < |run| && Heard(run, k) && Inv(run[k], n, count)
    requires var s := run[k]; x < |s.busy| && WorkerStep(s.busy[x], v) && run[k + 1] == s.(busy := s.busy[x := v])
    ensures Heard(run, k + 1)
  {
    var s, t := run[k], run[k + 1];
    var w := s.busy[x];
    assert OnJob(w);
    hide Heard, Inv;
    if v.pipe == w.pipe {
      CalmHeard(run, k);
    } else {
      var body := v.pipe[|w.pipe|].body;
      assert v.pipe == w.pipe + [Message(w.running.value, body)];
      assert Says(s, t, x, w.job.value, body);
      SaidHeard(run, k, x, w.job.value, body, n, count);
    }
  }

  lemma ParentHeard<V(!new)>(run: seq<State<V>>, k: nat, n: nat, count: nat)
    requires k + 1 < |run| && Heard(run, k) && Inv(run[k], n, count) && ParentStep(run[k], run[k + 1])
    ensures Heard(run, k + 1)
  {
    var s, t := run[k], run[k + 1];
    IdleQuiet(s, n, count);
    hide Heard, Inv;
    if |t.busy| != |s.busy| {
      ParentMoves(s, t);
      MovedHeard(run, k);
    } else {
      ParentLooks(s, t);
      if s.look.Reading? && s.busy[s.look.at].pipe != [] {
        ReadHeard(run, k, s.look.at, n, count);
      } else {
        CalmHeard(run, k);
      }
    }
  }

  lemma IdleQuiet<V(!new)>(s: State<V>, n: nat, count: nat)
    requires Inv(s, n, count)
    ensures forall x {:trigger s.idle[x]} :: 0 <= x < |s.idle| ==> OnIdle(s.idle[x])
  {
    assert forall x {:trigger s.idle[x]} :: 0 <= x < |s.idle| ==> Quiet(s.idle[x]);
  }

  /** A step of the parent that ends and starts no job reads a deadline, or leaves the workers as they are. */
  lemma ParentLooks<V(!new)>(s: State<V>, t: State<V>)
    requires ParentStep(s, t) && |t.busy| == |s.busy|
    ensures s.look.Reading? ==> s.look.at < |s.busy|
    ensures if s.look.Reading? && s.busy[s.look.at].pipe != [] then
              && s.busy[s.look.at].job.Some? && s.busy[s.look.at].pipe[0].body.Deadline? && t == Jobs.Read(s, s.look.at)
            else
              && Calm(s, t)
              && (t.look == s.look || t.look.Reading? || t.look.Resting?
                  || (s.look.Reading? && t.look == Asking(s.look.at))
                  || (s.look.Asking? && t.look == Timing(s.look.at)))
  {
  }

  lemma ParentMoves<V(!new)>(s: State<V>, t: State<V>)
    requires ParentStep(s, t) && |t.busy| != |s.busy|
    requires forall x {:trigger s.idle[x]} :: 0 <= x < |s.idle| ==> OnIdle(s.idle[x])
    ensures t.look.Reading? || t.look.Resting?
    ensures forall j :: j in t.todo ==> j in s.todo
    ensures forall x {:trigger t.busy[x]} :: 0 <= x < |t.busy| ==> t.busy[x] in s.busy || Fresh(t.busy[x], s.todo)
  {
    forall x {:trigger t.busy[x]} | 0 <= x < |t.busy| ensures t.busy[x] in s.busy || Fresh(t.busy[x], s.todo) {
      match s.look
      case Resting => StartedFresh(s, x);
      case Reading(i) => RemovedIn(s.busy, i, x);
      case Asking(i) => RemovedIn(s.busy, i, x);
      case Timing(i) => RemovedIn(s.busy, i, x);
    }
  }

  lemma RemovedIn<T>(s: seq<T>, i: nat, x: nat)
    requires i < |s| && x < |s| - 1
    ensures Removed(s, i)[x] in s
  {
    assert Removed(s, i)[x] == s[if x < i then x else x + 1];
  }

  lemma StartedFresh<V(!new)>(s: State<V>, x: nat)
    requires s.idle != [] && s.todo != [] && OnIdle(s.idle[|s.idle| - 1]) && x < |Started(s).busy|
    ensures Started(s).busy[x] in s.busy || Fresh(Started(s).busy[x], s.todo)
  {
    if x < |s.busy| {
      assert Started(s).busy[x] == s.busy[x];
    }
  }

  predicate OnIdle<V(!new)>(w: Worker<V>) {
    w.pipe == []
  }

  lemma InitHeard<V(!new)>(run: seq<State<V>>, n: nat, count: nat)
    requires run != [] && Init(run[0], n, count)
    ensures Heard(run, 0)
  {
    hide Follows, Polled;
  }

  lemma StepAt<V(!new)>(run: seq<State<V>>, n: nat, count: nat, k: nat)
    requires Run(run, n, count) && k + 1 < |run|
    ensures ParentStep(run[k], run[k + 1]) || OutsideStep(run[k], run[k + 1])
  {
    hide Init, ParentStep, OutsideStep;
  }

  lemma {:induction false} RunHeard<V(!new)>(run: seq<State<V>>, n: nat, count: nat, k: nat)
    requires Run(run, n, count) && k < |run|
    ensures Heard(run, k)
  {
    hide Heard, Inv, ParentStep, OutsideStep;
    if k == 0 {
      InitHeard(run, n, count);
    } else {
      RunHeard(run, n, count, k - 1);
      hide Run;
      RunSafe(run, n, count, k - 1);
      StepAt(run, n, count, k - 1);
      if ParentStep(run[k - 1], run[k]) {
        ParentHeard(run, k - 1, n, count);
      } else {
        OutsideHeard(run, k - 1, n, count);
      }
    }
  }

  // ----- what is yielded

  /** The clock has passed `seconds` from one of its states before `k` on. */
  ghost predicate Passed<V(!new)>(run: seq<State<V>>, k: nat, seconds: nat)
    requires k < |run|
  {
    exists m: nat {:trigger run[m]} :: m < k && run[m].clock + seconds <= run[k].clock
  }

  /** The result of a job the parent ends at state `k`, the worker at `i`, after `r` messages read, all
      deadlines. It is that of the job's end, sent last. Or the worker is dead, and the parent had found
      nothing more to read. Or the last deadline read has passed, and the parent had found nothing more to
      read: then it is that deadline's fallback, or that it timed out. */
  ghost predicate Rightly<V(!new)>(run: seq<State<V>>, k: nat, i: nat, r: nat, y: Yielded<V>)
    requires k < |run|
  {
    && i < |run[k].busy| && run[k].busy[i].job == Some(y.job)
    && var told, w := Told(run, k, y.job), run[k].busy[i];
    && r <= |told| && (forall m {:trigger told[m]} :: 0 <= m < r ==> told[m].Deadline?)
    && (|| (r == |told| - 1 && told[r] == Done(y.result))
        || (y.result == Failure(Died) && !w.alive && Empty(run, k, i, y.job, r))
        || (r > 0 && told[r - 1].seconds > 0 && Passed(run, k, told[r - 1].seconds) && Empty(run, k, i, y.job, r)
            && y.result == match told[r - 1].fallback
                           case Some(v) => Value(v)
                           case None => Failure(TimedOut)))
  }

  /** Every result is yielded so. */
  lemma EndsRightly<V(!new)>(run: seq<State<V>>, n: nat, count: nat, k: nat) returns (i: nat, r: nat)
    requires Run(run, n, count) && k + 1 < |run| && |run[k + 1].out| != |run[k].out|
    ensures |run[k + 1].out| == |run[k].out| + 1 && run[k + 1].out[..|run[k].out|] == run[k].out
    ensures Rightly(run, k, i, r, run[k + 1].out[|run[k].out|])
  {
    RunHeard(run, n, count, k);
    RunSafe(run, n, count, k);
    var s := run[k];
    OnlyEnds(s, run[k + 1]);
    i := s.look.at;
    var w := s.busy[i];
    assert OnJob(w);
    r := Read(run, k, w);
    hide Told, Inv, Step, Run;
  }

  lemma OnlyEnds<V(!new)>(s: State<V>, t: State<V>)
    requires Step(s, t) && |t.out| != |s.out|
    ensures ParentStep(s, t) && !s.look.Resting? && s.look.at < |s.busy| && s.busy[s.look.at].job.Some?
    ensures |t.out| == |s.out| + 1 && t.out[..|s.out|] == s.out && t.out[|s.out|].job == s.busy[s.look.at].job.value
    ensures var w, result := s.busy[s.look.at], t.out[|s.out|].result;
      match s.look
      case Resting => true
      case Reading(_) => w.pipe != [] && w.pipe[0].body == Done(result)
      case Asking(_) => !w.alive && result == Failure(Died)
      case Timing(_) =>
        && w.until.Some? && w.until.value <= s.clock
        && result == if w.fallback.Some? then Value(w.fallback.value) else Failure(TimedOut)
  {
  }

  /** In every run each result was yielded so, at some state of it. */
  lemma {:induction false} EachRightly<V(!new)>(run: seq<State<V>>, n: nat, count: nat, last: nat, q: nat)
      returns (k: nat, i: nat, r: nat)
    requires Run(run, n, count) && last < |run| && q < |run[last].out|
    ensures k < last && Rightly(run, k, i, r, run[last].out[q])
  {
    hide *;
    NoneYet(run, n, count);
    OutGrows(run, n, count, last - 1);
    var was := |run[last - 1].out|;
    if q < was {
      assert run[last].out[..was][q] == run[last].out[q];
      k, i, r := EachRightly(run, n, count, last - 1, q);
    } else {
      k := last - 1;
      i, r := EndsRightly(run, n, count, k);
    }
  }

  lemma NoneYet<V(!new)>(run: seq<State<V>>, n: nat, count: nat)
    requires Run(run, n, count)
    ensures run[0].out == []
  {
  }

  lemma OutGrows<V(!new)>(run: seq<State<V>>, n: nat, count: nat, k: nat)
    requires Run(run, n, count) && k + 1 < |run|
    ensures |run[k].out| <= |run[k + 1].out| && run[k + 1].out[..|run[k].out|] == run[k].out
  {
    hide Run;
    if |run[k + 1].out| != |run[k].out| {
      var _, _ := EndsRightly(run, n, count, k);
    } else {
      OutSame(run, n, count, k);
    }
  }

  lemma OutSame<V(!new)>(run: seq<State<V>>, n: nat, count: nat, k: nat)
    requires Run(run, n, count) && k + 1 < |run| && |run[k + 1].out| == |run[k].out|
    ensures run[k + 1].out == run[k].out
  {
    var s, t := run[k], run[k + 1];
    assert Step(s, t);
  }

  // ----- a result that is lost

  /** One worker and one task. It arms nothing, finishes, and dies, all after the parent found its pipe empty
      and before it asks whether the worker lives. */
  function Late<V>(v: V): seq<State<V>> {
    var w := Spawned<V>();
    var s := State(0, [0], [w], [], [], Resting, false, {});
    var sent := w.(job := Some(0), inbox := Some(0));
    var runs := sent.(inbox := None, running := Some(0));
    var armed := runs.(pipe := [Message(0, Deadline(0, None))]);
    var read := runs.(armedBy := Some(0));
    var done := read.(running := None, pipe := [Message(0, Done(Value(v)))]);
    var dead := done.(alive := false);
    var b := s.(todo := [], idle := []);
    [s, b.(busy := [sent]), b.(busy := [runs]), b.(busy := [armed]), b.(busy := [armed], look := Reading(0)),
     b.(busy := [read], look := Reading(0)), b.(busy := [read], look := Asking(0)),
     b.(busy := [done], look := Asking(0)), b.(busy := [dead], look := Asking(0)),
     b.(idle := [w], out := [Yielded(0, Failure(Died), None)])]
  }

  /** Its job is yielded as lost with its worker, although it ended and said so. */
  lemma LateEndLost<V(!new)>(v: V)
    ensures var run := Late(v);
      && Run(run, 1, 1) && Told(run, 8, 0) == [Deadline(0, None), Done(Value(v))]
      && run[9].out == [Yielded(0, Failure(Died), None)]
  {
    hide *;
    LateOut(v);
    LateRuns(v);
    LateSaid(v);
    ToldTwo(Late(v));
  }

  lemma LateOut<V(!new)>(v: V)
    ensures |Late(v)| == 10 && Late(v)[9].out == [Yielded(0, Failure(Died), None)]
  {
  }

  lemma LateSaid<V(!new)>(v: V)
    ensures var run := Late(v);
      && |run| == 10 && Said(run[2], run[3], 0) == [Deadline(0, None)] && Said(run[6], run[7], 0) == [Done(Value(v))]
      && forall k: nat :: k in {0, 1, 3, 4, 5, 7} ==> Said(run[k], run[k + 1], 0) == []
  {
    var run := Late(v);
    assert Says(run[2], run[3], 0, 0, Deadline(0, None));
    assert Says(run[6], run[7], 0, 0, Done(Value(v)));
    SaidIs(run[2], run[3], 0, 0, Deadline(0, None), 0);
    SaidIs(run[6], run[7], 0, 0, Done(Value(v)), 0);
    hide Said, Says;
    forall k: nat | k in {0, 1, 3, 4, 5, 7} ensures Said(run[k], run[k + 1], 0) == [] {
      SilentSaid(run[k], run[k + 1], 0);
    }
  }

  lemma ToldTwo<V(!new)>(run: seq<State<V>>)
    requires |run| == 10
    ensures Told(run, 8, 0) == Said(run[0], run[1], 0) + Said(run[1], run[2], 0) + Said(run[2], run[3], 0)
      + Said(run[3], run[4], 0) + Said(run[4], run[5], 0) + Said(run[5], run[6], 0) + Said(run[6], run[7], 0)
      + Said(run[7], run[8], 0)
  {
    hide Said;
    assert Told(run, 1, 0) == [] + Said(run[0], run[1], 0);
    assert Told(run, 2, 0) == Said(run[0], run[1], 0) + Said(run[1], run[2], 0);
    assert Told(run, 4, 0) == Told(run, 2, 0) + Said(run[2], run[3], 0) + Said(run[3], run[4], 0);
    assert Told(run, 6, 0) == Told(run, 4, 0) + Said(run[4], run[5], 0) + Said(run[5], run[6], 0);
  }

  lemma LateRuns<V(!new)>(v: V)
    ensures Run(Late(v), 1, 1)
  {
    var run := Late(v);
    assert Range(1) == [0] && |run| == 10 && Init(run[0], 1, 1);
    LateSends(v);
    LateReads(v);
    hide Step, Late, Init;
    TenSteps(run);
  }

  lemma TenSteps<V(!new)>(run: seq<State<V>>)
    requires |run| == 10 && Step(run[0], run[1]) && Step(run[1], run[2]) && Step(run[2], run[3]) && Step(run[3], run[4])
    requires Step(run[4], run[5]) && Step(run[5], run[6]) && Step(run[6], run[7]) && Step(run[7], run[8])
    requires Step(run[8], run[9])
    ensures forall i, j :: 0 <= i && j == i + 1 < |run| ==> Step(run[i], run[j])
  {
    hide Step;
  }

  lemma LateSends<V(!new)>(v: V)
    ensures var run := Late(v);
      Step(run[1], run[2]) && Step(run[2], run[3]) && Step(run[6], run[7]) && Step(run[7], run[8])
  {
    var run := Late(v);
    var runs, read := run[2].busy[0], run[6].busy[0];
    assert run[3].busy[0] == runs.(pipe := runs.pipe + [Message(0, Deadline(0, None))]);
    assert run[7].busy[0] == read.(running := None, pipe := read.pipe + [Message(0, Done(Value(v)))]);
    forall k: nat | k in {1, 2, 6, 7} ensures Step(run[k], run[k + 1]) {
      assert WorkerStep(run[k].busy[0], run[k + 1].busy[0]);
      assert run[k + 1] == run[k].(busy := run[k].busy[0 := run[k + 1].busy[0]]);
      assert OutsideStep(run[k], run[k + 1]);
    }
  }

  lemma LateReads<V(!new)>(v: V)
    ensures var run := Late(v);
      && Step(run[0], run[1]) && Step(run[3], run[4]) && Step(run[4], run[5]) && Step(run[5], run[6])
      && Step(run[8], run[9])
  {
    var run := Late(v);
    assert Calls(run[3].busy[0], 0);
    assert Removed(run[8].busy, 0) == [];
    assert Started(run[0]) == run[1];
    var armed, read := run[4].busy[0], run[5].busy[0];
    assert armed.pipe[1..] == [] && [armed][0 := read] == [read];
    assert Jobs.Read(run[4], 0) == run[5];
  }
}
