// The round-robin ring of tasks.
module TaskRing {

  // ---------- the ring as a sequence, the running task first ----------

  datatype Event<T> = Schedule | Create(task: T)

  ghost predicate Distinct<T>(ring: seq<T>) {
    forall i, j | 0 <= i < j < |ring| :: ring[i] != ring[j]
  }

  // schedule moves on to the next task; a new task is put behind the running one.
  function Step<T>(ring: seq<T>, e: Event<T>): (r: seq<T>)
    requires ring != []
    ensures r != []
  {
    match e
    case Schedule => ring[1..] + [ring[0]]
    case Create(t) => [ring[0], t] + ring[1..]
  }

  function Run<T>(ring: seq<T>, es: seq<Event<T>>): (r: seq<T>)
    requires ring != []
    ensures r != []
    decreases |es|
  {
    if es == [] then ring else Step(Run(ring, es[..|es| - 1]), es[|es| - 1])
  }

  // Schedules less creations.
  function Balance<T>(es: seq<Event<T>>): int
    decreases |es|
  {
    if es == [] then 0
    else Balance(es[..|es| - 1]) + (if es[|es| - 1].Schedule? then 1 else -1)
  }

  // Tasks are created once, and not while they are in the ring.
  ghost predicate NewTasks<T>(ring: seq<T>, es: seq<Event<T>>)
    requires ring != []
  {
    forall k | 0 <= k < |es| && es[k].Create? :: es[k].task !in Run(ring, es[..k])
  }

  lemma PrefixNew<T>(ring: seq<T>, es: seq<Event<T>>, n: nat)
    requires ring != [] && NewTasks(ring, es) && n <= |es|
    ensures NewTasks(ring, es[..n])
  {
    hide Run;
    forall k | 0 <= k < n && es[..n][k].Create?
      ensures es[..n][k].task !in Run(ring, es[..n][..k])
    {
      assert es[..n][..k] == es[..k] && es[..n][k] == es[k];
    }
  }

  // One ring through all created tasks, none of them twice.
  lemma {:induction false} RunDistinct<T>(ring: seq<T>, es: seq<Event<T>>)
    requires ring != [] && Distinct(ring) && NewTasks(ring, es)
    ensures Distinct(Run(ring, es))
    ensures forall t :: t in Run(ring, es) <==> t in ring || Create(t) in es
    ensures |Run(ring, es)| == |ring| + |es| - Schedules(es)
    decreases |es|
  {
    if es != [] {
      var n := |es| - 1;
      PrefixNew(ring, es, n);
      RunDistinct(ring, es[..n]);
      assert es == es[..n] + [es[n]];
      assert Run(ring, es) == Step(Run(ring, es[..n]), es[n]);
      assert Schedules(es) == Schedules(es[..n]) + (if es[n].Schedule? then 1 else 0);
      hide Run, Schedules, NewTasks;
      StepMembers(Run(ring, es[..n]), es[n]);
      forall t ensures t in Run(ring, es) <==> t in ring || Create(t) in es {
        assert Create(t) in es <==> Create(t) in es[..n] || Create(t) == es[n];
      }
    }
  }

  function Schedules<T>(es: seq<Event<T>>): (r: nat)
    ensures r <= |es|
    decreases |es|
  {
    if es == [] then 0 else Schedules(es[..|es| - 1]) + (if es[|es| - 1].Schedule? then 1 else 0)
  }

  lemma StepMembers<T>(ring: seq<T>, e: Event<T>)
    requires ring != [] && Distinct(ring) && (e.Create? ==> e.task !in ring)
    ensures Distinct(Step(ring, e)) && |Step(ring, e)| == |ring| + (if e.Create? then 1 else 0)
    ensures forall t :: t in Step(ring, e) <==> t in ring || e == Create(t)
  {
    forall t ensures t in Step(ring, e) <==> t in ring || e == Create(t) {
      assert ring == [ring[0]] + ring[1..];
      assert t in ring <==> t == ring[0] || t in ring[1..];
    }
  }

  // ---------- when a waiting task runs ----------

  // As long as the balance has stayed below its distance, a task has come nearer by one
  // for every schedule and been pushed back by one for every creation.
  lemma {:induction false} DistanceFollowsBalance<T>(ring: seq<T>, es: seq<Event<T>>, d: nat)
    requires d < |ring| && forall j | 0 <= j < |es| :: Balance(es[..j]) < d
    ensures Balance(es) <= d && d - Balance(es) < |Run(ring, es)|
    ensures Run(ring, es)[d - Balance(es)] == ring[d]
    decreases |es|
  {
    hide Run, Balance, Step;
    if es != [] {
      var n := |es| - 1;
      assert forall j | 0 <= j < n :: es[..n][..j] == es[..j];
      DistanceFollowsBalance(ring, es[..n], d);
      LastEvent(ring, es);
      DistanceStep(Run(ring, es[..n]), es[n], d - Balance(es[..n]));
    } else {
      NoEvent(ring, es);
    }
  }

  lemma LastEvent<T>(ring: seq<T>, es: seq<Event<T>>)
    requires ring != [] && es != []
    ensures var n := |es| - 1;
      && Run(ring, es) == Step(Run(ring, es[..n]), es[n])
      && Balance(es) == Balance(es[..n]) + (if es[n].Schedule? then 1 else -1)
  {
  }

  lemma NoEvent<T>(ring: seq<T>, es: seq<Event<T>>)
    requires ring != [] && es == []
    ensures Run(ring, es) == ring && Balance(es) == 0
  {
  }

  // A task at distance i comes nearer by one or is pushed back by one.
  lemma DistanceStep<T>(ring: seq<T>, e: Event<T>, i: nat)
    requires 0 < i < |ring|
    ensures var k := if e.Schedule? then i - 1 else i + 1;
      k < |Step(ring, e)| && Step(ring, e)[k] == ring[i]
  {
  }

  // A task waiting at distance d first runs exactly when schedules less creations first
  // reach d.
  lemma {:induction false} RunsFirstExactly<T>(ring: seq<T>, es: seq<Event<T>>, d: nat)
    requires 0 < d < |ring| && Distinct(ring) && NewTasks(ring, es)
    ensures (Run(ring, es)[0] == ring[d] && forall j | 0 <= j < |es| :: Run(ring, es[..j])[0] != ring[d])
      <==> (Balance(es) == d && forall j | 0 <= j < |es| :: Balance(es[..j]) < d)
  {
    hide Run, Balance, NewTasks, Distinct;
    if forall j | 0 <= j < |es| :: Balance(es[..j]) < d {
      forall j | 0 <= j < |es| ensures Run(ring, es[..j])[0] != ring[d] {
        StillWaiting(ring, es, d, j);
      }
      AtTheEnd(ring, es, d);
    } else {
      var j := FirstReached(es, d);
      AlreadyRan(ring, es, d, j);
    }
  }

  lemma StillWaiting<T>(ring: seq<T>, es: seq<Event<T>>, d: nat, j: nat)
    requires 0 < d < |ring| && Distinct(ring) && NewTasks(ring, es) && j < |es|
    requires forall i | 0 <= i <= j :: Balance(es[..i]) < d
    ensures Run(ring, es[..j])[0] != ring[d]
  {
    hide Run, Balance, NewTasks;
    assert forall i | 0 <= i < j :: es[..j][..i] == es[..i];
    DistanceFollowsBalance(ring, es[..j], d);
    PrefixNew(ring, es, j);
    RunDistinct(ring, es[..j]);
  }

  lemma AtTheEnd<T>(ring: seq<T>, es: seq<Event<T>>, d: nat)
    requires 0 < d < |ring| && Distinct(ring) && NewTasks(ring, es)
    requires forall j | 0 <= j < |es| :: Balance(es[..j]) < d
    ensures Run(ring, es)[0] == ring[d] <==> Balance(es) == d
  {
    hide Run, Balance, NewTasks;
    DistanceFollowsBalance(ring, es, d);
    RunDistinct(ring, es);
  }

  lemma AlreadyRan<T>(ring: seq<T>, es: seq<Event<T>>, d: nat, j: nat)
    requires 0 < d < |ring| && j < |es| && Balance(es[..j]) >= d
    requires forall i | 0 <= i < j :: Balance(es[..i]) < d
    ensures Run(ring, es[..j])[0] == ring[d]
  {
    hide Run, Balance;
    assert forall i | 0 <= i < j :: es[..j][..i] == es[..i];
    DistanceFollowsBalance(ring, es[..j], d);
  }

  // The first prefix whose balance is not below d.
  lemma {:induction false} FirstReached<T>(es: seq<Event<T>>, d: nat) returns (j: nat)
    requires exists k | 0 <= k < |es| :: Balance(es[..k]) >= d
    ensures j < |es| && Balance(es[..j]) >= d && forall i | 0 <= i < j :: Balance(es[..i]) < d
  {
    hide Balance;
    j := 0;
    while Balance(es[..j]) < d
      invariant j < |es| && forall i | 0 <= i < j :: Balance(es[..i]) < d
      decreases |es| - j
    {
      var k :| 0 <= k < |es| && Balance(es[..k]) >= d;
      assert j != k;
      j := j + 1;
    }
  }

  // As many schedules as there are tasks, and no creation, give every task one turn.
  lemma {:induction false} FullTurn<T>(ring: seq<T>, k: nat)
    requires ring != [] && k <= |ring|
    ensures Run(ring, Turns<T>(k)) == ring[k..] + ring[..k]
  {
    if k > 0 {
      FullTurn(ring, k - 1);
      assert Turns<T>(k)[..k - 1] == Turns<T>(k - 1);
      assert Run(ring, Turns<T>(k)) == Step(Run(ring, Turns<T>(k - 1)), Schedule);
      hide Run, Turns, Step;
      TurnStep(ring, k);
    } else {
      assert ring[0..] + ring[..0] == ring;
    }
  }

  lemma TurnStep<T>(ring: seq<T>, k: nat)
    requires 0 < k <= |ring|
    ensures Step(ring[k - 1..] + ring[..k - 1], Schedule) == ring[k..] + ring[..k]
  {
    var a := ring[k - 1..] + ring[..k - 1];
    assert a[1..] == ring[k..] + ring[..k - 1];
    assert ring[..k] == ring[..k - 1] + [ring[k - 1]];
  }

  function Turns<T>(k: nat): (es: seq<Event<T>>)
    ensures |es| == k
  {
    seq(k, _ => Schedule)
  }

  // Every schedule followed by a creation; the tasks created are 3, 4, 5 and so on.
  function Alternating(k: nat): (es: seq<Event<nat>>)
    ensures |es| == k
  {
    seq(k, i requires i >= 0 => if i % 2 == 0 then Schedule else Create(3 + i / 2))
  }

  lemma {:induction false} AlternatingBalance(k: nat)
    ensures Balance(Alternating(k)) == k % 2
  {
    if k > 0 {
      AlternatingBalance(k - 1);
      assert Alternating(k)[..k - 1] == Alternating(k - 1);
    }
  }

  lemma {:induction false} AlternatingNew(k: nat)
    ensures NewTasks([0, 1, 2], Alternating(k))
  {
    hide Run, NewTasks;
    if k > 0 {
      AlternatingNew(k - 1);
      assert Alternating(k)[..k - 1] == Alternating(k - 1);
      if (k - 1) % 2 == 1 {
        RunDistinct([0, 1, 2], Alternating(k - 1));
        assert Create(3 + (k - 1) / 2) !in Alternating(k - 1);
      }
      assert Alternating(k) == Alternating(k - 1) + [Alternating(k)[k - 1]];
      NewTasksGrow([0, 1, 2], Alternating(k - 1), Alternating(k)[k - 1]);
    } else {
      NoNewTasks([0, 1, 2], Alternating(0));
    }
  }

  lemma NoNewTasks<T>(ring: seq<T>, es: seq<Event<T>>)
    requires ring != [] && es == []
    ensures NewTasks(ring, es)
  {
  }

  lemma NewTasksGrow<T>(ring: seq<T>, es: seq<Event<T>>, e: Event<T>)
    requires ring != [] && NewTasks(ring, es) && (e.Create? ==> e.task !in Run(ring, es))
    ensures NewTasks(ring, es + [e])
  {
    hide Run;
    var fs := es + [e];
    forall k | 0 <= k < |fs| && fs[k].Create? ensures fs[k].task !in Run(ring, fs[..k]) {
      if k < |es| {
        assert fs[..k] == es[..k] && fs[k] == es[k];
      } else {
        assert fs[..k] == es;
      }
    }
  }

  // Hence a waiting task can wait for ever: when every task switched to creates another
  // one, the task at distance 2 never runs, however long the run.
  lemma NeverRuns(k: nat)
    ensures Run([0, 1, 2], Alternating(k))[0] != 2
  {
    hide Run, Balance, NewTasks;
    forall j | 0 <= j <= k ensures Balance(Alternating(k)[..j]) < 2 {
      AlternatingBalance(j);
      assert Alternating(k)[..j] == Alternating(j);
    }
    AlternatingBalance(k);
    AlternatingNew(k);
    assert [0, 1, 2][2] == 2;
    AtTheEnd([0, 1, 2], Alternating(k), 2);
  }

  // ---------- the ring in memory ----------

  class TaskInfo {
    var next: TaskInfo?

    constructor ()
      ensures next == null
    {
      next := null;
    }
  }

  ghost predicate Linked(ring: seq<TaskInfo>)
    reads ring
  {
    forall i | 0 <= i < |ring| :: ring[i].next == ring[if i + 1 < |ring| then i + 1 else 0]
  }

  class Scheduler {
    var current: TaskInfo
    ghost const boot: TaskInfo
    ghost var ring: seq<TaskInfo>
    ghost var history: seq<Event<TaskInfo>>

    // The next pointers go once round the ring, and the ring is what the history of
    // schedules and creations makes of the boot task.
    ghost predicate Valid()
      reads this, ring
    {
      && ring != [] && ring[0] == current && Distinct(ring)
      && Linked(ring)
      && ring == Run([boot], history) && NewTasks([boot], history)
    }

    // task_init, run by the boot task.
    constructor (swapper: TaskInfo)
      modifies swapper
      ensures Valid() && ring == [swapper] && boot == swapper && history == []
    {
      current, boot, ring, history := swapper, swapper, [swapper], [];
      new;
      current.next := current;
    }

    // The part of do_fork and kthread_create that puts the new task into the ring; mem is
    // what the allocator gave, null when it had nothing.
    method Enqueue(mem: TaskInfo?) returns (r: int)
      requires Valid() && mem !in ring
      modifies this`ring, this`history, current, mem
      ensures Valid() && current == old(current)
      ensures mem == null ==> r == -1 && ring == old(ring) && history == old(history)
      ensures mem != null ==>
        r == 0 && ring == [old(ring)[0], mem] + old(ring)[1..] && history == old(history) + [Create(mem)]
    {
      hide Run, NewTasks;
      if mem == null {
        return -1;
      }
      ghost var was := ring;
      HistoryGrows(boot, history, Create(mem), ring);
      StepMembers(ring, Create(mem));
      var tmp := current.next;
      current.next := mem;
      mem.next := tmp;
      ring, history := [ring[0], mem] + ring[1..], history + [Create(mem)];
      forall i | 0 <= i < |ring| ensures ring[i].next == ring[if i + 1 < |ring| then i + 1 else 0] {
        if i >= 2 { assert ring[i] == was[i - 1] && was[i - 1] != was[0]; }
      }
      return 0;
    }

    // schedule; the switch of stacks and registers makes the next task the current one.
    method Reschedule()
      requires Valid()
      modifies this
      ensures Valid() && current == old(current).next
      ensures ring == old(ring)[1..] + [old(ring)[0]] && history == old(history) + [Schedule]
    {
      hide Run, NewTasks;
      var prev := current;
      ghost var was := ring;
      assert ring[0].next == ring[if 1 < |ring| then 1 else 0];
      var next: TaskInfo := current.next;
      HistoryGrows(boot, history, Schedule, ring);
      StepMembers(ring, Schedule);
      ring, history := ring[1..] + [ring[0]], history + [Schedule];
      forall i | 0 <= i < |ring| ensures ring[i].next == ring[if i + 1 < |ring| then i + 1 else 0] {
        assert ring[i] == was[if i + 1 < |ring| then i + 1 else 0];
      }
      if prev == next {
        return;
      }
      current := next;
    }
  }

  lemma HistoryGrows<T>(boot: T, history: seq<Event<T>>, e: Event<T>, ring: seq<T>)
    requires ring == Run([boot], history) && NewTasks([boot], history) && (e.Create? ==> e.task !in ring)
    ensures Run([boot], history + [e]) == Step(ring, e) && NewTasks([boot], history + [e])
  {
    var es := history + [e];
    assert es[..|history|] == history;
    assert Run([boot], es) == Step(Run([boot], es[..|history|]), e);
    hide Run;
    NewTasksGrow([boot], history, e);
  }
}
