/**
 * The work list of `idf.py`: dependencies are put in front of the task that needs them, listed order
 * dependencies are moved to the front, and a task runs when nothing is left to put before it.
 */
module TaskScheduler {
  /** A task object: two objects may carry the same action name. */
  datatype Task = Task(name: string, id: nat)

  /** The registered actions, by canonical name. */
  datatype Graph = Graph(dependencies: map<string, seq<string>>, orderDependencies: map<string, seq<string>>)

  predicate WellFormed(g: Graph) {
    && g.orderDependencies.Keys == g.dependencies.Keys
    && forall n, d :: n in g.dependencies && d in g.dependencies[n] ==> d in g.dependencies
  }

  /** `rank` falls along every dependency and every order dependency. */
  ghost predicate Ranked(g: Graph, rank: map<string, nat>)
    requires WellFormed(g)
  {
    && rank.Keys == g.dependencies.Keys
    && (forall n, d :: n in g.dependencies && d in g.dependencies[n] ==> rank[d] < rank[n])
    && (forall n, d :: n in g.dependencies && d in g.orderDependencies[n] && d in rank ==> rank[d] < rank[n])
  }

  ghost predicate Acyclic(g: Graph) {
    WellFormed(g) && exists rank :: Ranked(g, rank)
  }

  /** The action names in a list. */
  function Listed(tasks: seq<Task>): set<string> {
    set t | t in tasks :: t.name
  }

  // ---------------------------------------------------------------- what a run log promises

  ghost predicate NoRepeat(log: seq<Task>) {
    forall i, j :: 0 <= i < j < |log| ==> log[i].name != log[j].name
  }

  ghost predicate DependenciesFirst(g: Graph, log: seq<Task>) {
    forall i :: 0 <= i < |log| ==> log[i].name in g.dependencies && Before(g.dependencies[log[i].name], log, i)
  }

  /** All of `names` ran before position `i`. */
  ghost predicate Before(names: seq<string>, log: seq<Task>, i: nat)
    requires i <= |log|
  {
    forall d :: d in names ==> d in Listed(log[..i])
  }

  /** An order dependency that was asked for runs first. */
  ghost predicate OrderKept(g: Graph, wanted: set<string>, log: seq<Task>) {
    forall i, d ::
      && 0 <= i < |log| && log[i].name in g.orderDependencies
      && d in g.orderDependencies[log[i].name] && d in wanted
      ==> d in Listed(log[..i])
  }

  ghost predicate GoodLog(g: Graph, wanted: set<string>, log: seq<Task>) {
    NoRepeat(log) && DependenciesFirst(g, log) && OrderKept(g, wanted, log)
  }

  /** Every name was asked for or is a dependency of another one in the set. */
  ghost predicate Justified(g: Graph, wanted: set<string>, names: set<string>) {
    forall n :: n in names && n !in wanted ==> NeededBy(g, n, names)
  }

  ghost predicate NeededBy(g: Graph, n: string, names: set<string>) {
    exists m :: m in names && m in g.dependencies && n in g.dependencies[m]
  }

  lemma PrefixOfAppend(log: seq<Task>, task: Task, i: nat)
    requires i <= |log|
    ensures (log + [task])[..i] == log[..i]
  {
  }

  /** Running a task whose dependencies are done, and none of whose listed order dependencies is pending. */
  lemma GoodLogAppend(g: Graph, wanted: set<string>, log: seq<Task>, task: Task)
    requires WellFormed(g) && GoodLog(g, wanted, log)
    requires task.name in g.dependencies && task.name !in Listed(log)
    requires forall d :: d in g.dependencies[task.name] ==> d in Listed(log)
    requires forall d :: d in g.orderDependencies[task.name] && d in wanted ==> d in Listed(log)
    ensures GoodLog(g, wanted, log + [task])
    ensures Listed(log + [task]) == Listed(log) + {task.name}
  {
    var next := log + [task];
    ListedAppend(log, [task]);
    assert next[..|log|] == log;
    forall i | 0 <= i < |log|
      ensures next[..i] == log[..i] && log[i].name != task.name
    {
      PrefixOfAppend(log, task, i);
      assert log[i] in log;
    }
    assert DependenciesFirst(g, next) by {
      forall i | 0 <= i < |next|
        ensures next[i].name in g.dependencies && Before(g.dependencies[next[i].name], next, i)
      {
        if i < |log| {
          assert Before(g.dependencies[log[i].name], log, i);
        }
      }
    }
    assert OrderKept(g, wanted, next) by {
      forall i, d | 0 <= i < |next| && next[i].name in g.orderDependencies &&
        d in g.orderDependencies[next[i].name] && d in wanted
        ensures d in Listed(next[..i])
      {
      }
    }
  }

  lemma ListedAppend(xs: seq<Task>, ys: seq<Task>)
    ensures Listed(xs + ys) == Listed(xs) + Listed(ys)
  {
    assert forall t :: t in xs + ys <==> t in xs || t in ys;
  }

  lemma ListedSame(xs: seq<Task>, ys: seq<Task>)
    requires multiset(xs) == multiset(ys)
    ensures Listed(xs) == Listed(ys)
  {
    forall t
      ensures t in xs <==> t in ys
    {
      assert t in xs <==> t in multiset(xs);
      assert t in ys <==> t in multiset(ys);
    }
  }

  // ---------------------------------------------------------------- the order that was asked for

  /** A task called `name` is listed, and everything in front of it has its name in `s`. */
  ghost predicate Ahead(tasks: seq<Task>, name: string, s: set<string>) {
    exists p :: AheadAt(tasks, name, s, p)
  }

  predicate AheadAt(tasks: seq<Task>, name: string, s: set<string>, p: int) {
    0 <= p < |tasks| && tasks[p].name == name && forall q :: 0 <= q <= p ==> tasks[q].name in s
  }

  /** A set that with an action holds what it depends on and what is ordered before it. */
  ghost predicate Reaching(g: Graph, s: set<string>) {
    && Closed(g, s)
    && forall n, d :: n in s && n in g.orderDependencies && d in g.orderDependencies[n] ==> d in s
  }

  /** `n` is one of `names`, or one of them needs it or orders it before itself, directly or through others. */
  ghost predicate Reached(g: Graph, names: set<string>, n: string) {
    forall s: set<string> :: names <= s && Reaching(g, s) ==> n in s
  }

  /** Until a requested action has run, nothing runs but what it, or one requested before it, needs or orders. */
  ghost predicate AsRequested(g: Graph, requested: seq<Task>, log: seq<Task>) {
    forall i, k :: 0 <= i < |requested| && 0 <= k < |log| && requested[i].name !in Listed(log[..k]) ==>
      Reached(g, Listed(requested[..i + 1]), log[k].name)
  }

  /** Every requested action that has not run is ahead of all that does not have to do with it. */
  ghost predicate Waiting(g: Graph, requested: seq<Task>, tasks: seq<Task>, completed: set<string>) {
    forall i, s: set<string> ::
      && 0 <= i < |requested| && requested[i].name !in completed
      && Listed(requested[..i + 1]) <= s && Reaching(g, s)
      ==> Ahead(tasks, requested[i].name, s)
  }

  /** Moving a task with an admitted name to the front. */
  lemma MovedAhead(tasks: seq<Task>, at: nat)
    requires at < |tasks|
    ensures forall name, s: set<string> :: Ahead(tasks, name, s) && tasks[at].name in s ==>
      Ahead([tasks[at]] + tasks[..at] + tasks[at + 1..], name, s)
  {
    var all := [tasks[at]] + tasks[..at] + tasks[at + 1..];
    assert forall q :: 0 <= q < |all| ==> all[q] == tasks[if q == 0 then at else if q <= at then q - 1 else q];
    forall name, s: set<string> | Ahead(tasks, name, s) && tasks[at].name in s
      ensures Ahead(all, name, s)
    {
      var p :| AheadAt(tasks, name, s, p);
      assert AheadAt(all, name, s, if p < at then p + 1 else if p == at then 0 else p);
    }
  }

  /** Putting tasks with admitted names in front. */
  lemma InsertedAhead(inserted: seq<Task>, tasks: seq<Task>)
    ensures forall name, s: set<string> :: Ahead(tasks, name, s) && Listed(inserted) <= s ==>
      Ahead(inserted + tasks, name, s)
  {
    var all := inserted + tasks;
    forall name, s: set<string> | Ahead(tasks, name, s) && Listed(inserted) <= s
      ensures Ahead(all, name, s)
    {
      var p :| AheadAt(tasks, name, s, p);
      assert forall q :: 0 <= q < |inserted| ==> inserted[q] in inserted && inserted[q].name in Listed(inserted);
      assert AheadAt(all, name, s, |inserted| + p);
    }
  }

  lemma StartWaiting(g: Graph, requested: seq<Task>)
    ensures Waiting(g, requested, requested, {})
  {
    forall i, s: set<string> | 0 <= i < |requested| && Listed(requested[..i + 1]) <= s
      ensures Ahead(requested, requested[i].name, s)
    {
      forall q | 0 <= q <= i
        ensures requested[q].name in s
      {
        assert requested[q] in requested[..i + 1];
      }
      assert AheadAt(requested, requested[i].name, s, i);
    }
  }

  /** Inserting and moving what the front task needs or orders keeps every requested action ahead. */
  lemma WaitingStep(g: Graph, requested: seq<Task>, tasks: seq<Task>, completed: set<string>, inserted: seq<Task>,
      all: seq<Task>)
    requires WellFormed(g) && Waiting(g, requested, tasks, completed) && tasks != [] && tasks[0].name in g.dependencies
    requires forall n :: n in Names(inserted) ==> n in g.dependencies[tasks[0].name]
    requires forall name, s: set<string> ::
      Ahead(inserted + tasks, name, s) && (forall d :: d in g.orderDependencies[tasks[0].name] ==> d in s) ==>
        Ahead(all, name, s)
    ensures Waiting(g, requested, all, completed)
  {
    InsertedAhead(inserted, tasks);
    ListedByNames(inserted);
    forall i, s: set<string> | 0 <= i < |requested| && requested[i].name !in completed &&
      Listed(requested[..i + 1]) <= s && Reaching(g, s)
      ensures Ahead(all, requested[i].name, s)
    {
      assert Ahead(tasks, requested[i].name, s);
      FrontIn(tasks, requested[i].name, s);
      assert Listed(inserted) <= s;
    }
  }

  lemma FrontIn(tasks: seq<Task>, name: string, s: set<string>)
    requires Ahead(tasks, name, s)
    ensures tasks != [] && tasks[0].name in s
  {
    var p :| AheadAt(tasks, name, s, p);
  }

  lemma {:induction false} PoppedAhead(tasks: seq<Task>, name: string, s: set<string>)
    requires Ahead(tasks, name, s) && tasks[0].name != name
    ensures Ahead(tasks[1..], name, s)
  {
    var p :| AheadAt(tasks, name, s, p);
    assert AheadAt(tasks[1..], name, s, p - 1);
  }

  /** The front task runs, or had run before, and leaves the list. */
  lemma WaitingRuns(g: Graph, requested: seq<Task>, tasks: seq<Task>, completed: set<string>, log: seq<Task>)
    requires Waiting(g, requested, tasks, completed) && tasks != [] && completed == Listed(log)
    requires AsRequested(g, requested, log)
    ensures Waiting(g, requested, tasks[1..], completed + {tasks[0].name})
    ensures tasks[0].name !in completed ==> AsRequested(g, requested, log + [tasks[0]])
  {
    forall i, s: set<string> | 0 <= i < |requested| && requested[i].name !in completed + {tasks[0].name} &&
      Listed(requested[..i + 1]) <= s && Reaching(g, s)
      ensures Ahead(tasks[1..], requested[i].name, s)
    {
      PoppedAhead(tasks, requested[i].name, s);
    }
    var next := log + [tasks[0]];
    forall i, k | 0 <= i < |requested| && 0 <= k < |next| && requested[i].name !in Listed(next[..k])
      ensures Reached(g, Listed(requested[..i + 1]), next[k].name)
    {
      PrefixOfAppend(log, tasks[0], k);
      if k == |log| {
        assert log[..k] == log;
        forall s: set<string> | Listed(requested[..i + 1]) <= s && Reaching(g, s)
          ensures next[k].name in s
        {
          FrontIn(tasks, requested[i].name, s);
        }
      }
    }
  }

  // ---------------------------------------------------------------- the two inner loops

  /** `dict([(t.name, t) for t in tasks])`: the last task of each name. */
  function TasksDict(tasks: seq<Task>): (dict: map<string, Task>)
    ensures dict.Keys == Listed(tasks)
    ensures forall n :: n in dict ==> dict[n] in tasks && dict[n].name == n
  {
    if tasks == [] then map[]
    else
      var rest, last := tasks[..|tasks| - 1], tasks[|tasks| - 1];
      ListedAppend(rest, [last]);
      assert tasks == rest + [last];
      TasksDict(rest)[last.name := last]
  }

  lemma {:induction false} DictHasLast(tasks: seq<Task>, k: nat)
    requires k < |tasks| && forall l :: k < l < |tasks| ==> tasks[l].name != tasks[k].name
    ensures tasks[k].name in TasksDict(tasks) && TasksDict(tasks)[tasks[k].name] == tasks[k]
    decreases |tasks|
  {
    if k < |tasks| - 1 {
      DictHasLast(tasks[..|tasks| - 1], k);
    }
  }

  /** The dependencies that are not done, last one first, as insertion at the front leaves them. */
  function Missing(dependencies: seq<string>, completed: set<string>): seq<string> {
    if dependencies == [] then []
    else
      var rest, last := dependencies[..|dependencies| - 1], dependencies[|dependencies| - 1];
      (if last in completed then [] else [last]) + Missing(rest, completed)
  }

  lemma {:induction false} MissingIs(dependencies: seq<string>, completed: set<string>)
    ensures forall d :: d in Missing(dependencies, completed) <==> d in dependencies && d !in completed
  {
    if dependencies != [] {
      var rest, last := dependencies[..|dependencies| - 1], dependencies[|dependencies| - 1];
      MissingIs(rest, completed);
      assert dependencies == rest + [last];
    }
  }

  /** What stands later in the list comes first. */
  lemma {:induction false} MissingReverses(a: seq<string>, b: seq<string>, completed: set<string>)
    ensures Missing(a + b, completed) == Missing(b, completed) + Missing(a, completed)
    decreases |b|
  {
    if b == [] {
      assert a + b == a;
    } else {
      var rest, last := b[..|b| - 1], b[|b| - 1];
      assert (a + b)[..|a + b| - 1] == a + rest && (a + b)[|a + b| - 1] == last;
      MissingReverses(a, rest, completed);
    }
  }

  function Names(tasks: seq<Task>): (names: seq<string>)
    ensures |names| == |tasks|
    ensures forall i :: 0 <= i < |tasks| ==> names[i] == tasks[i].name
  {
    seq(|tasks|, i requires 0 <= i < |tasks| => tasks[i].name)
  }

  lemma NamesCons(task: Task, tasks: seq<Task>)
    ensures Names([task] + tasks) == [task.name] + Names(tasks)
    ensures Names([]) == []
  {
  }

  lemma MissingSnoc(ds: seq<string>, completed: set<string>)
    ensures Missing([], completed) == []
    ensures ds != [] ==> var last := ds[|ds| - 1];
      Missing(ds, completed) == (if last in completed then [] else [last]) + Missing(ds[..|ds| - 1], completed)
  {
  }

  /** New tasks for the missing dependencies, put in front. */
  method InsertDependencies(dependencies: seq<string>, completed: set<string>, tasks: seq<Task>, firstId: nat)
    returns (inserted: seq<Task>, all: seq<Task>, nextId: nat, ready: bool)
    ensures all == inserted + tasks
    ensures Names(inserted) == Missing(dependencies, completed)
    ensures ready <==> inserted == []
    ensures firstId <= nextId && forall t :: t in inserted ==> t.id >= firstId
  {
    hide Missing, Names;
    inserted, all, nextId, ready := [], tasks, firstId, true;
    MissingSnoc(dependencies, completed);
    for i := 0 to |dependencies|
      invariant all == inserted + tasks
      invariant Names(inserted) == Missing(dependencies[..i], completed)
      invariant ready <==> inserted == []
      invariant firstId <= nextId && forall t :: t in inserted ==> t.id >= firstId
    {
      MissingSnoc(dependencies[..i + 1], completed);
      assert dependencies[..i + 1][..i] == dependencies[..i];
      var dep := dependencies[i];
      if dep !in completed {
        var task := Task(dep, nextId);
        nextId := nextId + 1;
        NamesCons(task, inserted);
        inserted := [task] + inserted;
        all := [task] + all;
        ready := false;
      }
    }
    assert dependencies[..|dependencies|] == dependencies;
  }

  /** `tasks.index(task)`. */
  method IndexOf(tasks: seq<Task>, task: Task) returns (i: nat)
    requires task in tasks
    ensures i < |tasks| && tasks[i] == task && task !in tasks[..i]
  {
    i := 0;
    while tasks[i] != task
      invariant i < |tasks| && task in tasks[i..] && task !in tasks[..i]
      decreases |tasks| - i
    {
      assert tasks[i..] == [tasks[i]] + tasks[i + 1..];
      i := i + 1;
    }
  }

  lemma ToFrontSame(tasks: seq<Task>, i: nat)
    requires i < |tasks|
    ensures multiset([tasks[i]] + tasks[..i] + tasks[i + 1..]) == multiset(tasks)
  {
    assert tasks == tasks[..i] + [tasks[i]] + tasks[i + 1..];
  }

  ghost predicate Pending(d: string, dict: map<string, Task>, completed: set<string>) {
    d in dict && d !in completed
  }

  /** The last order dependency that is listed and not done. */
  ghost predicate LastPending(order: seq<string>, dict: map<string, Task>, completed: set<string>, j: nat)
    requires j < |order|
  {
    Pending(order[j], dict, completed) && forall l :: j < l < |order| ==> !Pending(order[l], dict, completed)
  }

  ghost predicate LastMoved(order: seq<string>, dict: map<string, Task>, completed: set<string>, front: Task) {
    exists j :: 0 <= j < |order| && LastPending(order, dict, completed, j) && front == dict[order[j]]
  }

  lemma NowLast(order: seq<string>, dep: string, dict: map<string, Task>, completed: set<string>)
    requires Pending(dep, dict, completed)
    ensures LastMoved(order + [dep], dict, completed, dict[dep])
  {
    assert LastPending(order + [dep], dict, completed, |order|);
  }

  lemma LastMovedSnoc(order: seq<string>, dep: string, dict: map<string, Task>, completed: set<string>, front: Task)
    requires LastMoved(order, dict, completed, front) && !Pending(dep, dict, completed)
    ensures LastMoved(order + [dep], dict, completed, front)
  {
    var j :| 0 <= j < |order| && LastPending(order, dict, completed, j) && front == dict[order[j]];
    assert LastPending(order + [dep], dict, completed, j);
  }

  /** The listed order dependencies that are not done, moved to the front one after the other. */
  method MoveOrdered(order: seq<string>, dict: map<string, Task>, completed: set<string>, tasks: seq<Task>)
    returns (all: seq<Task>, moved: bool)
    requires forall n :: n in dict ==> dict[n] in tasks && dict[n].name == n
    ensures multiset(all) == multiset(tasks)
    ensures moved <==> exists d :: d in order && Pending(d, dict, completed)
    ensures moved ==> all != [] && all[0].name in order && Pending(all[0].name, dict, completed)
    ensures moved ==> LastMoved(order, dict, completed, all[0])
    ensures !moved ==> all == tasks
    ensures forall name, s: set<string> :: Ahead(tasks, name, s) && (forall d :: d in order ==> d in s) ==>
      Ahead(all, name, s)
  {
    hide LastMoved, Ahead;
    all, moved := tasks, false;
    for i := 0 to |order|
      invariant forall name, s: set<string> :: Ahead(tasks, name, s) && (forall d :: d in order ==> d in s) ==>
        Ahead(all, name, s)
      invariant multiset(all) == multiset(tasks)
      invariant moved <==> exists d :: d in order[..i] && Pending(d, dict, completed)
      invariant moved ==> all != [] && all[0].name in order && Pending(all[0].name, dict, completed)
      invariant moved ==> LastMoved(order[..i], dict, completed, all[0])
      invariant !moved ==> all == tasks
    {
      var dep := order[i];
      assert order[..i + 1] == order[..i] + [dep];
      if dep in dict && dep !in completed {
        assert Pending(dep, dict, completed);
        assert dict[dep] in multiset(tasks);
        var at := IndexOf(all, dict[dep]);
        ToFrontSame(all, at);
        MovedAhead(all, at);
        all := [all[at]] + all[..at] + all[at + 1..];
        moved := true;
        NowLast(order[..i], dep, dict, completed);
      } else if moved {
        LastMovedSnoc(order[..i], dep, dict, completed, all[0]);
      }
    }
    assert order[..|order|] == order;
  }

  // ---------------------------------------------------------------- the work loop

  /** What the loop keeps between iterations. */
  ghost predicate LoopInv(g: Graph, wanted: set<string>, tasks: seq<Task>, completed: set<string>, log: seq<Task>) {
    && Listed(tasks) <= g.dependencies.Keys
    && completed == Listed(log) <= g.dependencies.Keys
    && wanted <= completed + Listed(tasks)
    && GoodLog(g, wanted, log)
    && Justified(g, wanted, completed + Listed(tasks))
  }

  /** New tasks are dependencies of a listed one. */
  lemma JustifiedGrows(g: Graph, wanted: set<string>, names: set<string>, more: set<string>, m: string)
    requires Justified(g, wanted, names) && m in names && m in g.dependencies
    requires forall d :: d in more ==> d in g.dependencies[m]
    ensures Justified(g, wanted, names + more)
  {
    forall n | n in names + more && n !in wanted
      ensures NeededBy(g, n, names + more)
    {
      if n in names {
        assert NeededBy(g, n, names);
      }
    }
  }

  lemma ListedOfNames(tasks: seq<Task>, n: string)
    ensures n in Listed(tasks) <==> n in Names(tasks)
  {
    if n in Listed(tasks) {
      var t :| t in tasks && t.name == n;
      var i :| 0 <= i < |tasks| && tasks[i] == t;
      assert Names(tasks)[i] == n;
    }
    if n in Names(tasks) {
      var i :| 0 <= i < |tasks| && Names(tasks)[i] == n;
      assert tasks[i] in tasks;
    }
  }

  lemma ListedByNames(tasks: seq<Task>)
    ensures forall n :: n in Listed(tasks) <==> n in Names(tasks)
  {
    forall n
      ensures n in Listed(tasks) <==> n in Names(tasks)
    {
      ListedOfNames(tasks, n);
    }
  }

  /** Inserting and moving keeps the invariant. */
  lemma ListStep(g: Graph, wanted: set<string>, tasks: seq<Task>, completed: set<string>, log: seq<Task>,
                 inserted: seq<Task>, all: seq<Task>)
    requires WellFormed(g) && LoopInv(g, wanted, tasks, completed, log) && tasks != []
    requires Names(inserted) == Missing(g.dependencies[tasks[0].name], completed)
    requires multiset(all) == multiset(inserted + tasks)
    ensures LoopInv(g, wanted, all, completed, log)
    ensures forall n :: n in Names(inserted) <==> n in g.dependencies[tasks[0].name] && n !in completed
  {
    hide GoodLog, Justified, Missing, Names;
    var m := tasks[0].name;
    MissingIs(g.dependencies[m], completed);
    ListedByNames(inserted);
    ListedSame(all, inserted + tasks);
    ListedAppend(inserted, tasks);
    assert tasks[0] in tasks;
    JustifiedGrows(g, wanted, completed + Listed(tasks), Listed(inserted), m);
    assert completed + Listed(tasks) + Listed(inserted) == completed + Listed(all);
  }

  /** Taking the front task off the list keeps the invariant once it is done. */
  lemma RunStep(g: Graph, wanted: set<string>, tasks: seq<Task>, completed: set<string>, log: seq<Task>)
    requires WellFormed(g) && LoopInv(g, wanted, tasks, completed, log) && tasks != []
    requires forall d :: d in g.dependencies[tasks[0].name] ==> d in completed
    requires forall d :: d in g.orderDependencies[tasks[0].name] && d in Listed(tasks) ==> d in completed
    ensures LoopInv(g, wanted, tasks[1..], completed + {tasks[0].name},
                    if tasks[0].name in completed then log else log + [tasks[0]])
  {
    hide GoodLog, Justified;
    var task := tasks[0];
    assert tasks == [task] + tasks[1..];
    ListedAppend([task], tasks[1..]);
    assert Listed([task]) == {task.name};
    assert completed + {task.name} + Listed(tasks[1..]) == completed + Listed(tasks);
    if task.name !in completed {
      GoodLogAppend(g, wanted, log, task);
    } else {
      assert completed + {task.name} == completed;
    }
  }

  lemma StartInv(g: Graph, requested: seq<Task>)
    requires WellFormed(g) && Listed(requested) <= g.dependencies.Keys
    ensures LoopInv(g, Listed(requested), requested, {}, [])
  {
  }

  ghost predicate FrontDone(tasks: seq<Task>, completed: set<string>) {
    tasks != [] && tasks[0].name in completed
  }

  /** While nothing new completes, done tasks leave the front first, and then the front falls in rank. */
  ghost function Remaining(tasks: seq<Task>, completed: set<string>, rank: map<string, nat>): nat {
    if FrontDone(tasks, completed) then |tasks|
    else if tasks != [] && tasks[0].name in rank then rank[tasks[0].name]
    else 0
  }

  /** When the front task cannot run, the new front is not done and ranks lower. */
  lemma FrontFalls(g: Graph, rank: map<string, nat>, completed: set<string>, tasks: seq<Task>, inserted: seq<Task>,
      all: seq<Task>)
    requires WellFormed(g) && Ranked(g, rank) && tasks != [] && tasks[0].name in g.dependencies
    requires all != [] && all[0].name in g.dependencies && all[0].name !in completed
    requires all[0].name in g.dependencies[tasks[0].name] || all[0].name in g.orderDependencies[tasks[0].name]
    ensures !FrontDone(all, completed)
    ensures !FrontDone(tasks, completed) ==> Remaining(all, completed, rank) < Remaining(tasks, completed, rank)
  {
  }

  lemma FinishInv(g: Graph, wanted: set<string>, completed: set<string>, log: seq<Task>)
    requires LoopInv(g, wanted, [], completed, log)
    ensures GoodLog(g, wanted, log) && completed == Listed(log) && wanted <= completed &&
      Justified(g, wanted, completed)
  {
    hide GoodLog, Justified;
    assert completed + Listed([]) == completed;
  }

  /** Nothing is left to put before the front task. */
  ghost predicate CanRun(g: Graph, tasks: seq<Task>, completed: set<string>)
    requires WellFormed(g)
  {
    && tasks != [] && tasks[0].name in g.dependencies
    && (forall d :: d in g.dependencies[tasks[0].name] ==> d in completed)
    && (forall d :: d in g.orderDependencies[tasks[0].name] && d in Listed(tasks) ==> d in completed)
  }

  /** The two inner loops, one after the other. */
  method PutBefore(g: Graph, tasks: seq<Task>, completed: set<string>, firstId: nat, ghost wanted: set<string>,
      ghost log: seq<Task>, ghost rank: map<string, nat>)
    returns (all: seq<Task>, nextId: nat, ready: bool)
    requires WellFormed(g) && Ranked(g, rank) && LoopInv(g, wanted, tasks, completed, log) && tasks != []
    ensures LoopInv(g, wanted, all, completed, log)
    ensures forall requested :: Waiting(g, requested, tasks, completed) ==> Waiting(g, requested, all, completed)
    ensures firstId <= nextId && forall t :: t in all ==> t in tasks || t.id >= firstId
    ensures ready == CanRun(g, tasks, completed)
    ensures ready ==> all == tasks
    ensures !ready ==> !FrontDone(all, completed)
    ensures !ready && !FrontDone(tasks, completed) ==>
      Remaining(all, completed, rank) < Remaining(tasks, completed, rank)
  {
    hide GoodLog, Justified, Ranked, Missing, Names, Remaining, Waiting, Ahead;
    var task := tasks[0];
    assert task in tasks && task.name in Listed(tasks);
    var dict := TasksDict(tasks);
    var inserted, moved;
    inserted, all, nextId, ready := InsertDependencies(g.dependencies[task.name], completed, tasks, firstId);
    all, moved := MoveOrdered(g.orderDependencies[task.name], dict, completed, all);
    ListStep(g, wanted, tasks, completed, log, inserted, all);
    assert forall t :: t in all <==> t in multiset(all);
    assert forall t :: t in inserted + tasks <==> t in multiset(inserted + tasks);
    forall requested | Waiting(g, requested, tasks, completed)
      ensures Waiting(g, requested, all, completed)
    {
      WaitingStep(g, requested, tasks, completed, inserted, all);
    }
    MissingEmpty(inserted, g.dependencies[task.name], completed);
    if moved || !ready {
      assert all[0] in all && all[0].name in Listed(all);
      FrontFalls(g, rank, completed, tasks, inserted, all);
    }
    ready := ready && !moved;
  }

  lemma MissingEmpty(inserted: seq<Task>, dependencies: seq<string>, completed: set<string>)
    requires Names(inserted) == Missing(dependencies, completed)
    ensures inserted == [] <==> forall d :: d in dependencies ==> d in completed
    ensures inserted != [] ==> inserted[0].name in dependencies && inserted[0].name !in completed
  {
    MissingIs(dependencies, completed);
    if inserted != [] {
      assert Names(inserted)[0] in Names(inserted);
    }
  }

  /** The `while tasks` loop of `execute_tasks`. */
  method ExecuteTasks(g: Graph, requested: seq<Task>, firstId: nat) returns (log: seq<Task>, completed: set<string>)
    requires Acyclic(g) && Listed(requested) <= g.dependencies.Keys
    ensures GoodLog(g, Listed(requested), log)
    ensures completed == Listed(log)
    ensures Listed(requested) <= Listed(log)
    ensures Justified(g, Listed(requested), Listed(log))
    ensures AsRequested(g, requested, log)
    ensures AllIndependent(g, requested) ==> log == FirstOfEach(requested)
    ensures Known(requested, firstId, log)
  {
    hide GoodLog, Justified, Ranked, Remaining, Waiting, AsRequested, JustListed, AllIndependent;
    ghost var rank :| Ranked(g, rank);
    ghost var wanted := Listed(requested);
    StartInv(g, requested);
    StartWaiting(g, requested);
    NothingRan(g, requested);
    log, completed := [], {};
    var tasks, nextId := requested, firstId;
    while tasks != []
      invariant LoopInv(g, wanted, tasks, completed, log)
      invariant Waiting(g, requested, tasks, completed) && AsRequested(g, requested, log)
      invariant JustListed(g, requested, tasks, log)
      invariant Known(requested, firstId, tasks) && Known(requested, firstId, log) && firstId <= nextId
      decreases g.dependencies.Keys - completed, FrontDone(tasks, completed), Remaining(tasks, completed, rank)
    {
      var task := tasks[0];
      var ready;
      ghost var was := tasks;
      tasks, nextId, ready := PutBefore(g, tasks, completed, nextId, wanted, log, rank);
      if AllIndependent(g, requested) {
        JustReady(g, requested, was, completed, log);
      }
      JustBusy(g, requested, was, tasks, log);
      if ready {
        RunStep(g, wanted, tasks, completed, log);
        WaitingRuns(g, requested, tasks, completed, log);
        JustRuns(g, requested, tasks, completed, log);
        PopFalls(tasks, completed, rank);
        tasks := tasks[1..];
        if task.name !in completed {
          log := log + [task];
        }
        completed := completed + {task.name};
      }
    }
    FinishInv(g, wanted, completed, log);
    JustFinished(g, requested, log);
  }

  /** The tasks without those whose action an earlier task has. */
  function FirstOfEach(tasks: seq<Task>): (r: seq<Task>)
    ensures Listed(r) == Listed(tasks)
  {
    if tasks == [] then []
    else
      var rest, last := tasks[..|tasks| - 1], tasks[|tasks| - 1];
      assert tasks == rest + [last];
      ListedAppend(rest, [last]);
      ListedAppend(FirstOfEach(rest), [last]);
      FirstOfEach(rest) + if last.name in Listed(rest) then [] else [last]
  }

  /** Neither needs nor orders anything. */
  predicate Independent(g: Graph, n: string) {
    && (n in g.dependencies ==> g.dependencies[n] == [])
    && (n in g.orderDependencies ==> g.orderDependencies[n] == [])
  }

  ghost predicate AllIndependent(g: Graph, requested: seq<Task>) {
    forall t :: t in requested ==> Independent(g, t.name)
  }

  /** Where nothing is needed or ordered, the list is what is left of the requested one. */
  ghost predicate JustListed(g: Graph, requested: seq<Task>, tasks: seq<Task>, log: seq<Task>) {
    AllIndependent(g, requested) ==>
      |tasks| <= |requested| && tasks == requested[|requested| - |tasks|..]
      && log == FirstOfEach(requested[..|requested| - |tasks|])
  }

  lemma JustRuns(g: Graph, requested: seq<Task>, tasks: seq<Task>, completed: set<string>, log: seq<Task>)
    requires JustListed(g, requested, tasks, log) && tasks != [] && completed == Listed(log)
    ensures JustListed(g, requested, tasks[1..], if tasks[0].name in completed then log else log + [tasks[0]])
  {
    if AllIndependent(g, requested) {
      var m := |requested| - |tasks|;
      assert requested[..m + 1][..m] == requested[..m];
      assert requested[..m + 1][m] == tasks[0];
    }
  }

  lemma JustBusy(g: Graph, requested: seq<Task>, was: seq<Task>, tasks: seq<Task>, log: seq<Task>)
    requires JustListed(g, requested, was, log) && (AllIndependent(g, requested) ==> tasks == was)
    ensures JustListed(g, requested, tasks, log)
  {
  }

  lemma JustFinished(g: Graph, requested: seq<Task>, log: seq<Task>)
    requires JustListed(g, requested, [], log)
    ensures AllIndependent(g, requested) ==> log == FirstOfEach(requested)
  {
    assert requested[..|requested|] == requested;
  }

  lemma JustReady(g: Graph, requested: seq<Task>, tasks: seq<Task>, completed: set<string>, log: seq<Task>)
    requires WellFormed(g) && JustListed(g, requested, tasks, log) && tasks != [] && tasks[0].name in g.dependencies
    requires AllIndependent(g, requested)
    ensures CanRun(g, tasks, completed)
  {
    assert tasks[0] in requested;
  }

  /** Every task was requested, or was made for a dependency. */
  ghost predicate Known(requested: seq<Task>, firstId: nat, tasks: seq<Task>) {
    forall t :: t in tasks ==> t in requested || t.id >= firstId
  }

  lemma NothingRan(g: Graph, requested: seq<Task>)
    ensures AsRequested(g, requested, []) && JustListed(g, requested, requested, [])
  {
  }

  lemma PopFalls(tasks: seq<Task>, completed: set<string>, rank: map<string, nat>)
    requires tasks != []
    ensures FrontDone(tasks, completed) && FrontDone(tasks[1..], completed) ==>
      Remaining(tasks[1..], completed, rank) < Remaining(tasks, completed, rank)
  {
  }

  // ---------------------------------------------------------------- what ran, exactly

  ghost predicate Closed(g: Graph, names: set<string>) {
    forall n, d :: n in names && n in g.dependencies && d in g.dependencies[n] ==> d in names
  }

  /** The names that ran are the least set with the requested names that is closed under dependencies. */
  lemma RanExactlyWhatWasNeeded(g: Graph, wanted: set<string>, log: seq<Task>)
    requires GoodLog(g, wanted, log) && wanted <= Listed(log) && Justified(g, wanted, Listed(log))
    ensures Closed(g, Listed(log))
    ensures forall s: set<string> :: wanted <= s && Closed(g, s) ==> Listed(log) <= s
  {
    forall n, d | n in Listed(log) && n in g.dependencies && d in g.dependencies[n]
      ensures d in Listed(log)
    {
      var j :| 0 <= j < |log| && log[j].name == n;
      assert Before(g.dependencies[n], log, j);
    }
    forall s: set<string> | wanted <= s && Closed(g, s)
      ensures Listed(log) <= s
    {
      forall i | 0 <= i < |log|
        ensures log[i].name in s
      {
        NeededIn(g, wanted, log, s, i);
      }
    }
  }

  lemma DependencyEarlier(g: Graph, log: seq<Task>, i: nat, j: nat)
    requires NoRepeat(log) && DependenciesFirst(g, log) && i < |log| && j < |log|
    requires log[j].name in g.dependencies && log[i].name in g.dependencies[log[j].name]
    ensures i < j
  {
    assert Before(g.dependencies[log[j].name], log, j);
    var t :| t in log[..j] && t.name == log[i].name;
    var k :| 0 <= k < j && log[..j][k] == t;
    assert log[k].name == log[i].name;
  }

  lemma {:induction false} NeededIn(g: Graph, wanted: set<string>, log: seq<Task>, s: set<string>, i: nat)
    requires GoodLog(g, wanted, log) && Justified(g, wanted, Listed(log)) && wanted <= s && Closed(g, s)
    requires i < |log|
    ensures log[i].name in s
    decreases |log| - i
  {
    hide NoRepeat, DependenciesFirst, OrderKept;
    var n := log[i].name;
    assert log[i] in log;
    if n !in wanted {
      assert NeededBy(g, n, Listed(log));
      var m :| m in Listed(log) && m in g.dependencies && n in g.dependencies[m];
      var j :| 0 <= j < |log| && log[j].name == m;
      DependencyEarlier(g, log, i, j);
      NeededIn(g, wanted, log, s, j);
    }
  }
}
