/** Tasks of the w2 kernel: the task list and the free list of sys/process/process.c, the scheduler of
    sys/process/process_manager.c, and what the system calls of sys/syscall.c do to them. */
module Tasks {
  import opened Words
  import opened Wrappers
  import opened Scheduling

  datatype State =
    | Running | Idle | Interruptible | Uninterruptible | Zombie | Stopped | Swapping | Runnable | Sleep | Waiting

  /** A `struct task_struct`, without its memory, registers, stack and files. */
  class Task {
    var pid: Word
    var ppid: Word
    var name: string
    var state: State
    var next: Task?
    var sleepTime: DWord
    var parent: Task?
    var childCount: DWord
    var waitForChildPid: DWord

    /** Memory as `kmalloc` returns it: every field is arbitrary. */
    constructor ()
    {
    }

    /** The fields `create_new_task` sets. */
    method Start(pid: Word, name: string)
      modifies this
      ensures this.pid == pid && this.name == name && ppid == 0 && parent == null && state == Runnable
      ensures next == null && sleepTime == 0 && childCount == 0 && waitForChildPid == 0
    {
      this.pid, ppid, sleepTime, parent := pid, 0, 0, null;
      childCount, waitForChildPid := 0, 0;
      this.name, state, next := name, Runnable, null;
    }

    /** What `update_time_slices` does to each task. */
    method OnTick()
      modifies this`state, this`sleepTime
      ensures InfoOf(this) == TickedInfo(old(InfoOf(this)))
      ensures state != old(state) ==> state == Runnable && old(state) == Sleep
    {
      if state == Sleep {
        if sleepTime == 0 {
          state := Runnable;
        } else {
          sleepTime := sleepTime - 1;
        }
      }
    }

    /** The fields `free_task_struct` clears. */
    method Clear()
      modifies this
      ensures state == Stopped && next == null && ppid == 0 && parent == null
      ensures childCount == 0 && waitForChildPid == 0 && sleepTime == 0
      ensures pid == old(pid) && name == old(name)
    {
      state, next, ppid, parent, childCount := Stopped, null, 0, null, 0;
      waitForChildPid, sleepTime := 0, 0;
    }
  }

  /** What a task's fields hold, but for its link to the next. */
  datatype Info = Info(pid: Word, ppid: Word, name: string, state: State, left: DWord, parent: Task?,
                       childCount: DWord, waitFor: DWord)

  ghost function InfoOf(t: Task): Info
    reads t`pid, t`ppid, t`name, t`state, t`sleepTime, t`parent, t`childCount, t`waitForChildPid
  {
    Info(t.pid, t.ppid, t.name, t.state, t.sleepTime, t.parent, t.childCount, t.waitForChildPid)
  }

  /** The linked list from `head` is ts. */
  ghost predicate Chain(head: Task?, ts: seq<Task>)
    reads ts`next
  {
    && head == (if ts == [] then null else ts[0])
    && (forall i :: 0 <= i < |ts| - 1 ==> ts[i].next == ts[i + 1])
    && (ts != [] ==> ts[|ts| - 1].next == null)
  }

  lemma EndOfChain(head: Task?, ts: seq<Task>, i: nat)
    requires Chain(head, ts) && i < |ts|
    ensures ts[i].next == null <==> i == |ts| - 1
  {
    if i < |ts| - 1 {
      assert ts[i].next == ts[i + 1];
    }
  }

  lemma WithoutFirst(ts: seq<Task>, t: Task)
    ensures t !in ts ==> Without(ts, t) == ts
    ensures ts != [] && ts[0] == t ==> Without(ts, t) == ts[1..]
    ensures ts != [] && ts[0] != t ==> IndexOf(ts, t) > 0
  {
  }

  lemma WithoutNext(ts: seq<Task>, i: nat)
    requires NoDup(ts) && i + 1 < |ts|
    ensures Without(ts, ts[i + 1]) == ts[..i + 1] + ts[i + 2..]
  {
    IndexAt(ts, i + 1);
  }

  lemma ChainSuffix(head: Task?, ts: seq<Task>, i: nat)
    requires Chain(head, ts) && i < |ts|
    ensures Chain(ts[i].next, ts[i + 1..])
  {
    var r := ts[i + 1..];
    forall k | 0 <= k < |r| - 1
      ensures r[k].next == r[k + 1]
    {
      assert ts[i + 1 + k].next == ts[i + 1 + k + 1];
    }
  }

  /** A task in this state, waiting for a pid, waits for the task of that pid. */
  predicate WaitsFor(state: State, waitFor: DWord, pid: Word) { state == Waiting && waitFor == pid }

  /** What `remove_from_parent` makes of the parent's state when the task of that pid exits. */
  function WokenBy(state: State, waitFor: DWord, pid: Word): State {
    if WaitsFor(state, waitFor, pid) then Runnable else state
  }

  /** What a tick makes of a task. */
  ghost function TickedInfo(i: Info): Info {
    if i.state != Sleep then i
    else match Tick(i.left) {
      case None => i.(state := Runnable)
      case Some(l) => i.(left := l)
    }
  }

  /** Making a parent runnable is what `remove_from_parent` does exactly for one that was runnable or waited
      for this child. */
  lemma WhenWakingIsRight(state: State, waitFor: DWord, pid: Word)
    ensures WokenBy(state, waitFor, pid) == Runnable <==> state == Runnable || WaitsFor(state, waitFor, pid)
  {
  }

  function OrNull(t: Option<Task>): Task? {
    if t == None then null else t.value
  }

  /** Every allocated task is in exactly one place: the task list, the free list, or among the idle ones. */
  ghost predicate Parted(tasks: seq<Task>, free: seq<Task>, idle: set<Task>, known: set<Task>) {
    && NoDup(tasks) && NoDup(free)
    && (forall t :: t in tasks ==> t !in free && t !in idle && t in known)
    && (forall t :: t in free ==> t !in idle && t in known)
    && (forall t :: t in known ==> t in tasks || t in free || t in idle)
    && idle <= known
  }

  lemma PartedAfterFree(tasks: seq<Task>, free: seq<Task>, idle: set<Task>, known: set<Task>, t: Task)
    requires Parted(tasks, free, idle, known) && t in tasks
    ensures Parted(Without(tasks, t), free + [t], idle, known) && t !in Without(tasks, t)
    ensures NoDup(tasks) && NoDup(free) && t !in free
    ensures forall k :: 0 <= k < |free| ==> free[k] !in tasks
    ensures var r := Without(tasks, t); forall k :: 0 <= k < |r| ==> r[k] in tasks && r[k] !in free && r[k] != t
  {
    WithoutMembers(tasks, t);
    var r := Without(tasks, t);
    assert forall k :: 0 <= k < |r| ==> r[k] in r;
  }

  lemma PartedAfterTake(tasks: seq<Task>, free: seq<Task>, idle: set<Task>, known: set<Task>)
    requires Parted(tasks, free, idle, known) && free != []
    ensures Parted(tasks + [free[0]], free[1..], idle, known)
    ensures Parted(tasks, free[1..], idle + {free[0]}, known)
    ensures NoDup(tasks) && NoDup(free) && free[0] !in tasks && free[0] in known
    ensures var r := free[1..]; forall k :: 0 <= k < |r| ==> r[k] !in tasks && r[k] != free[0]
  {
    var t, rest := free[0], free[1..];
    assert free == [t] + rest;
    assert t in free && forall k :: 0 <= k < |rest| ==> rest[k] in free;
    assert forall x :: x in rest ==> x in free;
  }

  lemma PartedAfterNew(tasks: seq<Task>, idle: set<Task>, known: set<Task>, t: Task)
    requires Parted(tasks, [], idle, known) && t !in known
    ensures Parted(tasks + [t], [], idle, known + {t}) && Parted(tasks, [], idle + {t}, known + {t})
    ensures NoDup(tasks) && t !in tasks
  {
  }

  class Kernel {
    var taskList: Task?
    var freeTaskList: Task?
    var currentTask: Task?
    var nextPid: DWord
    var waitingTask: Task?
    var pipeReadWaitQueue: Task?
    var pipeWriteFlag: bool

    ghost var tasks: seq<Task>
    ghost var free: seq<Task>
    ghost var idle: set<Task>
    ghost var known: set<Task>

    /** Both lists are chains and every task is in its one place. */
    ghost predicate Listed()
      reads this`taskList, this`freeTaskList, this`tasks, this`free, this`idle, this`known, tasks`next, free`next
    {
      && Parted(tasks, free, idle, known)
      && Chain(taskList, tasks) && Chain(freeTaskList, free)
    }

    constructor ()
      ensures Valid() && tasks == [] && free == [] && known == {} && currentTask == null && nextPid == 1
      ensures idle == {} && waitingTask == null && pipeReadWaitQueue == null && !pipeWriteFlag
    {
      taskList, freeTaskList, currentTask, nextPid := null, null, null, 1;
      waitingTask, pipeReadWaitQueue, pipeWriteFlag := null, null, false;
      tasks, free, idle, known := [], [], {}, {};
    }

    /** A task with a parent pid has a parent, and parents are other tasks. */
    ghost predicate Family()
      reads this`known, known`ppid, known`parent
    {
      && (forall t :: t in known && t.ppid > 0 ==> t.parent != null)
      && (forall t :: t in known && t.parent != null ==> t.parent in known && t.parent != t)
    }

    ghost predicate Pointers()
      reads this`currentTask, this`tasks, this`waitingTask, this`pipeReadWaitQueue, this`known
    {
      && (currentTask != null ==> currentTask in tasks)
      && (waitingTask != null ==> waitingTask in known)
      && (pipeReadWaitQueue != null ==> pipeReadWaitQueue in known)
    }

    /** No listed task but the current one is running, and that one runs or could. */
    ghost predicate OnlyCurrentRuns()
      reads this`tasks, this`currentTask, tasks`state
    {
      && (forall t :: t in tasks && t.state == Running ==> t == currentTask)
      && (forall t :: t in tasks && t == currentTask ==> t.state == Running || t.state == Runnable)
    }

    ghost predicate Valid()
      reads this, known, tasks`next, free`next, tasks`state
    {
      Listed() && Family() && Pointers() && OnlyCurrentRuns()
    }

    /** The tasks a search may choose. */
    ghost function RunnableTasks(): set<Task>
      reads this`known, known`state
    {
      set t | t in known && t.state == Runnable
    }

    // ---- The lists -------------------------------------------------------------------------------

    method AddToTaskList(task: Task)
      requires Chain(taskList, tasks) && NoDup(tasks) && task !in tasks
      modifies this`taskList, this`tasks, tasks`next, task`next
      ensures tasks == old(tasks) + [task] && Chain(taskList, tasks) && task.next == null
    {
      if taskList == null {
        taskList := task;
        task.next := null;
      } else {
        var t := taskList;
        ghost var i := 0;
        while t.next != null
          invariant 0 <= i < |tasks| && t == tasks[i]
          decreases |tasks| - i
        {
          t := t.next;
          i := i + 1;
        }
        EndOfChain(taskList, tasks, i);
        t.next := task;
        task.next := null;
      }
      tasks := tasks + [task];
    }

    method AddToFreeTaskList(task: Task)
      requires Chain(freeTaskList, free) && NoDup(free) && task !in free
      modifies this`freeTaskList, this`free, free`next, task`next
      ensures free == old(free) + [task] && Chain(freeTaskList, free)
    {
      if freeTaskList == null {
        freeTaskList := task;
        freeTaskList.next := null;
      } else {
        var t := freeTaskList;
        ghost var i := 0;
        while t.next != null
          invariant 0 <= i < |free| && t == free[i]
          decreases |free| - i
        {
          t := t.next;
          i := i + 1;
        }
        EndOfChain(freeTaskList, free, i);
        t.next := task;
        t.next.next := null;
      }
      free := free + [task];
    }

    /** `get_free_task`: the head of the free list, or new memory. */
    method GetFreeTask() returns (task: Task)
      requires Chain(freeTaskList, free)
      modifies this`freeTaskList, this`free
      ensures old(free) == [] ==> fresh(task) && free == []
      ensures old(free) != [] ==> task == old(free[0]) && free == old(free[1..])
      ensures Chain(freeTaskList, free)
    {
      if freeTaskList != null {
        task := freeTaskList;
        freeTaskList := freeTaskList.next;
        free := free[1..];
        return;
      }
      task := new Task();
    }

    /** `p->next = c->next`. */
    method Bypass(p: Task, c: Task, ghost i: nat)
      requires Chain(taskList, tasks) && NoDup(tasks) && i + 1 < |tasks| && p == tasks[i] && c == tasks[i + 1]
      modifies p`next, this`tasks
      ensures tasks == Without(old(tasks), c) && Chain(taskList, tasks)
    {
      hide Without, IndexOf;
      WithoutNext(tasks, i);
      p.next := c.next;
      ghost var ts, r := tasks, tasks[..i + 1] + tasks[i + 2..];
      forall k | 0 <= k < |r| - 1
        ensures r[k].next == r[k + 1]
      {
        ghost var j := if k < i then k else k + 1;
        assert old(ts[j].next) == ts[j + 1];
      }
      assert r[|r| - 1] == if i + 2 == |ts| then p else ts[|ts| - 1];
      tasks := r;
    }

    /** `remove_from_task_list`: unlinks the task wherever it stands, and stops it. */
    method RemoveFromTaskList(task: Task)
      requires Chain(taskList, tasks) && NoDup(tasks)
      modifies this`taskList, this`tasks, tasks`next, task`state
      ensures tasks == Without(old(tasks), task) && Chain(taskList, tasks)
      ensures task.state == Stopped
    {
      hide Without, IndexOf, NoDup;
      WithoutFirst(tasks, task);
      task.state := Stopped;
      if taskList == null {
        return;
      }
      var p := taskList;
      var c := p.next;
      if p == task {
        taskList := taskList.next;
        tasks := tasks[1..];
        return;
      }
      ghost var i := 0;
      while c != null
        invariant 0 <= i < |tasks| && p == tasks[i] && c == p.next && i < IndexOf(tasks, task)
        decreases |tasks| - i
      {
        assert i < |tasks| - 1 && c == tasks[i + 1];
        if c == task {
          Bypass(p, c, i);
          return;
        }
        p := c;
        c := c.next;
        i := i + 1;
      }
      EndOfChain(taskList, tasks, i);
    }

    // ---- Creating and freeing --------------------------------------------------------------------

    /** The list part of `create_new_task`: every task but the idle one goes onto the list. */
    method Enlist(taskname: string) returns (task: Task)
      requires Listed()
      modifies this`taskList, this`tasks, this`freeTaskList, this`free, this`idle, this`known
      modifies tasks`next, (if free == [] then {} else {free[0]})`next
      ensures Listed() && (taskname == "idle" || task.next == null)
      ensures if old(free) == [] then fresh(task) && free == [] else task == old(free[0]) && free == old(free[1..])
      ensures tasks == if taskname == "idle" then old(tasks) else old(tasks) + [task]
      ensures idle == if taskname == "idle" then old(idle) + {task} else old(idle)
      ensures known == old(known) + {task}
    {
      hide Chain, Parted, NoDup;
      if free != [] {
        PartedAfterTake(tasks, free, idle, known);
      }
      task := GetFreeTask();
      if old(free) == [] {
        PartedAfterNew(tasks, idle, known, task);
      } else {
        assert known + {task} == known;
      }
      if taskname != "idle" {
        AddToTaskList(task);
      } else {
        idle := idle + {task};
      }
      known := known + {task};
    }

    lemma IdleApart(t: Task)
      requires Listed() && t in idle
      ensures forall k :: 0 <= k < |tasks| ==> tasks[k] != t
      ensures forall k :: 0 <= k < |free| ==> free[k] != t
    {
    }

    /** `create_new_task`. */
    method CreateNewTask(taskname: string) returns (task: Task)
      requires Listed()
      modifies this`taskList, this`tasks, this`freeTaskList, this`free, this`idle, this`known, this`nextPid
      modifies tasks`next, if free == [] then {} else {free[0]}
      ensures Listed() && task !in old(tasks) && known == old(known) + {task}
      ensures if old(free) == [] then fresh(task) && free == [] else task == old(free[0]) && free == old(free[1..])
      ensures tasks == if taskname == "idle" then old(tasks) else old(tasks) + [task]
      ensures idle == if taskname == "idle" then old(idle) + {task} else old(idle)
      ensures InfoOf(task) == Info(old(nextPid) % B32, 0, taskname, Runnable, 0, null, 0, 0)
      ensures forall t :: t in old(known) && t != task ==> InfoOf(t) == old(InfoOf(t))
      ensures nextPid == (old(nextPid) + 1) % B64
    {
      hide Listed;
      Members();
      task := Enlist(taskname);
      if task in idle {
        IdleApart(task);
      }
      task.Start(nextPid % B32, taskname);
      nextPid := (nextPid + 1) % B64;
    }

    /** A new task keeps every invariant. */
    method Create(taskname: string) returns (task: Task)
      requires Valid()
      modifies this`taskList, this`tasks, this`freeTaskList, this`free, this`idle, this`known, this`nextPid
      modifies tasks`next, if free == [] then {} else {free[0]}
      ensures Valid() && task !in old(tasks) && known == old(known) + {task}
      ensures if old(free) == [] then fresh(task) && free == [] else task == old(free[0]) && free == old(free[1..])
      ensures tasks == if taskname == "idle" then old(tasks) else old(tasks) + [task]
      ensures idle == if taskname == "idle" then old(idle) + {task} else old(idle)
      ensures InfoOf(task) == Info(old(nextPid) % B32, 0, taskname, Runnable, 0, null, 0, 0)
      ensures forall t :: t in old(known) && t != task ==> InfoOf(t) == old(InfoOf(t))
      ensures nextPid == (old(nextPid) + 1) % B64
    {
      hide Listed;
      task := CreateNewTask(taskname);
    }

    /** The list part of `free_task_struct`. */
    method FreeTaskStruct(task: Task)
      requires Listed() && Family() && task in tasks
      modifies this`taskList, this`tasks, this`freeTaskList, this`free
      modifies tasks`next, free`next, task
      ensures Listed() && Family()
      ensures forall t :: t in tasks <==> t in old(tasks) && t != task
      ensures tasks == Without(old(tasks), task) && free == old(free) + [task]
      ensures InfoOf(task) == Info(old(task.pid), 0, old(task.name), Stopped, 0, null, 0, 0)
      ensures forall t :: t in known && t != task ==> InfoOf(t) == old(InfoOf(t))
    {
      hide Chain, Parted, NoDup, Without;
      LeaveList(task);
      PartedAfterFree(tasks, free, idle, known, task);
      RemoveFromTaskList(task);
      task.Clear();
      AddToFreeTaskList(task);
    }

    // ---- The search and the scheduler ------------------------------------------------------------

    /** The walk of `get_next_task` over one list: the first runnable task other than `current`. */
    method Search(head: Task?, current: Task, ghost ts: seq<Task>) returns (task: Task?)
      requires Chain(head, ts) && forall t :: t in ts ==> t in known
      ensures task == OrNull(FirstRunnable(ts, current, RunnableTasks()))
    {
      task := head;
      ghost var i := 0;
      while task != null
        invariant 0 <= i <= |ts| && task == (if i < |ts| then ts[i] else null)
        invariant FirstRunnable(ts, current, RunnableTasks()) == FirstRunnable(ts[i..], current, RunnableTasks())
        decreases |ts| - i
      {
        if task != current && task.state == Runnable {
          return;
        }
        assert ts[i..][1..] == ts[i + 1..];
        task := task.next;
        i := i + 1;
      }
    }

    /** What follows a task on the list. */
    ghost function Behind(t: Task): (r: seq<Task>)
      requires t in tasks
      reads this`tasks
      ensures forall x :: x in r ==> x in tasks
    {
      tasks[IndexOf(tasks, t) + 1..]
    }

    /** `get_next_task`: round the list from the current task; without one, the head whatever its state. */
    method GetNextTask(current: Task?) returns (task: Task?)
      requires Listed() && (current != null ==> current in tasks)
      ensures current == null ==> task == taskList
      ensures current != null ==> task == OrNull(FirstRunnable<Task>(Behind(current) + tasks, current, RunnableTasks()))
    {
      hide Listed, Chain, Behind, FirstRunnable, RunnableTasks;
      if current == null {
        return taskList;
      }
      BehindIsChain(current);
      FirstOfTwo<Task>(Behind(current), tasks, current, RunnableTasks());
      task := Search(current.next, current, Behind(current));
      if task != null {
        return;
      }
      task := Search(taskList, current, tasks);
    }

    lemma BehindIsChain(t: Task)
      requires Listed() && t in tasks
      ensures Chain(t.next, Behind(t)) && Chain(taskList, tasks)
      ensures forall x :: x in Behind(t) ==> x in known
      ensures forall x :: x in tasks ==> x in known
    {
      ChainSuffix(taskList, tasks, IndexOf(tasks, t));
    }

    lemma Members()
      requires Listed()
      ensures forall x :: x in tasks ==> x in known && x !in free
      ensures forall x :: x in free ==> x in known
      ensures taskList == if tasks == [] then null else tasks[0]
    {
    }

    lemma PickedBehind(t: Task)
      requires t in tasks
      ensures var r := FirstRunnable(Behind(t) + tasks, t, RunnableTasks());
              Picked(tasks, t, RunnableTasks()) == if r == None then t else r.value
    {
    }

    /** `schedule_process`. With a current task it is the round-robin choice; without one it is the head of
        the list. So a task that was not runnable gets to run exactly when there is no current task and the
        head is not runnable. */
    method ScheduleProcess()
      requires Valid()
      modifies this`currentTask, known`state
      ensures Valid()
      ensures old(currentTask) == null ==> currentTask == taskList
      ensures old(currentTask) != null ==>
                currentTask == Picked<Task>(tasks, old(currentTask), old(RunnableTasks()))
      ensures currentTask == old(currentTask) ==> forall t :: t in known ==> t.state == old(t.state)
      ensures currentTask != old(currentTask) ==>
                && currentTask != null && currentTask.state == Running
                && (old(currentTask) != null ==> old(currentTask).state == Runnable)
                && (forall t :: t in known && t != currentTask && t != old(currentTask) ==> t.state == old(t.state))
      ensures currentTask != old(currentTask) && currentTask !in old(RunnableTasks()) <==>
              old(currentTask) == null && taskList != null && taskList !in old(RunnableTasks())
    {
      hide Listed, Behind, FirstRunnable, Picked, Family;
      Members();
      if currentTask != null {
        PickedBehind(currentTask);
      }
      var task := GetNextTask(currentTask);
      if task == null {
        return;
      }
      if currentTask != null {
        currentTask.state := Runnable;
      }
      currentTask := task;
      currentTask.state := Running;
    }

    /** `update_time_slices`: one tick for every sleeping task on the list. */
    method UpdateTimeSlices()
      requires Valid()
      modifies tasks`state, tasks`sleepTime
      ensures Valid()
      ensures forall t :: t in tasks ==> InfoOf(t) == TickedInfo(old(InfoOf(t)))
      ensures forall t :: t in known && t !in tasks ==> InfoOf(t) == old(InfoOf(t))
    {
      hide Listed, Family, Pointers, OnlyCurrentRuns, InfoOf, TickedInfo;
      ListInOrder();
      TickListed();
      forall t | t in tasks
        ensures InfoOf(t) == TickedInfo(old(InfoOf(t)))
      {
        assert tasks[IndexOf(tasks, t)] == t;
      }
    }

    /** Its walk along the list. */
    method TickListed()
      requires Chain(taskList, tasks) && NoDup(tasks) && OnlyCurrentRuns()
      modifies tasks`state, tasks`sleepTime
      ensures OnlyCurrentRuns()
      ensures forall k :: 0 <= k < |tasks| ==> InfoOf(tasks[k]) == TickedInfo(old(InfoOf(tasks[k])))
    {
      hide InfoOf, TickedInfo;
      var t := taskList;
      ghost var i := 0;
      while t != null
        invariant 0 <= i <= |tasks| && t == (if i < |tasks| then tasks[i] else null)
        invariant forall k :: i <= k < |tasks| ==> InfoOf(tasks[k]) == old(InfoOf(tasks[k]))
        invariant forall k :: 0 <= k < i ==> InfoOf(tasks[k]) == TickedInfo(old(InfoOf(tasks[k])))
        invariant OnlyCurrentRuns()
        decreases |tasks| - i
      {
        t.OnTick();
        t := t.next;
        i := i + 1;
      }
    }

    lemma ListInOrder()
      requires Listed()
      ensures Chain(taskList, tasks) && NoDup(tasks)
      ensures forall t :: t in tasks ==> t in known
    {
    }

    // ---- System calls ----------------------------------------------------------------------------

    /** `system_fork`: a new runnable child at the end of the list; the caller stays runnable and gives up
        the processor. */
    method Fork() returns (childPid: Word, ghost child: Task)
      requires Valid() && currentTask != null
      modifies this`taskList, this`tasks, this`freeTaskList, this`free, this`known, this`idle, this`nextPid
      modifies this`currentTask, tasks`next, currentTask`childCount, currentTask`state
      modifies if free == [] then {} else {free[0]}
      ensures Valid() && currentTask == null
      ensures tasks == old(tasks) + [child] && free == (if old(free) == [] then [] else old(free[1..]))
      ensures child !in old(tasks) && known == old(known) + {child}
      ensures if old(free) == [] then fresh(child) else child == old(free[0])
      ensures childPid == child.pid && idle == old(idle) && nextPid == (old(nextPid) + 1) % B64
      ensures InfoOf(child) ==
              Info(old(nextPid) % B32, old(currentTask.pid), "child", Runnable, 0, old(currentTask), 0, 0)
      ensures InfoOf(old(currentTask)) ==
              old(InfoOf(currentTask)).(state := Runnable, childCount := (old(currentTask.childCount) + 1) % B64)
      ensures forall t :: t in old(known) && t != child && t != old(currentTask) ==> InfoOf(t) == old(InfoOf(t))
    {
      hide Listed, Family, OnlyCurrentRuns, NoDup;
      Members();
      var parent := currentTask;
      var c := Create("child");
      child := c;
      Adopt(parent, c);
      childPid := c.pid;
    }

    /** The rest of `system_fork`: the parent counts its child and gives up the processor. */
    method Adopt(parent: Task, child: Task)
      requires Valid() && parent == currentTask && child in tasks && child != parent && child.state == Runnable
      modifies child`ppid, child`parent, parent`childCount, parent`state, this`currentTask
      ensures Valid() && currentTask == null
      ensures child.ppid == parent.pid && child.parent == parent
      ensures parent.state == Runnable && parent.childCount == (old(parent.childCount) + 1) % B64
    {
      hide Listed, Family;
      LinkParent(parent, child);
      parent.childCount := (parent.childCount + 1) % B64;
      parent.state := Runnable;
      currentTask := null;
    }

    method LinkParent(parent: Task, child: Task)
      requires Listed() && Family() && parent in tasks && child in tasks && child != parent
      modifies child`ppid, child`parent
      ensures Listed() && Family() && child.ppid == parent.pid && child.parent == parent
    {
      hide Listed;
      Members();
      child.ppid := parent.pid;
      child.parent := parent;
    }

    /** `remove_from_parent`: the parent counts one child fewer, and becomes runnable if it waits for this
        child. */
    method RemoveFromParent(child: Task)
      requires child.parent != null
      modifies child.parent`childCount, child.parent`state
      ensures child.parent.childCount == (old(child.parent.childCount) - 1) % B64
      ensures child.parent.state == WokenBy(old(child.parent.state), child.parent.waitForChildPid, child.pid)
    {
      var parent := child.parent;
      parent.childCount := (parent.childCount - 1) % B64;
      if parent.state == Waiting && parent.waitForChildPid == child.pid {
        parent.state := Runnable;
      }
    }

    /** What `system_exit` does to the parent of a task that has one: it wakes it before `remove_from_parent`
        looks whether it waits. */
    method WakeParent(task: Task)
      requires Valid() && task in known && task.parent != null
      modifies task.parent`childCount, task.parent`state
      ensures Valid() && task.parent.state == Runnable
      ensures InfoOf(task.parent) ==
              old(InfoOf(task.parent)).(state := Runnable, childCount := (old(task.parent.childCount) - 1) % B64)
      ensures forall t :: t in known && t != task.parent ==> InfoOf(t) == old(InfoOf(t))
    {
      hide Listed;
      task.parent.state := Runnable;
      RemoveFromParent(task);
    }

    /** `system_exit`: the caller moves to the free list and its parent becomes runnable, which is what
        `remove_from_parent` alone would leave exactly for a parent that was runnable or waited for this
        child. */
    method Exit()
      requires Valid() && currentTask != null
      modifies this`taskList, this`tasks, this`freeTaskList, this`free, this`currentTask
      modifies tasks`next, free`next, currentTask
      modifies (if currentTask.parent == null then {} else {currentTask.parent})`state
      modifies (if currentTask.parent == null then {} else {currentTask.parent})`childCount
      ensures Valid() && currentTask == null
      ensures tasks == Without<Task>(old(tasks), old(currentTask)) && free == old(free) + [old(currentTask)]
      ensures InfoOf(old(currentTask)) ==
              Info(old(currentTask.pid), 0, old(currentTask.name), Stopped, 0, null, 0, 0)
      ensures old(currentTask.ppid) == 0 ==>
                forall t :: t in known && t != old(currentTask) ==> InfoOf(t) == old(InfoOf(t))
      ensures forall t :: t in known && t != old(currentTask) && t != old(currentTask.parent) ==>
                InfoOf(t) == old(InfoOf(t))
      ensures old(currentTask.ppid) > 0 ==>
                && old(currentTask.parent) != null && old(currentTask.parent) != old(currentTask)
                && InfoOf(old(currentTask.parent)) ==
                  old(InfoOf(currentTask.parent)).(state := Runnable,
                                                   childCount := (old(currentTask.parent.childCount) - 1) % B64)
                && (old(currentTask.parent).state ==
                    WokenBy(old(currentTask.parent.state), old(currentTask.parent.waitForChildPid),
                            old(currentTask.pid))
                    <==> old(currentTask.parent.state) == Runnable ||
                         WaitsFor(old(currentTask.parent.state), old(currentTask.parent.waitForChildPid),
                                  old(currentTask.pid)))
    {
      hide Listed, NoDup, Without, Family, WokenBy, WaitsFor, InfoOf;
      Members();
      ParentOf(currentTask);
      var task := currentTask;
      if task.parent != null {
        WhenWakingIsRight(task.parent.state, task.parent.waitForChildPid, task.pid);
      }
      if task.ppid > 0 {
        WakeParent(task);
      }
      Retire(task);
      currentTask := null;
    }

    /** The end of `system_exit` and `system_kill`: the task is freed, and stopped once more. */
    method Retire(task: Task)
      requires Listed() && Family() && task in tasks
      modifies this`taskList, this`tasks, this`freeTaskList, this`free
      modifies tasks`next, free`next, task
      ensures Listed() && Family()
      ensures forall t :: t in tasks <==> t in old(tasks) && t != task
      ensures forall t :: t in tasks ==> t.state == old(t.state)
      ensures tasks == Without(old(tasks), task) && free == old(free) + [task]
      ensures InfoOf(task) == Info(old(task.pid), 0, old(task.name), Stopped, 0, null, 0, 0)
      ensures forall t :: t in known && t != task ==> InfoOf(t) == old(InfoOf(t))
    {
      hide Listed, Family, Without;
      Members();
      FreeTaskStruct(task);
      task.state := Stopped;
    }

    /** `get_task`: the first listed task of that pid. */
    method GetTask(pid: DWord) returns (t: Task?)
      requires Chain(taskList, tasks)
      ensures t == null <==> forall x :: x in tasks ==> x.pid != pid
      ensures t != null ==> t in tasks && t.pid == pid
      ensures t != null ==> forall k :: 0 <= k < IndexOf<Task>(tasks, t) ==> tasks[k].pid != pid
    {
      t := taskList;
      ghost var i := 0;
      while t != null
        invariant 0 <= i <= |tasks| && t == (if i < |tasks| then tasks[i] else null)
        invariant forall k :: 0 <= k < i ==> tasks[k].pid != pid
        decreases |tasks| - i
      {
        if t.pid == pid {
          return;
        }
        t := t.next;
        i := i + 1;
      }
    }

    /** `system_kill`: the first task of that pid moves to the free list. A task that kills itself stays the
        current one there, which breaks the kernel's invariants; nothing else does. */
    method Kill(processId: DWord) returns (r: int, ghost victim: Task?)
      requires Valid()
      modifies this`taskList, this`tasks, this`freeTaskList, this`free
      modifies tasks, free`next
      ensures Listed() && Family()
      ensures Valid() <==> victim == null || victim != currentTask
      ensures forall t :: t in known && t != victim ==> InfoOf(t) == old(InfoOf(t))
      ensures r == (if victim == null then -1 else 0)
      ensures victim == null ==> tasks == old(tasks) && free == old(free)
      ensures victim == null ==> forall t :: t in old(tasks) ==> old(t.pid) != processId
      ensures victim != null ==>
                && victim in old(tasks) && old(victim.pid) == processId
                && InfoOf(victim) == Info(old(victim.pid), 0, old(victim.name), Stopped, 0, null, 0, 0)
                && (forall k :: 0 <= k < IndexOf<Task>(old(tasks), victim) ==> old(tasks[k].pid) != processId)
                && tasks == Without<Task>(old(tasks), victim) && free == old(free) + [victim]
    {
      hide Parted, Chain, NoDup, Family, Without, IndexOf, InfoOf;
      Members();
      var t := GetTask(processId);
      victim := t;
      if t != null {
        Retire(t);
        return 0, victim;
      }
      return -1, victim;
    }

    /** `system_waitpid`: without children it returns at once; else the caller waits. */
    method Waitpid(childPid: DWord) returns (waits: bool)
      requires Valid() && currentTask != null
      modifies this`currentTask, currentTask`state, currentTask`waitForChildPid
      ensures Valid()
      ensures waits <==> old(currentTask.childCount) != 0
      ensures waits ==> currentTask == null && old(currentTask).state == Waiting
      ensures waits ==> old(currentTask).waitForChildPid == childPid
      ensures !waits ==> currentTask == old(currentTask) && currentTask.state == old(currentTask.state)
      ensures !waits ==> currentTask.waitForChildPid == old(currentTask.waitForChildPid)
    {
      hide Listed, Family;
      Members();
      var task := currentTask;
      if task.childCount == 0 {
        return false;
      }
      task.state := Waiting;
      task.waitForChildPid := childPid;
      currentTask := null;
      return true;
    }

    /** `system_sleep`: the caller sleeps for TicksAsleep(sec) ticks. */
    method SystemSleep(sec: DWord)
      requires Valid() && currentTask != null
      modifies this`currentTask, currentTask`state, currentTask`sleepTime
      ensures Valid() && currentTask == null
      ensures old(currentTask).state == Sleep && old(currentTask).sleepTime == TicksAsleep(sec) - 1
    {
      hide Listed, Family;
      Members();
      var task := currentTask;
      task.state := Sleep;
      task.sleepTime := (sec - 1) % B64;
      currentTask := null;
    }

    /** The blocking branches of `system_read` on standard input: from the keyboard, or from a pipe nothing
        has been written to. */
    method SystemRead(redirected: bool) returns (blocks: bool)
      requires Valid() && currentTask != null
      modifies this`currentTask, this`waitingTask, this`pipeReadWaitQueue, this`pipeWriteFlag, currentTask`state
      ensures Valid()
      ensures blocks <==> !(redirected && old(pipeWriteFlag))
      ensures blocks ==> currentTask == null && old(currentTask).state == Waiting
      ensures waitingTask == if redirected then old(waitingTask) else old(currentTask)
      ensures pipeReadWaitQueue == if blocks && redirected then old(currentTask) else old(pipeReadWaitQueue)
      ensures blocks ==> pipeWriteFlag == old(pipeWriteFlag)
      ensures !blocks ==> currentTask == old(currentTask) && currentTask.state == old(currentTask.state)
      ensures !blocks ==> !pipeWriteFlag
    {
      hide Listed, Family;
      Members();
      var task := currentTask;
      if redirected {
        if pipeWriteFlag {
          pipeWriteFlag := false;
          return false;
        }
        task.state := Waiting;
        currentTask := null;
        pipeReadWaitQueue := task;
      } else {
        task.state := Waiting;
        currentTask := null;
        waitingTask := task;
      }
      return true;
    }

    /** `wake_waiting_task`: the keyboard reader, which is never forgotten, becomes runnable. */
    method WakeWaitingTask()
      requires Valid() && waitingTask != null
      modifies waitingTask`state
      ensures Valid() && waitingTask.state == Runnable
    {
      hide Listed, Family;
      waitingTask.state := Runnable;
    }

    /** A write to the pipe: `wake_up_waiting_task` wakes the reader, if there ever was one. */
    method WakePipeReader()
      requires Valid()
      modifies this`pipeWriteFlag, (if pipeReadWaitQueue == null then {} else {pipeReadWaitQueue})`state
      ensures Valid() && (pipeWriteFlag <==> pipeReadWaitQueue == null)
      ensures pipeReadWaitQueue != null ==> pipeReadWaitQueue.state == Runnable
    {
      hide Listed, Family;
      pipeWriteFlag := true;
      if pipeReadWaitQueue != null {
        pipeReadWaitQueue.state := Runnable;
        pipeWriteFlag := false;
      }
    }

    lemma ParentOf(t: Task)
      requires Family() && t in known
      ensures t.ppid > 0 ==> t.parent != null
      ensures t.parent != null ==> t.parent in known && t.parent != t
    {
    }

    lemma LeaveList(t: Task)
      requires Listed() && t in tasks
      ensures forall x :: x in Without(tasks, t) <==> x in tasks && x != t
    {
      WithoutMembers(tasks, t);
    }
  }
}
