/** Runs of the w2 kernel: any sequence of system calls, schedule calls, timer ticks and wake-ups, executed
    on a Kernel and recorded as the states it goes through. */
module KernelRuns {
  import opened Words
  import opened Wrappers
  import opened Scheduling
  import opened Tasks

  /** What can happen. The system calls are those of the current task; without one, or with nobody to wake,
      nothing happens. A task killing itself is not among them. */
  datatype Event =
    | NewTask(name: string) | ScheduleCall | TimerTick
    | SysFork | SysExit | SysKill(pid: DWord) | SysWaitpid(pid: DWord) | SysSleep(sec: DWord)
    | SysRead(redirected: bool)
    | KeyboardWake | PipeWake

  /** The kernel in one state: the two lists, the idle tasks, all tasks ever allocated with their fields, and
      the kernel's own variables. */
  datatype View = View(tasks: seq<Task>, free: seq<Task>, idle: set<Task>, known: set<Task>,
                       current: Task?, waiting: Task?, reader: Task?, pipeFlag: bool, nextPid: DWord,
                       info: map<Task, Info>)

  ghost function Now(k: Kernel): View
    reads k, k.known
  {
    View(k.tasks, k.free, k.idle, k.known, k.currentTask, k.waitingTask, k.pipeReadWaitQueue, k.pipeWriteFlag,
         k.nextPid, map t | t in k.known :: InfoOf(t))
  }

  /** The fields of a task, all zero for null. */
  ghost function At(v: View, t: Task?): Info {
    if t != null && t in v.info then v.info[t] else Info(0, 0, "", Stopped, 0, null, 0, 0)
  }

  ghost function With(v: View, t: Task, i: Info): View { v.(info := v.info[t := i]) }

  lemma NowIs(k: Kernel)
    ensures var v := Now(k);
            && v.tasks == k.tasks && v.free == k.free && v.idle == k.idle && v.known == k.known
            && v.current == k.currentTask && v.waiting == k.waitingTask && v.reader == k.pipeReadWaitQueue
            && v.pipeFlag == k.pipeWriteFlag && v.nextPid == k.nextPid && v.info.Keys == k.known
            && forall t :: t in k.known ==> At(v, t) == InfoOf(t)
  {
  }

  /** Everything a state refers to is an allocated task. */
  ghost predicate Closed(v: View) {
    && v.info.Keys == v.known
    && (forall t :: t in v.tasks ==> t in v.info) && (forall t :: t in v.free ==> t in v.info)
    && (v.current != null ==> v.current in v.tasks)
    && (v.waiting != null ==> v.waiting in v.info) && (v.reader != null ==> v.reader in v.info)
  }

  /** A task with a parent pid has a parent, and parents are other allocated tasks. */
  ghost predicate Families(v: View) {
    && (forall t :: t in v.info && v.info[t].ppid > 0 ==> v.info[t].parent != null)
    && (forall t :: t in v.info && v.info[t].parent != null ==> v.info[t].parent in v.info && v.info[t].parent != t)
  }

  // ---- What holds in every state -----------------------------------------------------------------

  ghost predicate Sound(v: View) {
    && Closed(v) && Families(v) && Parted(v.tasks, v.free, v.idle, v.known)
    && (forall t :: t in v.tasks && At(v, t).state == Running ==> t == v.current)
    && (v.current != null ==> At(v, v.current).state == Running || At(v, v.current).state == Runnable)
  }

  lemma ValidIsSound(k: Kernel)
    requires k.Valid()
    ensures Sound(Now(k))
  {
  }

  lemma CurrentKnown(k: Kernel)
    requires k.Valid()
    ensures k.currentTask != null ==> k.currentTask in k.tasks && k.currentTask in k.known
  {
  }

  lemma ParentKnown(k: Kernel)
    requires k.Valid() && k.currentTask != null
    ensures k.currentTask.parent != null ==> k.currentTask.parent in k.known && k.currentTask.parent != k.currentTask
    ensures k.currentTask.ppid > 0 ==> k.currentTask.parent != null
  {
  }

  lemma ReadersKnown(k: Kernel)
    requires k.Valid()
    ensures k.waitingTask != null ==> k.waitingTask in k.known
    ensures k.pipeReadWaitQueue != null ==> k.pipeReadWaitQueue in k.known
  {
  }

  lemma ListedKnown(k: Kernel)
    requires k.Valid()
    ensures forall t :: t in k.tasks ==> t in k.known
    ensures k.taskList == if k.tasks == [] then null else k.tasks[0]
  {
  }

  lemma FreeKnown(k: Kernel)
    requires k.Valid()
    ensures forall t :: t in k.free ==> t in k.known && t !in k.tasks
    ensures k.free != [] ==> k.free[0] in k.known && k.free[0] !in k.tasks
  {
  }

  // ---- What each event does ----------------------------------------------------------------------

  ghost function Runnables(v: View): set<Task> { set t | t in v.info && v.info[t].state == Runnable }

  /** `create_new_task` takes the head of the free list, or new memory when that is empty. */
  ghost predicate Supplies(v: View, t: Task) { if v.free == [] then t !in v.known else t == v.free[0] }

  ghost function Created(v: View, name: string, t: Task): View {
    var listed := name != "idle";
    v.(tasks := if listed then v.tasks + [t] else v.tasks,
       free := if v.free == [] then [] else v.free[1..],
       idle := if listed then v.idle else v.idle + {t},
       known := v.known + {t},
       nextPid := (v.nextPid + 1) % B64,
       info := v.info[t := Info(v.nextPid % B32, 0, name, Runnable, 0, null, 0, 0)])
  }

  /** `system_fork`: the child is linked to the caller, and both can run. */
  ghost function Forked(v: View, t: Task): View
    requires v.current != null
  {
    var w, i := Created(v, "child", t), At(v, v.current);
    var parent := i.(childCount := (i.childCount + 1) % B64, state := Runnable);
    With(With(w, t, At(w, t).(ppid := i.pid, parent := v.current)), v.current, parent).(current := null)
  }

  /** `free_task_struct`: the task moves to the end of the free list and keeps its pid and name. */
  ghost function Retired(v: View, t: Task): View {
    With(v, t, Info(At(v, t).pid, 0, At(v, t).name, Stopped, 0, null, 0, 0))
      .(tasks := Without(v.tasks, t), free := v.free + [t])
  }

  /** `system_exit`: the parent of a task that has one is woken and counts one child fewer. */
  ghost function Exited(v: View): View
    requires v.current != null
  {
    var i := At(v, v.current);
    var p := At(v, i.parent);
    var w := if i.ppid == 0 || i.parent == null then v
             else With(v, i.parent, p.(state := Runnable, childCount := (p.childCount - 1) % B64));
    Retired(w, v.current).(current := null)
  }

  /** The first listed task of a pid, which is the one `system_kill` takes. */
  ghost function Victim(v: View, ts: seq<Task>, pid: DWord): (r: Task?)
    ensures r != null ==> r in ts && At(v, r).pid == pid
  {
    if ts == [] then null else if At(v, ts[0]).pid == pid then ts[0] else Victim(v, ts[1..], pid)
  }

  ghost function Killed(v: View, pid: DWord): View {
    var victim := Victim(v, v.tasks, pid);
    if victim == null then v else Retired(v, victim)
  }

  ghost function Waited(v: View, pid: DWord): View
    requires v.current != null
  {
    var i := At(v, v.current);
    if i.childCount == 0 then v else With(v, v.current, i.(state := Waiting, waitFor := pid)).(current := null)
  }

  ghost function Slept(v: View, sec: DWord): View
    requires v.current != null
  {
    With(v, v.current, At(v, v.current).(state := State.Sleep, left := TicksAsleep(sec) - 1)).(current := null)
  }

  /** Reading from the keyboard, or from a pipe, which blocks unless something was written to it. */
  ghost function Reading(v: View, redirected: bool): View
    requires v.current != null
  {
    var w := With(v, v.current, At(v, v.current).(state := Waiting)).(current := null);
    if !redirected then w.(waiting := v.current)
    else if v.pipeFlag then v.(pipeFlag := false)
    else w.(reader := v.current)
  }

  ghost function KeyPressed(v: View): View {
    if v.waiting == null then v else With(v, v.waiting, At(v, v.waiting).(state := Runnable))
  }

  ghost function PipeWritten(v: View): View {
    if v.reader == null then v.(pipeFlag := true)
    else With(v, v.reader, At(v, v.reader).(state := Runnable)).(pipeFlag := false)
  }

  /** `schedule_process`: the head of the list without a current task, else the round-robin choice. */
  ghost function Scheduled(v: View): View {
    if v.current == null then
      if v.tasks == [] then v
      else With(v, v.tasks[0], At(v, v.tasks[0]).(state := Running)).(current := v.tasks[0])
    else
      var t := if v.current in v.tasks then Picked<Task>(v.tasks, v.current, Runnables(v)) else v.current;
      if t == v.current then v
      else
        var w := With(v, v.current, At(v, v.current).(state := Runnable));
        With(w, t, At(w, t).(state := Running)).(current := t)
  }

  ghost function TickPassed(v: View): View {
    v.(info := map t | t in v.info :: if t in v.tasks then TickedInfo(v.info[t]) else v.info[t])
  }

  /** An event that can happen: a system call needs a caller, and no task kills itself. */
  ghost predicate Happens(v: View, e: Event) {
    match e
    case NewTask(_) => true
    case ScheduleCall => true
    case TimerTick => true
    case KeyboardWake => true
    case PipeWake => true
    case SysKill(pid) => v.current != null && At(v, v.current).pid != pid
    case _ => v.current != null
  }

  /** The state after an event that allocates no task. */
  ghost function After(v: View, e: Event): View
    requires Happens(v, e) && !e.NewTask? && !e.SysFork?
  {
    match e
    case ScheduleCall => Scheduled(v)
    case TimerTick => TickPassed(v)
    case SysExit => Exited(v)
    case SysKill(pid) => Killed(v, pid)
    case SysWaitpid(pid) => Waited(v, pid)
    case SysSleep(sec) => Slept(v, sec)
    case SysRead(redirected) => Reading(v, redirected)
    case KeyboardWake => KeyPressed(v)
    case PipeWake => PipeWritten(v)
  }

  /** One event leads from one sound state to another, which it determines but for the memory of a new task. */
  ghost predicate Steps(v: View, e: Event, w: View) {
    && Sound(v) && Sound(w)
    && if !Happens(v, e) then w == v
       else if e.NewTask? then exists t :: t in w.known && Supplies(v, t) && w == Created(v, e.name, t)
       else if e.SysFork? then exists t :: t in w.known && Supplies(v, t) && w == Forked(v, t)
       else w == After(v, e)
  }

  // ---- Executing events --------------------------------------------------------------------------

  /** The fields of no task, of one task or of two changed. */
  lemma SameInfo(v: View, w: View)
    requires w.info.Keys == v.info.Keys && forall x :: x in v.info ==> At(w, x) == At(v, x)
    ensures w.info == v.info
  {
    forall x | x in v.info
      ensures w.info[x] == v.info[x]
    {
      assert At(w, x) == w.info[x] && At(v, x) == v.info[x];
    }
  }

  lemma InfoIs(v: View, w: View, t: Task, i: Info)
    requires w.info.Keys == v.info.Keys + {t} && At(w, t) == i
    requires forall x :: x in v.info && x != t ==> At(w, x) == At(v, x)
    ensures w.info == v.info[t := i]
  {
    forall x | x in w.info
      ensures w.info[x] == v.info[t := i][x]
    {
      assert At(w, x) == w.info[x];
      assert x != t ==> At(v, x) == v.info[x];
    }
  }

  lemma InfosAre(v: View, w: View, s: Task, i: Info, t: Task, j: Info)
    requires w.info.Keys == v.info.Keys + {s} + {t} && At(w, t) == j && (s != t ==> At(w, s) == i)
    requires forall x :: x in v.info && x != s && x != t ==> At(w, x) == At(v, x)
    ensures w.info == v.info[s := i][t := j]
  {
    forall x | x in w.info
      ensures w.info[x] == v.info[s := i][t := j][x]
    {
      assert At(w, x) == w.info[x];
      assert x != s && x != t ==> At(v, x) == v.info[x];
    }
  }

  /** `schedule_process` as an event. */
  method DoSchedule(k: Kernel)
    requires k.Valid()
    modifies k`currentTask, k.known`state
    ensures k.Valid() && Now(k) == Scheduled(old(Now(k)))
  {
    hide Closed, Now, At, Parted, Kernel.Valid, Kernel.Listed, Kernel.Family, Kernel.Pointers, Kernel.OnlyCurrentRuns,
      Picked, Runnables;
    CurrentKnown(k);
    ListedKnown(k);
    ghost var v := Now(k);
    NowIs(k);
    if k.currentTask != null {
      SameRunnables(k);
    }
    k.ScheduleProcess();
    CurrentKnown(k);
    NowIs(k);
    ghost var w := Now(k);
    if w.current == v.current {
      SameInfo(v, w);
    } else if v.current == null {
      InfoIs(v, w, w.current, At(v, w.current).(state := Running));
    } else {
      SwitchedIs(v, w);
    }
  }

  lemma SwitchedIs(v: View, w: View)
    requires v.current != null && w.current != null && w.current != v.current
    requires w.info.Keys == v.info.Keys && v.current in v.info && w.current in v.info
    requires forall x :: x in v.info && x != v.current && x != w.current ==> At(w, x) == At(v, x)
    requires At(w, w.current) == At(v, w.current).(state := Running)
    requires At(w, v.current) == At(v, v.current).(state := Runnable)
    ensures var u := With(v, v.current, At(v, v.current).(state := Runnable));
            w.info == With(u, w.current, At(u, w.current).(state := Running)).info
  {
    InfosAre(v, w, v.current, At(v, v.current).(state := Runnable), w.current, At(v, w.current).(state := Running));
  }

  lemma SameRunnables(k: Kernel)
    ensures Runnables(Now(k)) == k.RunnableTasks()
  {
  }

  method DoTick(k: Kernel)
    requires k.Valid()
    modifies k.tasks`state, k.tasks`sleepTime
    ensures k.Valid() && Now(k) == TickPassed(old(Now(k)))
  {
    hide Closed, Now, At, Parted, Kernel.Valid, Kernel.Listed, Kernel.Family, Kernel.Pointers, Kernel.OnlyCurrentRuns,
      TickPassed, TickedInfo, InfoOf;
    ListedKnown(k);
    ghost var v := Now(k);
    NowIs(k);
    k.UpdateTimeSlices();
    NowIs(k);
    TickPassedIs(v, Now(k));
  }

  lemma TickPassedIs(v: View, w: View)
    requires w == v.(info := w.info) && w.info.Keys == v.info.Keys
    requires forall t :: t in v.info ==> At(w, t) == if t in v.tasks then TickedInfo(At(v, t)) else At(v, t)
    ensures w == TickPassed(v)
  {
    hide TickedInfo;
    var u := TickPassed(v);
    forall t | t in v.info
      ensures w.info[t] == u.info[t]
    {
      assert At(w, t) == w.info[t] && At(v, t) == v.info[t];
    }
    assert w.info == u.info;
  }

  method DoCreate(k: Kernel, name: string) returns (ghost t: Task)
    requires k.Valid()
    modifies k, k.known
    ensures k.Valid() && t in k.known && Supplies(old(Now(k)), t) && Now(k) == Created(old(Now(k)), name, t)
    ensures k.known >= old(k.known) && fresh(k.known - old(k.known))
  {
    hide Closed, Now, At, Parted, Kernel.Valid, Kernel.Listed, Kernel.Family, Kernel.Pointers, Kernel.OnlyCurrentRuns,
      InfoOf;
    ListedKnown(k);
    FreeKnown(k);
    ghost var v := Now(k);
    NowIs(k);
    t := k.Create(name);
    NowIs(k);
    InfoIs(v, Now(k), t, Info(v.nextPid % B32, 0, name, Runnable, 0, null, 0, 0));
  }

  method DoFork(k: Kernel) returns (ghost t: Task)
    requires k.Valid() && k.currentTask != null
    modifies k, k.known
    ensures k.Valid() && t in k.known && Supplies(old(Now(k)), t)
    ensures old(Now(k)).current != null && Now(k) == Forked(old(Now(k)), t)
    ensures k.known >= old(k.known) && fresh(k.known - old(k.known))
  {
    hide Closed, Now, At, Parted, Kernel.Valid, Kernel.Listed, Kernel.Family, Kernel.Pointers, Kernel.OnlyCurrentRuns,
      Forked, InfoOf;
    CurrentKnown(k);
    ListedKnown(k);
    FreeKnown(k);
    ghost var v := Now(k);
    NowIs(k);
    FieldsOf(k.currentTask);
    var pid;
    pid, t := k.Fork();
    NowIs(k);
    ForkedIs(v, Now(k), t);
  }

  lemma ForkedIs(v: View, w: View, t: Task)
    requires v.current != null && v.current != t && v.current in v.info && w.info.Keys == v.info.Keys + {t}
    requires forall x :: x in v.info && x != t && x != v.current ==> At(w, x) == At(v, x)
    requires At(w, t) == Info(v.nextPid % B32, At(v, v.current).pid, "child", Runnable, 0, v.current, 0, 0)
    requires var i := At(v, v.current);
             At(w, v.current) == i.(childCount := (i.childCount + 1) % B64, state := Runnable)
    requires w == Created(v, "child", t).(current := null, info := w.info)
    ensures w == Forked(v, t)
  {
    InfosAre(v, w, t, At(w, t), v.current, At(w, v.current));
    assert w.info == Forked(v, t).info;
  }

  method DoExit(k: Kernel)
    requires k.Valid() && k.currentTask != null
    modifies k, k.known
    ensures k.Valid() && old(Now(k)).current != null && Now(k) == Exited(old(Now(k))) && k.known == old(k.known)
  {
    hide Closed, Now, At, Parted, Kernel.Valid, Kernel.Listed, Kernel.Family, Kernel.Pointers, Kernel.OnlyCurrentRuns,
      Exited, Without, InfoOf;
    CurrentKnown(k);
    ParentKnown(k);
    ListedKnown(k);
    FreeKnown(k);
    ghost var v := Now(k);
    NowIs(k);
    FieldsOf(k.currentTask);
    if k.currentTask.parent != null {
      FieldsOf(k.currentTask.parent);
    }
    k.Exit();
    NowIs(k);
    ExitedIs(v, Now(k));
  }

  lemma ExitedIs(v: View, w: View)
    requires v.current != null && v.current in v.info
    requires w == v.(tasks := Without<Task>(v.tasks, v.current), free := v.free + [v.current], current := null,
                     info := w.info)
    requires w.info.Keys == v.info.Keys
    requires var c := At(v, v.current);
             && At(w, v.current) == Info(c.pid, 0, c.name, Stopped, 0, null, 0, 0)
             && (c.ppid == 0 ==> forall x :: x in v.info && x != v.current ==> At(w, x) == At(v, x))
             && (c.ppid > 0 ==>
               && c.parent != null && c.parent in v.info && c.parent != v.current
               && (forall x :: x in v.info && x != v.current && x != c.parent ==> At(w, x) == At(v, x))
               && var p := At(v, c.parent);
               At(w, c.parent) == p.(state := Runnable, childCount := (p.childCount - 1) % B64))
    ensures w == Exited(v)
  {
    hide Without;
    var c := At(v, v.current);
    if c.ppid == 0 {
      InfoIs(v, w, v.current, At(w, v.current));
    } else {
      InfosAre(v, w, c.parent, At(w, c.parent), v.current, At(w, v.current));
    }
  }

  method DoKill(k: Kernel, pid: DWord)
    requires k.Valid() && k.currentTask != null && k.currentTask.pid != pid
    modifies k, k.known
    ensures k.Valid() && Now(k) == Killed(old(Now(k)), pid) && k.known == old(k.known)
  {
    hide Closed, Now, At, Parted, Kernel.Valid, Kernel.Listed, Kernel.Family, Kernel.Pointers, Kernel.OnlyCurrentRuns,
      Without, Victim, IndexOf, Killed, InfoOf;
    ListedKnown(k);
    FreeKnown(k);
    ghost var v := Now(k);
    NowIs(k);
    PidsOf(k.tasks);
    var r, victim := k.Kill(pid);
    NowIs(k);
    ghost var w := Now(k);
    if victim == null {
      NoVictim(v, v.tasks, pid);
    } else {
      VictimIs(v, v.tasks, pid, victim);
    }
    KilledIs(v, w, pid, victim);
  }

  lemma KilledIs(v: View, w: View, pid: DWord, victim: Task?)
    requires victim == Victim(v, v.tasks, pid) && w.info.Keys == v.info.Keys
    requires forall x :: x in v.info && x != victim ==> At(w, x) == At(v, x)
    requires victim == null ==> w == v.(info := w.info)
    requires victim != null ==>
               && victim in v.info
               && w == v.(tasks := Without<Task>(v.tasks, victim), free := v.free + [victim], info := w.info)
               && At(w, victim) == Info(At(v, victim).pid, 0, At(v, victim).name, Stopped, 0, null, 0, 0)
    ensures w == Killed(v, pid)
  {
    hide Without, Victim;
    if victim == null {
      SameInfo(v, w);
    } else {
      InfoIs(v, w, victim, At(w, victim));
    }
  }

  method DoWaitpid(k: Kernel, pid: DWord)
    requires k.Valid() && k.currentTask != null
    modifies k, k.known
    ensures k.Valid() && old(Now(k)).current != null && Now(k) == Waited(old(Now(k)), pid) && k.known == old(k.known)
  {
    hide Closed, Now, At, Parted, Kernel.Valid, Kernel.Listed, Kernel.Family, Kernel.Pointers, Kernel.OnlyCurrentRuns;
    CurrentKnown(k);
    ghost var v := Now(k);
    NowIs(k);
    var waits := k.Waitpid(pid);
    NowIs(k);
    if waits {
      InfoIs(v, Now(k), v.current, At(v, v.current).(state := Waiting, waitFor := pid));
    } else {
      SameInfo(v, Now(k));
    }
  }

  method DoSleep(k: Kernel, sec: DWord)
    requires k.Valid() && k.currentTask != null
    modifies k, k.known
    ensures k.Valid() && old(Now(k)).current != null && Now(k) == Slept(old(Now(k)), sec) && k.known == old(k.known)
  {
    hide Closed, Now, At, Parted, Kernel.Valid, Kernel.Listed, Kernel.Family, Kernel.Pointers, Kernel.OnlyCurrentRuns;
    CurrentKnown(k);
    ghost var v := Now(k);
    NowIs(k);
    k.SystemSleep(sec);
    NowIs(k);
    InfoIs(v, Now(k), v.current, At(v, v.current).(state := State.Sleep, left := TicksAsleep(sec) - 1));
  }

  method DoRead(k: Kernel, redirected: bool)
    requires k.Valid() && k.currentTask != null
    modifies k, k.known
    ensures k.Valid() && old(Now(k)).current != null && k.known == old(k.known)
    ensures Now(k) == Reading(old(Now(k)), redirected)
  {
    hide Closed, Now, At, Parted, Kernel.Valid, Kernel.Listed, Kernel.Family, Kernel.Pointers, Kernel.OnlyCurrentRuns;
    CurrentKnown(k);
    ghost var v := Now(k);
    NowIs(k);
    var blocks := k.SystemRead(redirected);
    NowIs(k);
    if blocks {
      InfoIs(v, Now(k), v.current, At(v, v.current).(state := Waiting));
    } else {
      SameInfo(v, Now(k));
    }
  }

  method DoKeyboardWake(k: Kernel)
    requires k.Valid()
    modifies k, k.known
    ensures k.Valid() && Now(k) == KeyPressed(old(Now(k))) && k.known == old(k.known)
  {
    hide Closed, Now, At, Parted, Kernel.Valid, Kernel.Listed, Kernel.Family, Kernel.Pointers, Kernel.OnlyCurrentRuns;
    ReadersKnown(k);
    ghost var v := Now(k);
    NowIs(k);
    if k.waitingTask != null {
      k.WakeWaitingTask();
      NowIs(k);
      InfoIs(v, Now(k), v.waiting, At(v, v.waiting).(state := Runnable));
    }
  }

  method DoPipeWake(k: Kernel)
    requires k.Valid()
    modifies k, k.known
    ensures k.Valid() && Now(k) == PipeWritten(old(Now(k))) && k.known == old(k.known)
  {
    hide Closed, Now, At, Parted, Kernel.Valid, Kernel.Listed, Kernel.Family, Kernel.Pointers, Kernel.OnlyCurrentRuns;
    ReadersKnown(k);
    ghost var v := Now(k);
    NowIs(k);
    k.WakePipeReader();
    NowIs(k);
    if v.reader != null {
      InfoIs(v, Now(k), v.reader, At(v, v.reader).(state := Runnable));
    } else {
      SameInfo(v, Now(k));
    }
  }

  lemma {:induction false} NoVictim(v: View, ts: seq<Task>, pid: DWord)
    requires forall t :: t in ts ==> At(v, t).pid != pid
    ensures Victim(v, ts, pid) == null
  {
    if ts != [] {
      NoVictim(v, ts[1..], pid);
    }
  }

  lemma {:induction false} VictimIs(v: View, ts: seq<Task>, pid: DWord, t: Task)
    requires t in ts && At(v, t).pid == pid
    requires forall k :: 0 <= k < IndexOf(ts, t) ==> At(v, ts[k]).pid != pid
    ensures Victim(v, ts, pid) == t
  {
    if ts[0] != t {
      assert At(v, ts[0]).pid != pid;
      forall k | 0 <= k < IndexOf(ts[1..], t)
        ensures At(v, ts[1..][k]).pid != pid
      {
        assert ts[1..][k] == ts[k + 1];
      }
      VictimIs(v, ts[1..], pid, t);
    }
  }

  lemma FieldsOf(t: Task)
    ensures InfoOf(t) ==
            Info(t.pid, t.ppid, t.name, t.state, t.sleepTime, t.parent, t.childCount, t.waitForChildPid)
  {
  }

  lemma PidsOf(ts: seq<Task>)
    ensures forall t :: t in ts ==> InfoOf(t).pid == t.pid && InfoOf(t).name == t.name
  {
  }

  /** One event, if it can happen. */
  method Do(k: Kernel, e: Event)
    requires k.Valid()
    modifies k, k.known
    ensures k.Valid() && Steps(old(Now(k)), e, Now(k))
    ensures k.known >= old(k.known) && fresh(k.known - old(k.known))
  {
    hide Kernel.Valid, Now, Sound, Supplies, Created, Scheduled, TickPassed, KeyPressed, PipeWritten;
    ValidIsSound(k);
    ListedKnown(k);
    NowIs(k);
    match e {
      case NewTask(name) => ghost var t := DoCreate(k, name);
      case ScheduleCall => DoSchedule(k);
      case TimerTick => DoTick(k);
      case KeyboardWake => DoKeyboardWake(k);
      case PipeWake => DoPipeWake(k);
      case _ => DoCall(k, e);
    }
    NowIs(k);
    ValidIsSound(k);
  }

  /** A system call of the current task, if there is one. */
  method DoCall(k: Kernel, e: Event)
    requires k.Valid() && !e.NewTask? && !e.ScheduleCall? && !e.TimerTick? && !e.KeyboardWake? && !e.PipeWake?
    modifies k, k.known
    ensures k.Valid() && Steps(old(Now(k)), e, Now(k))
    ensures k.known >= old(k.known) && fresh(k.known - old(k.known))
  {
    hide Kernel.Valid, Now, At, Sound, Supplies, Forked, Exited, Killed, Waited, Slept, Reading;
    ValidIsSound(k);
    CurrentKnown(k);
    NowIs(k);
    if k.currentTask == null || (e.SysKill? && k.currentTask.pid == e.pid) {
      return;
    }
    match e {
      case SysFork => ghost var t := DoFork(k);
      case SysExit => DoExit(k);
      case SysWaitpid(pid) => DoWaitpid(k, pid);
      case SysSleep(sec) => DoSleep(k, sec);
      case SysRead(redirected) => DoRead(k, redirected);
      case SysKill(pid) => DoKill(k, pid);
    }
    NowIs(k);
    ValidIsSound(k);
  }

  // ---- Sleeping and passing on -------------------------------------------------------------------

  ghost predicate Asleep(v: View, t: Task) { t in v.tasks && At(v, t).state == State.Sleep }

  /** What ends the sleep of t other than a tick: a schedule call without a current task while t is the head
      of the list, the exit of a child of t, a kill of t, or a wake-up of t as the keyboard's or the pipe's
      reader. */
  ghost predicate Disturbs(v: View, e: Event, t: Task) {
    match e
    case ScheduleCall => v.current == null && v.tasks != [] && v.tasks[0] == t
    case SysExit => v.current != null && At(v, v.current).ppid > 0 && At(v, v.current).parent == t
    case SysKill(pid) => Happens(v, e) && Victim(v, v.tasks, pid) == t
    case KeyboardWake => v.waiting == t
    case PipeWake => v.reader == t
    case _ => false
  }

  /** What one event does to a sleeping task. */
  ghost predicate Rests(v: View, e: Event, w: View, t: Task) {
    if Disturbs(v, e, t) then !Asleep(w, t)
    else if e.TimerTick? && Tick(At(v, t).left) == None then t in w.tasks && At(w, t).state == Runnable
    else Asleep(w, t) && At(w, t).left == At(v, t).left - if e.TimerTick? then 1 else 0
  }

  /** A sleeper rests unless disturbed. */
  lemma SleeperRests(v: View, e: Event, w: View, t: Task)
    requires Steps(v, e, w) && Asleep(v, t)
    ensures Rests(v, e, w, t)
  {
    hide Families, Parted, Created, Forked, Exited, Killed, Scheduled, TickPassed, Waited, Slept, Reading, KeyPressed,
      PipeWritten, Victim, Rests;
    if !Happens(v, e) {
      NothingDisturbs(v, e, t);
      return;
    }
    match e
    case NewTask(name) =>
      var x :| x in w.known && Supplies(v, x) && w == Created(v, name, x);
      RestsCreated(v, w, x, t, name);
    case SysFork =>
      var x :| x in w.known && Supplies(v, x) && w == Forked(v, x);
      RestsForked(v, w, x, t);
    case ScheduleCall => RestsScheduled(v, w, t);
    case TimerTick => RestsTick(v, w, t);
    case SysExit => RestsExited(v, w, t);
    case SysKill(pid) => RestsKilled(v, w, t, pid);
    case KeyboardWake => RestsWoken(v, t);
    case PipeWake => RestsWoken(v, t);
    case _ => RestsCall(v, e, t);
  }

  lemma NothingDisturbs(v: View, e: Event, t: Task)
    requires Sound(v) && !Happens(v, e) && Asleep(v, t)
    ensures Rests(v, e, v, t)
  {
    hide Families, Parted, Victim;
  }

  lemma RestsCreated(v: View, w: View, x: Task, t: Task, name: string)
    requires Sound(v) && Asleep(v, t) && Supplies(v, x) && w == Created(v, name, x)
    ensures Rests(v, NewTask(name), w, t)
  {
    hide Families;
  }

  lemma RestsForked(v: View, w: View, x: Task, t: Task)
    requires Sound(v) && Asleep(v, t) && Supplies(v, x) && v.current != null && w == Forked(v, x)
    ensures Rests(v, SysFork, w, t)
  {
    hide Families;
  }

  lemma RestsScheduled(v: View, w: View, t: Task)
    requires Sound(v) && Asleep(v, t) && w == Scheduled(v)
    ensures Rests(v, ScheduleCall, w, t)
  {
    hide Families, Parted, Picked;
    if v.current != null {
      PickedRunnable(v);
    }
  }

  lemma RestsTick(v: View, w: View, t: Task)
    requires Sound(v) && Asleep(v, t) && w == TickPassed(v)
    ensures Rests(v, TimerTick, w, t)
  {
    hide Families, Parted;
  }

  lemma RestsExited(v: View, w: View, t: Task)
    requires Sound(v) && Asleep(v, t) && v.current != null && w == Exited(v)
    ensures Rests(v, SysExit, w, t)
  {
    hide Without;
    ParentIs(v, v.current);
    WithoutMembers<Task>(v.tasks, v.current);
    hide Families, Parted;
  }

  lemma RestsKilled(v: View, w: View, t: Task, pid: DWord)
    requires Sound(v) && Asleep(v, t) && Happens(v, SysKill(pid)) && w == Killed(v, pid)
    ensures Rests(v, SysKill(pid), w, t)
  {
    hide Families, Without, Victim;
    if Victim(v, v.tasks, pid) != null {
      WithoutMembers<Task>(v.tasks, Victim(v, v.tasks, pid));
    }
  }

  lemma RestsWoken(v: View, t: Task)
    requires Sound(v) && Asleep(v, t)
    ensures Rests(v, KeyboardWake, KeyPressed(v), t) && Rests(v, PipeWake, PipeWritten(v), t)
  {
    hide Families, Parted;
  }

  lemma RestsCall(v: View, e: Event, t: Task)
    requires Sound(v) && Asleep(v, t) && v.current != null
    ensures e.SysWaitpid? ==> Rests(v, e, Waited(v, e.pid), t)
    ensures e.SysSleep? ==> Rests(v, e, Slept(v, e.sec), t)
    ensures e.SysRead? ==> Rests(v, e, Reading(v, e.redirected), t)
  {
    hide Families, Parted;
  }

  lemma ParentIs(v: View, t: Task)
    requires Families(v) && t in v.info
    ensures At(v, t).ppid > 0 ==> At(v, t).parent != null && At(v, t).parent in v.info && At(v, t).parent != t
  {
  }

  /** The round-robin choice is the current task or a runnable one. */
  lemma PickedRunnable(v: View)
    requires Closed(v) && v.current != null
    ensures var t := Picked<Task>(v.tasks, v.current, Runnables(v)); t == v.current || t in Runnables(v)
  {
    PickedIs<Task>(v.tasks, v.current, Runnables(v));
  }

  /** Only a schedule call passes the processor from one task to another. */
  lemma PassesOn(v: View, e: Event, w: View)
    requires Steps(v, e, w)
    ensures e.ScheduleCall? && v.current != null ==> w.current == Picked<Task>(v.tasks, v.current, Runnables(v))
    ensures !e.ScheduleCall? ==> w.current == v.current || w.current == null
  {
    hide Victim, Picked, Without, Runnables, Parted, Families;
  }

  // ---- Runs --------------------------------------------------------------------------------------

  /** The states a run of events goes through. */
  ghost predicate Follows(trace: seq<View>, events: seq<Event>) {
    && |trace| == |events| + 1
    && (forall i :: 0 <= i < |trace| ==> Sound(trace[i]))
    && forall i :: 0 <= i < |events| ==> Steps(trace[i], events[i], trace[i + 1])
  }

  /** Any run of events on a kernel keeps its invariants and goes through states that follow them. */
  method Run(k: Kernel, events: seq<Event>) returns (ghost trace: seq<View>)
    requires k.Valid()
    modifies k, k.known
    ensures k.Valid() && Follows(trace, events) && trace[0] == old(Now(k)) && trace[|events|] == Now(k)
  {
    hide Steps, Kernel.Valid, Sound;
    trace := [Now(k)];
    ValidIsSound(k);
    for i := 0 to |events|
      invariant k.Valid() && k.known >= old(k.known) && fresh(k.known - old(k.known))
      invariant Follows(trace, events[..i]) && trace[0] == old(Now(k)) && trace[i] == Now(k)
    {
      Do(k, events[i]);
      ValidIsSound(k);
      trace := trace + [Now(k)];
      assert events[..i + 1] == events[..i] + [events[i]];
    }
    assert events[..|events|] == events;
  }

  /** The same from the start of the kernel, so for every state it can reach. */
  method Boot(events: seq<Event>) returns (k: Kernel, ghost trace: seq<View>)
    ensures fresh(k) && k.Valid() && Follows(trace, events) && trace[0] == Booted() && trace[|events|] == Now(k)
  {
    k := new Kernel();
    assert Now(k) == Booted();
    trace := Run(k, events);
  }

  /** The kernel before anything happened. */
  ghost function Booted(): View { View([], [], {}, {}, null, null, null, false, 1, map[]) }

  // ---- How the lists change over a run -----------------------------------------------------------

  /** After a fork there is one more task, behind all others: a runnable child of the caller, which counts it
      and can run as well. No other task changes, and no task is current. */
  lemma ForkAddsOne(trace: seq<View>, events: seq<Event>, i: nat)
    requires Follows(trace, events) && i < |events| && events[i] == SysFork && trace[i].current != null
    ensures var v, w := trace[i], trace[i + 1];
            && |w.tasks| == |v.tasks| + 1 && w.tasks[..|v.tasks|] == v.tasks && w.current == null
            && var child, caller := w.tasks[|v.tasks|], At(v, v.current);
            && child !in v.tasks && child != v.current
            && At(w, child) == Info(v.nextPid % B32, caller.pid, "child", Runnable, 0, v.current, 0, 0)
            && At(w, v.current) == caller.(state := Runnable, childCount := (caller.childCount + 1) % B64)
            && forall t :: t in v.known && t != child && t != v.current ==> At(w, t) == At(v, t)
  {
    hide Sound, Forked, Supplies, At;
    var v, w := trace[i], trace[i + 1];
    assert Steps(v, events[i], w);
    var child :| child in w.known && Supplies(v, child) && w == Forked(v, child);
    ForkedTask(v, w, child);
  }

  lemma ForkedTask(v: View, w: View, child: Task)
    requires Sound(v) && v.current != null && Supplies(v, child) && w == Forked(v, child)
    ensures w.tasks == v.tasks + [child] && w.current == null && child !in v.tasks && child != v.current
    ensures var caller := At(v, v.current);
            && At(w, child) == Info(v.nextPid % B32, caller.pid, "child", Runnable, 0, v.current, 0, 0)
            && At(w, v.current) == caller.(state := Runnable, childCount := (caller.childCount + 1) % B64)
            && forall t :: t in v.known && t != child && t != v.current ==> At(w, t) == At(v, t)
  {
    hide Families;
    assert child !in v.tasks && v.current in v.tasks;
  }

  /** After an exit there is one task fewer: the caller is the last of the free list, and its parent, if it
      has one, is runnable and counts one child fewer. */
  lemma ExitRemovesOne(trace: seq<View>, events: seq<Event>, i: nat)
    requires Follows(trace, events) && i < |events| && events[i] == SysExit && trace[i].current != null
    ensures var v, w := trace[i], trace[i + 1];
            && |w.tasks| + 1 == |v.tasks| && w.current == null && w.free == v.free + [v.current]
            && (forall t :: t in w.tasks <==> t in v.tasks && t != v.current)
            && var caller, p := At(v, v.current), At(v, v.current).parent;
            && At(w, v.current) == Info(caller.pid, 0, caller.name, Stopped, 0, null, 0, 0)
            && (caller.ppid > 0 ==>
              && p != null && p != v.current && p in v.known
              && At(w, p) == At(v, p).(state := Runnable, childCount := (At(v, p).childCount - 1) % B64))
            && forall t :: t in v.known && t != v.current && (caller.ppid == 0 || t != p) ==> At(w, t) == At(v, t)
  {
    hide Exited, Families, Parted, Without;
    var v, w := trace[i], trace[i + 1];
    assert Steps(v, events[i], w);
    ExitedTask(v, w);
  }

  lemma ExitedTask(v: View, w: View)
    requires Sound(v) && v.current != null && w == Exited(v)
    ensures |w.tasks| + 1 == |v.tasks| && w.current == null && w.free == v.free + [v.current]
    ensures forall t :: t in w.tasks <==> t in v.tasks && t != v.current
    ensures var caller, p := At(v, v.current), At(v, v.current).parent;
            && At(w, v.current) == Info(caller.pid, 0, caller.name, Stopped, 0, null, 0, 0)
            && (caller.ppid > 0 ==>
              && p != null && p != v.current && p in v.known
              && At(w, p) == At(v, p).(state := Runnable, childCount := (At(v, p).childCount - 1) % B64))
            && forall t :: t in v.known && t != v.current && (caller.ppid == 0 || t != p) ==> At(w, t) == At(v, t)
  {
    hide Without, Families;
    ParentIs(v, v.current);
    ShorterByOne(v.tasks, v.current);
    WithoutMembers<Task>(v.tasks, v.current);
  }

  lemma ShorterByOne(ts: seq<Task>, t: Task)
    ensures t in ts ==> |Without(ts, t)| + 1 == |ts|
  {
  }

  /** Whether an event puts a task onto the list, and whether it takes one off it. */
  ghost function Born(v: View, e: Event): nat {
    if (e.SysFork? && v.current != null) || (e.NewTask? && e.name != "idle") then 1 else 0
  }

  ghost function Gone(v: View, e: Event): nat {
    if Happens(v, e) && (e.SysExit? || (e.SysKill? && Victim(v, v.tasks, e.pid) != null)) then 1 else 0
  }

  ghost function Births(trace: seq<View>, events: seq<Event>, n: nat): nat
    requires n <= |events| < |trace|
  {
    if n == 0 then 0 else Births(trace, events, n - 1) + Born(trace[n - 1], events[n - 1])
  }

  ghost function Deaths(trace: seq<View>, events: seq<Event>, n: nat): nat
    requires n <= |events| < |trace|
  {
    if n == 0 then 0 else Deaths(trace, events, n - 1) + Gone(trace[n - 1], events[n - 1])
  }

  /** In every run the list is as long as it was, plus the tasks created and forked, minus those that exited
      or were killed. */
  lemma {:induction false} ListLength(trace: seq<View>, events: seq<Event>, n: nat)
    requires Follows(trace, events) && n <= |events|
    ensures |trace[n].tasks| + Deaths(trace, events, n) == |trace[0].tasks| + Births(trace, events, n)
  {
    hide Steps, Born, Gone, Sound;
    if n > 0 {
      ListLength(trace, events, n - 1);
      LengthStep(trace[n - 1], events[n - 1], trace[n]);
    }
  }

  lemma LengthStep(v: View, e: Event, w: View)
    requires Steps(v, e, w)
    ensures |w.tasks| + Gone(v, e) == |v.tasks| + Born(v, e)
  {
    hide Victim, Picked, Runnables, Parted, Families, Without;
    if e.SysExit? && v.current != null {
      ShorterByOne(v.tasks, v.current);
    } else if e.SysKill? && Victim(v, v.tasks, e.pid) != null {
      ShorterByOne(v.tasks, Victim(v, v.tasks, e.pid));
    }
  }

  /** How many events of a run may create a task. */
  function Creations(events: seq<Event>): nat {
    if events == [] then 0
    else
      var e := events[|events| - 1];
      Creations(events[..|events| - 1]) + if e.NewTask? || e.SysFork? then 1 else 0
  }

  /** No two tasks have the same pid. */
  ghost predicate OwnPids(v: View) {
    forall s, t :: s in v.info && t in v.info && s != t ==> v.info[s].pid != v.info[t].pid
  }

  ghost predicate PidsInUse(v: View) { forall t :: t in v.info ==> 1 <= v.info[t].pid < v.nextPid }

  /** In every run from the start of the kernel with at most 2^32 creations no two tasks have the same pid,
      on whatever list they are; so a kill or a wait for a pid means one task. */
  lemma {:induction false} PidsAreOwn(trace: seq<View>, events: seq<Event>, n: nat)
    requires Follows(trace, events) && trace[0] == Booted() && n <= |events| && Creations(events[..n]) <= B32
    ensures OwnPids(trace[n]) && 1 <= trace[n].nextPid <= Creations(events[..n]) + 1
    ensures trace[n].nextPid <= B32 ==> PidsInUse(trace[n])
  {
    hide Steps, OwnPids, PidsInUse, Sound;
    if n == 0 {
      NoPids();
    } else {
      assert events[..n][..n - 1] == events[..n - 1];
      PidsAreOwn(trace, events, n - 1);
      PidStep(trace[n - 1], events[n - 1], trace[n]);
    }
  }

  lemma NoPids()
    ensures OwnPids(Booted()) && PidsInUse(Booted())
  {
  }

  lemma PidStep(v: View, e: Event, w: View)
    requires Steps(v, e, w) && OwnPids(v) && (v.nextPid <= B32 ==> PidsInUse(v))
    requires e.NewTask? || e.SysFork? ==> 1 <= v.nextPid <= B32
    ensures OwnPids(w) && (w.nextPid <= B32 ==> PidsInUse(w))
    ensures w.nextPid == v.nextPid || ((e.NewTask? || e.SysFork?) && w.nextPid == v.nextPid + 1)
  {
    hide OwnPids, PidsInUse, Sound, Created, Forked, OnePidMore;
    if e.NewTask? {
      var t :| t in w.known && Supplies(v, t) && w == Created(v, e.name, t);
      CreatedPids(v, e.name, t);
      NewPid(v, w, t);
    } else if e.SysFork? && v.current != null {
      var t :| t in w.known && Supplies(v, t) && w == Forked(v, t);
      ForkedPids(v, t);
      NewPid(v, w, t);
    } else {
      PidsStay(v, e, w);
      SamePidsAreOwn(v, w);
    }
  }

  /** The pids of w are those of v and the next one, of task t. */
  ghost predicate OnePidMore(v: View, w: View, t: Task) {
    && w.info.Keys == v.info.Keys + {t} && w.info[t].pid == v.nextPid % B32 && w.nextPid == (v.nextPid + 1) % B64
    && forall x :: x in v.info && x != t ==> w.info[x].pid == v.info[x].pid
  }

  lemma CreatedPids(v: View, name: string, t: Task)
    ensures OnePidMore(v, Created(v, name, t), t)
  {
  }

  lemma ForkedPids(v: View, t: Task)
    requires Sound(v) && v.current != null && Supplies(v, t)
    ensures OnePidMore(v, Forked(v, t), t)
  {
    hide Families;
    assert t != v.current && v.current in v.info;
  }

  lemma NewPid(v: View, w: View, t: Task)
    requires OwnPids(v) && PidsInUse(v) && 1 <= v.nextPid <= B32 && OnePidMore(v, w, t)
    ensures OwnPids(w) && (w.nextPid <= B32 ==> PidsInUse(w)) && w.nextPid == v.nextPid + 1
  {
    hide OnePidMore;
    NextIs(v.nextPid);
    OnePidMoreIs(v, w, t);
    forall x, y | x in w.info && y in w.info && x != y
      ensures w.info[x].pid != w.info[y].pid
    {
      if x != t && y != t {
        assert w.info[x].pid == v.info[x].pid && w.info[y].pid == v.info[y].pid;
      }
    }
  }

  lemma NextIs(n: nat)
    requires 1 <= n <= B32
    ensures n % B32 == (if n == B32 then 0 else n) && (n + 1) % B64 == n + 1
  {
  }

  lemma OnePidMoreIs(v: View, w: View, t: Task)
    requires OnePidMore(v, w, t) && PidsInUse(v)
    ensures t in w.info && w.info[t].pid == v.nextPid % B32 && w.nextPid == (v.nextPid + 1) % B64
    ensures forall x :: x in w.info && x != t ==>
              x in v.info && w.info[x].pid == v.info[x].pid && 1 <= w.info[x].pid < v.nextPid
  {
  }

  /** After 2^32 + 1 creations and nothing else two listed tasks have the same pid. */
  lemma PidsRepeat(trace: seq<View>, events: seq<Event>)
    requires Follows(trace, events) && trace[0] == Booted() && |events| == B32 + 1
    requires forall i :: 0 <= i < |events| ==> events[i] == NewTask("sh")
    ensures Creations(events) == B32 + 1 && !OwnPids(trace[|events|])
    ensures var v := trace[|events|]; |v.tasks| == B32 + 1 && At(v, v.tasks[0]).pid == At(v, v.tasks[B32]).pid
  {
    hide Steps, Creations;
    var n := |events|;
    var v := trace[n];
    assert events[..n] == events;
    assert Sound(v);
    CreatedInOrder(trace, events, n);
    assert PidInOrder(v, 0) && PidInOrder(v, B32);
    assert v.tasks[0] in v.tasks && v.tasks[B32] in v.tasks && v.tasks[0] != v.tasks[B32];
  }

  ghost predicate PidInOrder(v: View, j: nat)
    requires j < |v.tasks|
  {
    At(v, v.tasks[j]).pid == (j + 1) % B32
  }

  lemma {:induction false} CreatedInOrder(trace: seq<View>, events: seq<Event>, n: nat)
    requires Follows(trace, events) && trace[0] == Booted() && n <= |events| <= B32 + 1
    requires forall i :: 0 <= i < |events| ==> events[i] == NewTask("sh")
    ensures Creations(events[..n]) == n && trace[n].free == [] && trace[n].nextPid == n + 1 && |trace[n].tasks| == n
    ensures forall j :: 0 <= j < n ==> PidInOrder(trace[n], j)
  {
    hide Steps, Sound, PidInOrder;
    if n > 0 {
      assert events[..n][..n - 1] == events[..n - 1];
      CreatedInOrder(trace, events, n - 1);
      OneInOrder(trace[n - 1], trace[n], n - 1);
    }
  }

  lemma OneInOrder(v: View, w: View, n: nat)
    requires Steps(v, NewTask("sh"), w) && v.free == [] && v.nextPid == n + 1 < B64 - 1 && |v.tasks| == n
    requires forall j :: 0 <= j < n ==> PidInOrder(v, j)
    ensures w.free == [] && w.nextPid == n + 2 && |w.tasks| == n + 1
    ensures forall j :: 0 <= j <= n ==> PidInOrder(w, j)
  {
    hide Parted, Families;
    var t :| t in w.known && Supplies(v, t) && w == Created(v, "sh", t);
    forall j | 0 <= j <= n
      ensures PidInOrder(w, j)
    {
      if j < n {
        assert PidInOrder(v, j) && v.tasks[j] in v.tasks;
        assert v.tasks[j] in v.info && v.tasks[j] != t;
      }
    }
  }

  /** Every task keeps its pid. */
  ghost predicate SamePids(v: View, w: View) {
    && w.nextPid == v.nextPid && w.info.Keys == v.info.Keys
    && forall t :: t in v.info ==> w.info[t].pid == v.info[t].pid
  }

  lemma PidsStay(v: View, e: Event, w: View)
    requires Steps(v, e, w) && !e.NewTask? && (e.SysFork? ==> v.current == null)
    ensures SamePids(v, w)
  {
    hide Families, Parted, SamePids, Exited, Killed, Scheduled, TickPassed, Waited, Slept, Reading, KeyPressed,
      PipeWritten, Runnables, Picked;
    if !Happens(v, e) {
      PidsStayAtRest(v);
    } else {
      match e
      case ScheduleCall =>
        if v.current != null {
          PickedRunnable(v);
        }
        PidsStayOnSchedule(v);
      case TimerTick => PidsStayOnTick(v);
      case SysExit =>
        ParentIs(v, v.current);
        PidsStayOnExit(v);
      case SysKill(pid) => PidsStayOnKill(v, pid);
      case SysWaitpid(pid) => PidsStayOnWait(v, pid);
      case SysSleep(sec) => PidsStayOnSleep(v, sec);
      case SysRead(redirected) => PidsStayOnRead(v, redirected);
      case _ => PidsStayOnWake(v);
    }
  }

  lemma PidsStayAtRest(v: View)
    ensures SamePids(v, v)
  {
  }

  lemma PidsStayOnSchedule(v: View)
    requires Closed(v)
    requires v.current != null ==>
               var t := Picked<Task>(v.tasks, v.current, Runnables(v)); t == v.current || t in Runnables(v)
    ensures SamePids(v, Scheduled(v))
  {
    hide Picked;
  }

  lemma PidsStayOnTick(v: View)
    ensures SamePids(v, TickPassed(v))
  {
  }

  lemma PidsStayOnExit(v: View)
    requires Closed(v) && v.current != null && (At(v, v.current).ppid > 0 ==> At(v, v.current).parent in v.info)
    ensures SamePids(v, Exited(v))
  {
    hide Without;
  }

  lemma PidsStayOnKill(v: View, pid: DWord)
    requires Closed(v)
    ensures SamePids(v, Killed(v, pid))
  {
    hide Without, Victim;
  }

  lemma PidsStayOnWait(v: View, pid: DWord)
    requires Closed(v) && v.current != null
    ensures SamePids(v, Waited(v, pid))
  {
  }

  lemma PidsStayOnSleep(v: View, sec: DWord)
    requires Closed(v) && v.current != null
    ensures SamePids(v, Slept(v, sec))
  {
  }

  lemma PidsStayOnRead(v: View, redirected: bool)
    requires Closed(v) && v.current != null
    ensures SamePids(v, Reading(v, redirected))
  {
  }

  lemma PidsStayOnWake(v: View)
    requires Closed(v)
    ensures SamePids(v, KeyPressed(v)) && SamePids(v, PipeWritten(v))
  {
  }

  lemma SamePidsAreOwn(v: View, w: View)
    requires SamePids(v, w)
    ensures OwnPids(v) ==> OwnPids(w)
    ensures PidsInUse(v) ==> PidsInUse(w)
  {
  }

  /** In every state of every run, a task ever allocated that is not an idle one is on exactly one of the two
      lists, and only once. */
  lemma OnOneList(trace: seq<View>, events: seq<Event>, i: nat, t: Task)
    requires Follows(trace, events) && i < |trace| && t in trace[i].known && t !in trace[i].idle
    ensures var v := trace[i];
            && (t in v.tasks <==> t !in v.free)
            && (t in v.tasks ==> t !in Without(v.tasks, t)) && (t in v.free ==> t !in Without(v.free, t))
  {
    assert Sound(trace[i]);
    WithoutMembers(trace[i].tasks, t);
    WithoutMembers(trace[i].free, t);
  }

  /** In every state of every run, a listed task that is running is the current one. */
  lemma OnlyCurrentRuns(trace: seq<View>, events: seq<Event>, i: nat, t: Task)
    requires Follows(trace, events) && i < |trace| && t in trace[i].tasks && At(trace[i], t).state == Running
    ensures t == trace[i].current
  {
    assert Sound(trace[i]);
  }

  function TickCount(events: seq<Event>): nat {
    if events == [] then 0
    else TickCount(events[..|events| - 1]) + if events[|events| - 1].TimerTick? then 1 else 0
  }

  /** t is asleep in every state of the run from the first event to the n-th. */
  ghost predicate SleepsThrough(trace: seq<View>, t: Task, n: nat)
    requires n < |trace|
  {
    forall m :: 1 <= m <= n ==> Asleep(trace[m], t)
  }

  /** None of the events from the second to the n-th disturbs t. */
  ghost predicate Undisturbed(trace: seq<View>, events: seq<Event>, t: Task, n: nat)
    requires n <= |events| < |trace|
  {
    forall i :: 1 <= i < n ==> !Disturbs(trace[i], events[i], t)
  }

  /** A task that calls sleep(sec) is asleep as long as nothing disturbs it and fewer than TicksAsleep(sec)
      ticks have passed, and no longer. */
  lemma {:induction false} SleepLasts(trace: seq<View>, events: seq<Event>, t: Task, sec: DWord, n: nat)
    requires Follows(trace, events) && 1 <= n <= |events|
    requires events[0] == SysSleep(sec) && trace[0].current == t
    ensures SleepsThrough(trace, t, n) <==>
            Undisturbed(trace, events, t, n) && TickCount(events[1..n]) < TicksAsleep(sec)
    ensures SleepsThrough(trace, t, n) ==> At(trace[n], t).left == TicksAsleep(sec) - 1 - TickCount(events[1..n])
    decreases n
  {
    hide Sound, Disturbs, Steps, Asleep;
    if n == 1 {
      FallsAsleep(trace[0], sec, trace[1]);
      assert events[1..1] == [];
    } else {
      var i := n - 1;
      SleepLasts(trace, events, t, sec, i);
      OneMore(trace, events, t, i);
      CountOne(events, n);
    }
  }

  lemma FallsAsleep(v: View, sec: DWord, w: View)
    requires Steps(v, SysSleep(sec), w) && v.current != null
    ensures Asleep(w, v.current) && At(w, v.current).left == TicksAsleep(sec) - 1
  {
  }

  lemma CountOne(events: seq<Event>, n: nat)
    requires 1 < n <= |events|
    ensures TickCount(events[1..n]) == TickCount(events[1..n - 1]) + if events[n - 1].TimerTick? then 1 else 0
  {
    assert events[1..n] == events[1..n - 1] + [events[n - 1]];
    assert events[1..n][..n - 2] == events[1..n - 1];
  }

  lemma OneMore(trace: seq<View>, events: seq<Event>, t: Task, i: nat)
    requires Follows(trace, events) && 1 <= i < |events|
    ensures SleepsThrough(trace, t, i + 1) <==> SleepsThrough(trace, t, i) && Asleep(trace[i + 1], t)
    ensures Undisturbed(trace, events, t, i + 1) <==>
            Undisturbed(trace, events, t, i) && !Disturbs(trace[i], events[i], t)
    ensures SleepsThrough(trace, t, i) ==>
              var tick := if events[i].TimerTick? then 1 else 0;
              && (Asleep(trace[i + 1], t) <==> !Disturbs(trace[i], events[i], t) && tick <= At(trace[i], t).left)
              && (Asleep(trace[i + 1], t) ==> At(trace[i + 1], t).left == At(trace[i], t).left - tick)
  {
    hide Steps, Sound, Disturbs, At;
    if SleepsThrough(trace, t, i) {
      assert Asleep(trace[i], t);
      SleeperRests(trace[i], events[i], trace[i + 1], t);
    }
  }

  /** The event that wakes a sleeper comes after exactly TicksAsleep(sec) ticks if and only if it does not
      disturb the sleeper; that is sec ticks unless sec is 0. */
  lemma WakesOnTime(trace: seq<View>, events: seq<Event>, t: Task, sec: DWord, n: nat)
    requires Follows(trace, events) && 1 <= n < |events|
    requires events[0] == SysSleep(sec) && trace[0].current == t
    requires SleepsThrough(trace, t, n) && !Asleep(trace[n + 1], t)
    ensures TickCount(events[1..n + 1]) == TicksAsleep(sec) <==> !Disturbs(trace[n], events[n], t)
    ensures TicksAsleep(sec) == sec <==> sec != 0
  {
    SleepLasts(trace, events, t, sec, n);
    OneMore(trace, events, t, n);
    CountOne(events, n + 1);
    CounterLasts(sec, 0);
  }

  function ScheduleCount(events: seq<Event>): nat {
    if events == [] then 0
    else ScheduleCount(events[..|events| - 1]) + if events[|events| - 1].ScheduleCall? then 1 else 0
  }

  /** Up to the n-th event the task list stays ts, some task is current, and x is runnable unless current. */
  ghost predicate StaysRunnable(trace: seq<View>, ts: seq<Task>, x: Task, n: nat)
    requires n < |trace|
  {
    forall i :: 0 <= i <= n ==> CanRun(trace[i], ts, x)
  }

  ghost predicate CanRun(v: View, ts: seq<Task>, x: Task) {
    && v.tasks == ts && v.current != null && v.current in ts && x in ts
    && (x == v.current || x in Runnables(v))
  }

  /** Fairness of runs: whatever happens to the other tasks in between, x becomes current within |ts| - 1
      schedule calls. */
  lemma FairInRuns(trace: seq<View>, events: seq<Event>, ts: seq<Task>, x: Task, n: nat)
    requires Follows(trace, events) && n <= |events| && StaysRunnable(trace, ts, x, n)
    requires ScheduleCount(events[..n]) >= |ts| - 1
    ensures exists m :: 0 <= m <= n && trace[m].current == x
  {
    assert CanRun(trace[0], ts, x) && CanRun(trace[n], ts, x);
    if forall m :: 0 <= m <= n ==> trace[m].current != x {
      CountsDown(trace, events, ts, x, n);
      assert trace[n].current != x && trace[0].current != x;
      NotFar<Task>(ts, trace[n].current, x);
      NotFar<Task>(ts, trace[0].current, x);
    }
  }

  lemma {:induction false} CountsDown(trace: seq<View>, events: seq<Event>, ts: seq<Task>, x: Task, n: nat)
    requires Follows(trace, events) && n <= |events| && StaysRunnable(trace, ts, x, n)
    requires forall m :: 0 <= m <= n ==> trace[m].current != x
    ensures CanRun(trace[0], ts, x) && CanRun(trace[n], ts, x)
    ensures Distance(|ts|, IndexOf<Task>(ts, trace[n].current), IndexOf<Task>(ts, x)) + ScheduleCount(events[..n])
         <= Distance(|ts|, IndexOf<Task>(ts, trace[0].current), IndexOf<Task>(ts, x))
    decreases n
  {
    hide Distance, IndexOf, Steps, Sound, CanRun;
    assert CanRun(trace[0], ts, x) && CanRun(trace[n], ts, x);
    if n > 0 {
      CountsDown(trace, events, ts, x, n - 1);
      assert events[..n][..n - 1] == events[..n - 1];
      CountsOne(trace[n - 1], events[n - 1], trace[n], ts, x);
    }
  }

  lemma CountsOne(v: View, e: Event, w: View, ts: seq<Task>, x: Task)
    requires Steps(v, e, w) && CanRun(v, ts, x) && CanRun(w, ts, x) && v.current != x
    ensures Distance(|ts|, IndexOf<Task>(ts, w.current), IndexOf<Task>(ts, x)) + (if e.ScheduleCall? then 1 else 0)
         <= Distance(|ts|, IndexOf<Task>(ts, v.current), IndexOf<Task>(ts, x))
  {
    hide Distance, IndexOf, Picked, Families;
    PassesOn(v, e, w);
    if e.ScheduleCall? {
      PickedIsCloser<Task>(ts, v.current, x, Runnables(v));
    }
  }

  // ---- Two runs that go wrong --------------------------------------------------------------------

  /** A task at the head of the list calls sleep(sec): the schedule call of that very system call, which finds
      no current task, runs it at once, its counter untouched. */
  method HeadDoesNotSleep(sec: DWord) returns (k: Kernel, t: Task)
    ensures k.Valid() && k.currentTask == t && t.state == Running && t.sleepTime == TicksAsleep(sec) - 1
  {
    k := new Kernel();
    t := k.Create("sh");
    k.ScheduleProcess();
    k.SystemSleep(sec);
    k.ScheduleProcess();
  }

  /** Two schedule calls without a current task: the head runs, then the first of the next two tasks that is
      runnable. */
  method HeadThenNext(k: Kernel, ghost next: Task)
    requires k.Valid() && k.currentTask == null && |k.tasks| >= 2
    requires next == k.tasks[1] || (k.tasks[1].state != Runnable && |k.tasks| >= 3 && next == k.tasks[2])
    requires next.state == Runnable
    modifies k`currentTask, k.known`state
    ensures k.Valid() && k.currentTask == next && next.state == Running && k.tasks[0].state == Runnable
    ensures forall t :: t in k.known && t != k.tasks[0] && t != next ==> t.state == old(t.state)
  {
    hide Kernel.Listed, Kernel.Family, Picked;
    ListedKnown(k);
    NoDups(k);
    k.ScheduleProcess();
    NextIsPicked<Task>(k.tasks, k.tasks[0], k.RunnableTasks(), 0);
    k.ScheduleProcess();
  }

  lemma NoDups(k: Kernel)
    requires k.Valid()
    ensures NoDup(k.tasks)
  {
  }

  method ParentAndChild() returns (k: Kernel, parent: Task, ghost child: Task)
    ensures fresh(k) && fresh(k.known) && k.Valid() && k.currentTask == null
    ensures |k.tasks| == 3 && k.tasks[1] == parent && k.tasks[2] == child
    ensures parent.state == child.state == Runnable && parent.childCount == 1
    ensures child.parent == parent && child.ppid == 2 && child.pid == 3
  {
    hide InfoOf, Kernel.Valid, Kernel.Listed, Kernel.Family, Kernel.OnlyCurrentRuns;
    k := new Kernel();
    var head := k.Create("init");
    parent := k.Create("sh");
    FieldsOf(parent);
    HeadThenNext(k, parent);
    FieldsOf(parent);
    var pid;
    pid, child := k.Fork();
    FieldsOf(parent);
    FieldsOf(child);
  }

  /** A parent that waits for a pid no child of its has, while its only child is running. */
  method WaitsForAnother(pid: DWord) returns (k: Kernel, parent: Task, ghost child: Task)
    requires pid != 3
    ensures fresh(k) && fresh(k.known) && k.Valid() && k.currentTask == child
    ensures child.parent == parent && child.ppid > 0 && child.pid != pid
    ensures parent.state == Waiting && parent.waitForChildPid == pid
  {
    hide Kernel.Listed, Kernel.Family, Kernel.OnlyCurrentRuns;
    k, parent, child := ParentAndChild();
    ListedKnown(k);
    NoDups(k);
    HeadThenNext(k, parent);
    var waits := k.Waitpid(pid);
    HeadThenNext(k, child);
  }

  /** The exit of that child makes it runnable. */
  method WokenByAnotherChild(pid: DWord) returns (k: Kernel, parent: Task)
    requires pid != 3
    ensures k.Valid() && parent.state == Runnable && parent.waitForChildPid == pid != 3
  {
    hide InfoOf, Kernel.Valid, WokenBy, WaitsFor, Without;
    ghost var child;
    k, parent, child := WaitsForAnother(pid);
    CurrentKnown(k);
    ParentKnown(k);
    ListedKnown(k);
    FreeKnown(k);
    assert forall i :: 0 <= i < |k.tasks| ==> k.tasks[i] in k.tasks && fresh(k.tasks[i]);
    assert forall i :: 0 <= i < |k.free| ==> k.free[i] in k.free && fresh(k.free[i]);
    assert fresh(k.currentTask) && fresh(k.currentTask.parent);
    FieldsOf(parent);
    k.Exit();
    FieldsOf(parent);
  }
}
