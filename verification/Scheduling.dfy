/** Round-robin choice and sleeping time in w2, as functions of the tasks' states. */
module Scheduling {
  import opened Words
  import opened Wrappers

  ghost predicate NoDup<T>(ts: seq<T>) {
    forall i, j :: 0 <= i < j < |ts| ==> ts[i] != ts[j]
  }

  /** Where t stands, or the length. */
  function IndexOf<T(==)>(ts: seq<T>, t: T): (i: nat)
    ensures i <= |ts| && (i < |ts| ==> ts[i] == t)
    ensures i < |ts| <==> t in ts
    ensures forall k :: 0 <= k < i ==> ts[k] != t
  {
    if ts == [] || ts[0] == t then 0 else IndexOf(ts[1..], t) + 1
  }

  lemma IndexAt<T>(ts: seq<T>, i: nat)
    requires NoDup(ts) && i < |ts|
    ensures IndexOf(ts, ts[i]) == i
  {
    var k := IndexOf(ts, ts[i]);
    assert ts[k] == ts[i];
  }

  /** The sequence without t. */
  function Without<T(==)>(ts: seq<T>, t: T): (r: seq<T>) {
    var i := IndexOf(ts, t);
    if i == |ts| then ts else ts[..i] + ts[i + 1..]
  }

  lemma WithoutMembers<T>(ts: seq<T>, t: T)
    requires NoDup(ts)
    ensures NoDup(Without(ts, t))
    ensures forall x :: x in Without(ts, t) <==> x in ts && x != t
  {
    var i, r := IndexOf(ts, t), Without(ts, t);
    forall x | x in ts && x != t
      ensures x in r
    {
      var k := IndexOf(ts, x);
      assert r[if k < i then k else k - 1] == x;
    }
  }

  // ---- The round-robin search --------------------------------------------------------------------

  /** The first runnable task other than `current`. */
  function FirstRunnable<T(==)>(ts: seq<T>, current: T, runnable: set<T>): (r: Option<T>)
    ensures r == None <==> forall t :: t in ts && t != current ==> t !in runnable
    ensures r != None ==> r.value in ts && r.value in runnable && r.value != current
  {
    if ts == [] then None
    else if ts[0] != current && ts[0] in runnable then Some(ts[0])
    else FirstRunnable(ts[1..], current, runnable)
  }

  lemma {:induction false} FirstOfTwo<T>(ts: seq<T>, us: seq<T>, current: T, runnable: set<T>)
    ensures FirstRunnable(ts + us, current, runnable) ==
            if FirstRunnable(ts, current, runnable) == None then FirstRunnable(us, current, runnable)
            else FirstRunnable(ts, current, runnable)
  {
    if ts == [] {
      assert ts + us == us;
    } else {
      assert (ts + us)[1..] == ts[1..] + us;
      FirstOfTwo(ts[1..], us, current, runnable);
    }
  }

  /** The task a schedule call makes current: the first runnable one behind the current task, around the
      list; the current one when no other is runnable. */
  function Picked<T(==)>(ts: seq<T>, current: T, runnable: set<T>): T
    requires current in ts
  {
    match FirstRunnable(ts[IndexOf(ts, current) + 1..] + ts, current, runnable)
    case None => current
    case Some(t) => t
  }

  /** How many places behind `current`, around the list, x stands. */
  function Distance(n: nat, current: nat, x: nat): nat
    requires current < n && x < n
  {
    if x >= current then x - current else x + n - current
  }

  lemma {:induction false} FirstAt<T>(ts: seq<T>, current: T, runnable: set<T>, k: nat)
    requires k < |ts| && ts[k] != current && ts[k] in runnable
    ensures var r := FirstRunnable(ts, current, runnable);
            r != None && IndexOf(ts, r.value) <= k && ts[IndexOf(ts, r.value)] == r.value
  {
    if !(ts[0] != current && ts[0] in runnable) {
      FirstAt(ts[1..], current, runnable, k - 1);
    }
  }

  /** A call that passes over a runnable task comes closer to it. */
  lemma PickedIsCloser<T>(ts: seq<T>, current: T, x: T, runnable: set<T>)
    requires NoDup(ts) && current in ts && x in ts && x != current && x in runnable
    ensures Picked(ts, current, runnable) in ts
    ensures Distance(|ts|, IndexOf(ts, Picked(ts, current, runnable)), IndexOf(ts, x))
          < Distance(|ts|, IndexOf(ts, current), IndexOf(ts, x))
  {
    hide NoDup, Picked, FirstRunnable, IndexOf;
    var n, c, k := |ts|, IndexOf(ts, current), IndexOf(ts, x);
    var w, d := ts[c + 1..] + ts, Distance(n, c, k);
    Turned(ts, c, d - 1);
    FirstAt(w, current, runnable, d - 1);
    PickedIs(ts, current, runnable);
    var p := Picked(ts, current, runnable);
    var m := IndexOf(w, p);
    Turned(ts, c, m);
    IndexAt(ts, Place(n, c + 1 + m));
  }

  /** Place i of the list, counted around it. */
  function Place(n: nat, i: nat): nat
    requires i < 2 * n
  {
    if i < n then i else i - n
  }

  lemma Turned<T>(ts: seq<T>, c: nat, m: nat)
    requires c < |ts| && c + 1 + m < 2 * |ts|
    ensures (ts[c + 1..] + ts)[m] == ts[Place(|ts|, c + 1 + m)]
  {
  }

  lemma PickedIs<T>(ts: seq<T>, current: T, runnable: set<T>)
    requires current in ts
    ensures var r := FirstRunnable(ts[IndexOf(ts, current) + 1..] + ts, current, runnable);
            Picked(ts, current, runnable) == if r == None then current else r.value
  {
  }

  /** Only the listed tasks matter. */
  lemma {:induction false} FirstSame<T>(ts: seq<T>, current: T, runnable: set<T>, runnable': set<T>)
    requires forall t :: t in ts ==> (t in runnable <==> t in runnable')
    ensures FirstRunnable(ts, current, runnable) == FirstRunnable(ts, current, runnable')
  {
    if ts != [] {
      FirstSame(ts[1..], current, runnable, runnable');
    }
  }

  lemma PickedSame<T>(ts: seq<T>, current: T, runnable: set<T>, runnable': set<T>)
    requires current in ts && forall t :: t in ts ==> (t in runnable <==> t in runnable')
    ensures Picked(ts, current, runnable) == Picked(ts, current, runnable')
  {
    FirstSame(ts[IndexOf(ts, current) + 1..] + ts, current, runnable, runnable');
  }

  /** The task behind the current one is picked if it is runnable, else the one behind that if it is. */
  lemma NextIsPicked<T>(ts: seq<T>, current: T, runnable: set<T>, c: nat)
    requires NoDup(ts) && c + 1 < |ts| && current == ts[c]
    ensures ts[c + 1] in runnable ==> Picked(ts, current, runnable) == ts[c + 1]
    ensures ts[c + 1] !in runnable && c + 2 < |ts| && ts[c + 2] in runnable ==>
              Picked(ts, current, runnable) == ts[c + 2]
  {
    IndexAt(ts, c);
    var w := ts[c + 1..] + ts;
    assert w[0] == ts[c + 1];
    if ts[c + 1] !in runnable && c + 2 < |ts| {
      assert w[1..][0] == ts[c + 2] != current;
      assert FirstRunnable(w, current, runnable) == FirstRunnable(w[1..], current, runnable);
    }
  }

  /** The current task after a number of schedule calls; runnable[i] is what call i finds runnable. */
  function Current<T(==)>(ts: seq<T>, current: T, runnable: seq<set<T>>): (t: T)
    requires current in ts
    ensures t in ts
    decreases |runnable|
  {
    if runnable == [] then current else Current(ts, Picked(ts, current, runnable[0]), runnable[1..])
  }

  /** Fairness: while the list stays as it is and x is runnable at every call until it is chosen, x becomes
      current within |ts| - 1 calls, whatever the others do. */
  lemma {:induction false} Fair<T>(ts: seq<T>, current: T, x: T, runnable: seq<set<T>>) returns (k: nat)
    requires NoDup(ts) && current in ts && x in ts && x != current
    requires |runnable| >= Distance(|ts|, IndexOf(ts, current), IndexOf(ts, x))
    requires forall i :: 0 <= i < |runnable| && (forall j :: 0 <= j <= i ==> Current(ts, current, runnable[..j]) != x)
               ==> x in runnable[i]
    ensures 1 <= k <= Distance(|ts|, IndexOf(ts, current), IndexOf(ts, x)) <= |ts| - 1
    ensures k <= |runnable| && Current(ts, current, runnable[..k]) == x
    decreases |runnable|
  {
    hide Current, Picked, NoDup, IndexOf, Distance;
    CurrentAfter(ts, current, runnable, 0);
    NotFar(ts, current, x);
    assert x in runnable[0];
    PickedIsCloser(ts, current, x, runnable[0]);
    var p, rest := Picked(ts, current, runnable[0]), runnable[1..];
    if p == x {
      CurrentAfter(ts, current, runnable, 1);
      CurrentAfter(ts, p, rest, 0);
      k := 1;
    } else {
      forall i | 0 <= i < |rest| && (forall j :: 0 <= j <= i ==> Current(ts, p, rest[..j]) != x)
        ensures x in rest[i]
      {
        forall j | 0 <= j <= i + 1
          ensures Current(ts, current, runnable[..j]) != x
        {
          CurrentAfter(ts, current, runnable, j);
        }
      }
      k := Fair(ts, p, x, rest);
      CurrentAfter(ts, current, runnable, k + 1);
      k := k + 1;
    }
  }

  lemma CurrentAfter<T>(ts: seq<T>, current: T, runnable: seq<set<T>>, j: nat)
    requires current in ts && j <= |runnable|
    ensures j == 0 ==> Current(ts, current, runnable[..j]) == current
    ensures j > 0 ==>
              && Picked(ts, current, runnable[0]) in ts
              && Current(ts, current, runnable[..j])
                 == Current(ts, Picked(ts, current, runnable[0]), runnable[1..][..j - 1])
  {
    if j > 0 {
      assert runnable[..j][1..] == runnable[1..][..j - 1];
    }
  }

  lemma NotFar<T>(ts: seq<T>, current: T, x: T)
    requires current in ts && x in ts && x != current
    ensures 1 <= Distance(|ts|, IndexOf(ts, current), IndexOf(ts, x)) <= |ts| - 1
  {
  }

  // ---- Sleeping ----------------------------------------------------------------------------------

  /** Ticks until a task that called sleep(sec) is runnable: the count is kept one short, in 64 bits. */
  function TicksAsleep(sec: DWord): nat { (sec - 1) % B64 + 1 }

  /** One tick for a sleeping task: the counter left, or None when it wakes up. */
  function Tick(left: DWord): Option<DWord> { if left == 0 then None else Some(left - 1) }

  function Ticks(left: Option<DWord>, n: nat): Option<DWord>
    decreases n
  {
    if n == 0 || left == None then left else Ticks(Tick(left.value), n - 1)
  }

  lemma {:induction false} TicksLeft(left: DWord, n: nat)
    ensures Ticks(Some(left), n) == if n <= left then Some(left - n) else None
    decreases n
  {
    if n > 0 && left > 0 {
      TicksLeft(left - 1, n - 1);
    }
  }

  /** The counter of sleep(sec) runs out after exactly sec ticks for every sec but 0, for which it takes
      2^64. */
  lemma CounterLasts(sec: DWord, n: nat)
    ensures Ticks(Some((sec - 1) % B64), n) == None <==> n >= TicksAsleep(sec)
    ensures TicksAsleep(sec) == sec <==> sec != 0
    ensures sec == 0 ==> TicksAsleep(sec) == B64
  {
    TicksLeft((sec - 1) % B64, n);
  }
}
