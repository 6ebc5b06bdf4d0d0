/** The round-robin scheduler: a doubly linked ring of tasks seen from the
    running one. */
module Scheduler {

  class Task {
    var upid: nat
    var next: Task?
    var prev: Task?

    /** scheduler_create_task: not in any ring yet. */
    constructor ()
      ensures upid == 0 && next == null && prev == null
    {
      upid, next, prev := 0, null, null;
    }
  }

  // ----- rings as sequences, the running task first

  ghost function Succ(i: nat, n: nat): nat {
    if i + 1 < n then i + 1 else 0
  }

  datatype Link = Link(next: Task?, prev: Task?)

  ghost function Links(ring: seq<Task>): (f: seq<Link>)
    reads ring
    ensures |f| == |ring| && forall i :: 0 <= i < |ring| ==> f[i] == Link(ring[i].next, ring[i].prev)
  {
    seq(|ring|, i requires 0 <= i < |ring| reads ring => Link(ring[i].next, ring[i].prev))
  }

  /** Task i and the one after it point at each other. */
  ghost predicate LinkedAt(ring: seq<Task>, f: seq<Link>, i: nat)
    requires i < |ring| == |f|
  {
    var j := Succ(i, |ring|);
    f[i].next == ring[j] && f[j].prev == ring[i]
  }

  ghost predicate Linked(ring: seq<Task>, f: seq<Link>) {
    |f| == |ring| && forall i :: 0 <= i < |ring| ==> LinkedAt(ring, f, i)
  }

  ghost predicate Distinct(ring: seq<Task>) {
    forall i, j :: 0 <= i < j < |ring| ==> ring[i] != ring[j]
  }

  ghost function Ids(ring: seq<Task>): (f: seq<nat>)
    reads ring
    ensures |f| == |ring| && forall i :: 0 <= i < |ring| ==> f[i] == ring[i].upid
  {
    seq(|ring|, i requires 0 <= i < |ring| reads ring => ring[i].upid)
  }

  /** Only the running task can have identifier 0; the identifiers are different
      and have been handed out. */
  ghost predicate Named(ids: seq<nat>, next: nat) {
    && (forall i :: 0 <= i < |ids| ==> ids[i] < next)
    && (forall i :: 0 < i < |ids| ==> ids[i] != 0)
    && (forall i, j :: 0 <= i < j < |ids| ==> ids[i] != ids[j])
  }

  /** The ring after a timer interrupt: the next task runs, and the old one goes
      to the end unless it has exited and is not alone. */
  ghost function AfterTick<T>(ring: seq<T>, dead: bool): seq<T>
    requires ring != []
  {
    if dead && |ring| > 1 then ring[1..] else ring[1..] + [ring[0]]
  }

  class Scheduler {
    var current: Task?
    var nextPid: nat
    ghost var ring: seq<Task>

    ghost predicate Valid()
      reads this, ring
    {
      && nextPid > 0 && (current == null <==> ring == []) && (ring != [] ==> ring[0] == current)
      && Distinct(ring) && Linked(ring, Links(ring)) && Named(Ids(ring), nextPid)
    }

    constructor ()
      ensures Valid() && ring == [] && nextPid == 1
    {
      current, nextPid, ring := null, 1, [];
    }

    /** scheduler_init: the bootstrap task runs, alone. */
    method Init() returns (t: Task)
      requires Valid() && ring == []
      modifies this`current, this`ring
      ensures Valid() && fresh(t) && ring == [t] && t.upid == 0
    {
      t := new Task();
      current := t;
      t.next, t.prev := t, t;
      ring := [t];
    }

    /** Link a task in between the running one's predecessor and the running
        one. */
    method LinkIn(t: Task)
      requires current != null && ring != [] && ring[0] == current && Distinct(ring) && t !in ring
      requires Linked(ring, Links(ring))
      modifies t, ring[0], ring[|ring| - 1]
      ensures Linked(ring + [t], Links(ring + [t])) && Ids(ring) == old(Ids(ring)) && t.upid == old(t.upid)
    {
      hide Linked, Distinct;
      ghost var r, f := ring, Links(ring);
      LastLink(r, f);
      EndsDistinct(r);
      var last := current.prev;
      last.next := t;
      t.prev := last;
      t.next := current;
      current.prev := t;
      assert Ids(r) == old(Ids(ring));
      EnrollLinked(r, f, t, Links(r + [t]));
    }

    /** scheduler_enroll_task: the new task goes in behind the running one's
        predecessor, at the far end of the ring. */
    method Enroll(t: Task)
      requires Valid() && t !in ring
      modifies this, t, if ring == [] then {} else {ring[0], ring[|ring| - 1]}
      ensures Valid() && ring == old(ring) + [t] && t.upid == old(nextPid) && nextPid == old(nextPid) + 1
      ensures current == if old(current) == null then t else old(current)
      ensures Ids(old(ring)) == old(Ids(ring))
    {
      hide Linked, Distinct, Named;
      ghost var r, ids := ring, Ids(ring);
      EnrollNamed(ids, nextPid);
      EnrollDistinct(r, t);
      t.upid := nextPid;
      nextPid := nextPid + 1;
      assert Links(r) == old(Links(ring));
      if current == null {
        current := t;
        t.next, t.prev := t, t;
        EnrollLinked(r, Links(r), t, Links(r + [t]));
      } else {
        LinkIn(t);
      }
      ring := r + [t];
      assert Ids(ring) == ids + [t.upid];
    }

    /** The running task leaves the ring. */
    method Unlink()
      requires current != null && |ring| > 1 && ring[0] == current && Distinct(ring) && Linked(ring, Links(ring))
      modifies ring[1], ring[|ring| - 1]
      ensures Linked(ring[1..], Links(ring[1..])) && Ids(ring) == old(Ids(ring)) && ring[0].next == old(ring[0].next)
    {
      hide Linked, Distinct;
      ghost var r, f, ids := ring, Links(ring), Ids(ring);
      LastLink(r, f);
      EndsDistinct(r);
      var next, prev := current.next, current.prev;
      prev.next := next;
      next.prev := prev;
      assert Ids(r) == ids;
      TickLinked(r, f, true, Links(r[1..]));
    }

    /** scheduler_timer_handler: switch to the next task; a task that has exited
        leaves the ring unless it is alone. */
    method Tick()
      requires Valid() && current != null
      modifies this`current, this`ring
      modifies if |ring| > 1 then {ring[1], ring[|ring| - 1]} else {}
      ensures Valid() && ring == AfterTick(old(ring), old(current.upid) == 0)
      ensures Ids(old(ring)) == old(Ids(ring))
    {
      hide Linked, Distinct, Named;
      ghost var r, f, ids := ring, Links(ring), Ids(ring);
      LastLink(r, f);
      EndsDistinct(r);
      var oldTask, next := current, current.next;
      ghost var dead := oldTask.upid == 0;
      TickNamed(ids, nextPid);
      TickDistinct(r, dead);
      if oldTask.upid == 0 && oldTask != next && oldTask.next != null && oldTask.prev != null {
        Unlink();
      } else {
        TickLinked(r, f, dead, AfterTick(f, dead));
      }
      current := next;
      ring := AfterTick(r, dead);
      assert Ids(ring) == AfterTick(ids, dead);
      assert !(dead && |r| > 1) ==> Links(ring) == AfterTick(f, dead);
    }

    /** scheduler_exit_task: false when the last task tried to exit, which
        halts the machine. */
    method Exit() returns (ok: bool)
      requires Valid() && current != null
      modifies this`current, this`ring, current
      modifies if |ring| > 1 then {ring[1], ring[|ring| - 1]} else {}
      ensures ok <==> |old(ring)| > 1
      ensures ok ==> Valid() && ring == old(ring)[1..]
      ensures !ok ==> ring == old(ring) && Valid()
      ensures ok ==> Ids(ring) == old(Ids(ring))[1..]
    {
      hide Linked, Distinct, Named;
      ghost var ids := Ids(ring);
      LastLink(ring, Links(ring));
      EndsDistinct(ring);
      NotFirst(ring);
      ExitNamed(ids, nextPid);
      if current.next == current {
        return false;
      }
      current.upid := 0;
      assert Ids(ring) == ids[0 := 0];
      assert Links(ring) == old(Links(ring));
      Tick();
      return true;
    }

    /** get_task_by_upid: once round the ring from the running task. */
    method Find(upid: nat) returns (t: Task?)
      requires Valid()
      ensures t != null ==> t in ring && t.upid == upid
      ensures t == null <==> forall u :: u in ring ==> u.upid != upid
    {
      if current == null {
        return null;
      }
      var start := current;
      t := start;
      ghost var k := 0;
      while true
        invariant 0 <= k < |ring| && t == ring[k]
        invariant forall i :: 0 <= i < k ==> ring[i].upid != upid
        decreases |ring| - k
      {
        assert LinkedAt(ring, Links(ring), k);
        if t.upid == upid {
          return;
        }
        t := t.next;
        if t == start {
          assert k + 1 == |ring|;
          return null;
        }
        k := k + 1;
      }
    }

    /** One step of a history: whoever waits keeps its place or moves up by one. */
    method Do(act: Act)
      requires Valid() && |ring| > 1
      modifies this, ring
      ensures Valid() && forall i :: 0 <= i < |ring| ==> ring[i] in old(ring) || fresh(ring[i])
      ensures act.NewTask? ==> |ring| == |old(ring)| + 1 && ring[..|ring| - 1] == old(ring)
      ensures !act.NewTask? ==> |ring| >= |old(ring)| - 1 && ring[..|old(ring)| - 1] == old(ring)[1..]
      ensures Became(act, old(current.upid) == 0, old(ring), ring)
    {
      hide Linked, Distinct, Named, Links, Ids;
      ghost var r, dead := ring, current.upid == 0;
      assert ring[0] in ring && ring[1] in ring && ring[|ring| - 1] in ring;
      match act {
        case NewTask =>
          var t := new Task();
          Enroll(t);
        case Timer =>
          Tick();
        case Leave =>
          var ok := Exit();
      }
      hide Valid;
      assert Became(act, dead, r, ring);
    }

    /** Any history of enrolments, timer interrupts and exits, up to d switches:
        the task at distance d from the running one is as many places closer as
        there were switches, and runs after exactly d. */
    method Run(acts: seq<Act>, d: nat) returns (k: nat, switches: nat)
      requires Valid() && d < |ring|
      modifies this, ring
      ensures Valid() && k <= |acts| && switches == Switches(acts[..k]) && (k == |acts| || switches == d)
      ensures switches <= d && d - switches < |ring| && ring[d - switches] == old(ring[d])
      ensures switches == d ==> current == old(ring[d])
    {
      hide Linked, Distinct, Named, Links, Ids, Became;
      k, switches := 0, 0;
      while k < |acts| && switches < d
        invariant k <= |acts| && switches == Switches(acts[..k]) && Valid()
        invariant switches <= d && d - switches < |ring| && ring[d - switches] == old(ring[d])
        invariant forall i :: 0 <= i < |ring| ==> ring[i] in old(ring) || fresh(ring[i])
      {
        SwitchesNext(acts, k);
        Do(acts[k]);
        if !acts[k].NewTask? {
          switches := switches + 1;
        }
        k := k + 1;
      }
    }
  }

  /** A task is created and enrolled, the timer ticks, or the running task exits. */
  datatype Act = NewTask | Timer | Leave

  function Switches(acts: seq<Act>): nat {
    if acts == [] then 0 else Switches(acts[..|acts| - 1]) + if acts[|acts| - 1].NewTask? then 0 else 1
  }

  lemma SwitchesNext(acts: seq<Act>, k: nat)
    requires k < |acts|
    ensures Switches(acts[..k + 1]) == Switches(acts[..k]) + if acts[k].NewTask? then 0 else 1
  {
    assert acts[..k + 1][..k] == acts[..k];
  }

  /** The ends of a ring. */
  lemma LastLink(ring: seq<Task>, f: seq<Link>)
    requires Linked(ring, f)
    ensures |f| == |ring|
    ensures ring != [] ==>
              && f[0].prev == ring[|ring| - 1] && f[|ring| - 1].next == ring[0]
              && f[0].next == (if |ring| > 1 then ring[1] else ring[0])
              && (|ring| > 1 ==> f[1].prev == ring[0])
  {
    if ring != [] {
      assert LinkedAt(ring, f, |ring| - 1);
      assert LinkedAt(ring, f, 0);
    }
  }

  /** The writes of an enrolment close the longer ring. */
  lemma EnrollLinked(r: seq<Task>, f: seq<Link>, t: Task, f': seq<Link>)
    requires Linked(r, f) && |f'| == |r| + 1
    requires r == [] ==> f'[0] == Link(t, t)
    requires r != [] ==>
               && f'[|r|] == Link(r[0], r[|r| - 1]) && f'[0].prev == t && f'[|r| - 1].next == t
               && (|r| > 1 ==> f'[0].next == f[0].next && f'[|r| - 1].prev == f[|r| - 1].prev)
               && forall i :: 0 < i < |r| - 1 ==> f'[i] == f[i]
    ensures Linked(r + [t], f')
  {
    forall i | 0 <= i < |r| + 1
      ensures LinkedAt(r + [t], f', i)
    {
      if i + 1 < |r| {
        assert LinkedAt(r, f, i);
      }
    }
  }

  /** A tick turns the ring; when the old task leaves, its neighbours are joined. */
  lemma TickLinked(r: seq<Task>, f: seq<Link>, dead: bool, f': seq<Link>)
    requires r != [] && Linked(r, f) && |f'| == |AfterTick(r, dead)|
    requires dead && |r| > 1 ==>
               && f'[0].prev == r[|r| - 1] && f'[|r| - 2].next == r[1]
               && (|r| > 2 ==> f'[0].next == f[1].next && f'[|r| - 2].prev == f[|r| - 1].prev)
               && forall i :: 0 < i < |r| - 2 ==> f'[i] == f[i + 1]
    requires !(dead && |r| > 1) ==> forall i :: 0 <= i < |r| ==> f'[i] == f[Succ(i, |r|)]
    ensures Linked(AfterTick(r, dead), f')
  {
    var s := AfterTick(r, dead);
    forall i | 0 <= i < |s|
      ensures LinkedAt(s, f', i)
    {
      assert s[i] == r[Succ(i, |r|)];
      assert LinkedAt(r, f, Succ(i, |r|));
      assert LinkedAt(r, f, i);
    }
  }

  lemma EndsDistinct(r: seq<Task>)
    requires Distinct(r)
    ensures |r| > 1 ==> r[0] != r[1] && r[0] != r[|r| - 1]
    ensures |r| > 2 ==> r[1] != r[|r| - 1]
    ensures forall i :: 1 < i < |r| - 1 ==> r[i] != r[0] && r[i] != r[1] && r[i] != r[|r| - 1]
  {
  }

  lemma NotFirst(r: seq<Task>)
    requires Distinct(r)
    ensures forall i :: 0 < i < |r| ==> r[i] != r[0]
  {
  }

  lemma EnrollDistinct(r: seq<Task>, t: Task)
    requires Distinct(r) && t !in r
    ensures Distinct(r + [t])
  {
  }

  lemma EnrollNamed(ids: seq<nat>, pid: nat)
    requires Named(ids, pid) && pid > 0
    ensures Named(ids + [pid], pid + 1)
  {
  }

  lemma TickDistinct(r: seq<Task>, dead: bool)
    requires Distinct(r) && r != []
    ensures Distinct(AfterTick(r, dead))
  {
    var s := AfterTick(r, dead);
    assert forall i :: 0 <= i < |s| ==> s[i] == r[Succ(i, |r|)];
  }

  lemma TickNamed(ids: seq<nat>, pid: nat)
    requires Named(ids, pid) && ids != []
    ensures Named(AfterTick(ids, ids[0] == 0), pid)
  {
    var s := AfterTick(ids, ids[0] == 0);
    assert forall i :: 0 <= i < |s| ==> s[i] == ids[Succ(i, |ids|)];
  }

  lemma ExitNamed(ids: seq<nat>, pid: nat)
    requires Named(ids, pid) && ids != [] && pid > 0
    ensures Named(ids[0 := 0], pid)
  {
  }

  /** Two tasks of a ring with the same identifier are the same task, so a
      search has at most one answer. */
  lemma Unique(ring: seq<Task>, pid: nat, t: Task, u: Task)
    requires Named(Ids(ring), pid) && t in ring && u in ring && t.upid == u.upid
    ensures t == u
  {
    var i :| 0 <= i < |ring| && ring[i] == t;
    var j :| 0 <= j < |ring| && ring[j] == u;
    assert Ids(ring)[i] == Ids(ring)[j];
  }

  // ----- fairness

  /** What a step of a history is to the ring: an event. */
  ghost predicate Became<T>(act: Act, dead: bool, was: seq<T>, ring: seq<T>) {
    && was != [] && ring != []
    && var e := if act.NewTask? then Enrolled(ring[|ring| - 1]) else if act.Leave? || dead then Exited else Ticked;
       (act.NewTask? || |was| > 1) && ring == After(was, e)
  }

  /** What can happen to a ring: a task is enrolled, the timer ticks, or it ticks
      with a running task whose identifier is 0: one that has exited, or the
      bootstrap task. */
  datatype Event<T> = Enrolled(t: T) | Ticked | Exited

  ghost predicate Possible<T>(ring: seq<T>, e: Event<T>) {
    ring != [] && (e.Exited? ==> |ring| > 1)
  }

  ghost function After<T>(ring: seq<T>, e: Event<T>): seq<T>
    requires Possible(ring, e)
  {
    match e
    case Enrolled(t) => ring + [t]
    case Ticked => AfterTick(ring, false)
    case Exited => AfterTick(ring, true)
  }

  ghost predicate AllPossible<T>(ring: seq<T>, es: seq<Event<T>>)
    decreases |es|
  {
    es == [] || (Possible(ring, es[0]) && AllPossible(After(ring, es[0]), es[1..]))
  }

  ghost function AfterAll<T>(ring: seq<T>, es: seq<Event<T>>): seq<T>
    requires AllPossible(ring, es)
    decreases |es|
  {
    if es == [] then ring else AfterAll(After(ring, es[0]), es[1..])
  }

  ghost function Ticks<T>(es: seq<Event<T>>): nat {
    if es == [] then 0 else (if es[0].Enrolled? then 0 else 1) + Ticks(es[1..])
  }

  /** A task at distance d from the running one comes one step closer at every
      tick, whatever is enrolled or exits meanwhile, and runs after exactly d. */
  lemma {:induction false} TurnComes<T>(ring: seq<T>, es: seq<Event<T>>, d: nat)
    requires AllPossible(ring, es) && d < |ring| && Ticks(es) <= d
    ensures d - Ticks(es) < |AfterAll(ring, es)| && AfterAll(ring, es)[d - Ticks(es)] == ring[d]
    ensures Ticks(es) == d ==> AfterAll(ring, es)[0] == ring[d]
    decreases |es|
  {
    if es != [] {
      var r := After(ring, es[0]);
      var e := if es[0].Enrolled? then d else d - 1;
      assert r[e] == ring[d];
      TurnComes(r, es[1..], e);
    }
  }
}
