/**
 Threads, the scheduler, counting semaphores and recursive locks.  What runs with interrupts off is one
 step; every other access to shared data is a step of its own, and a timer interrupt may come between
 any two steps.
 */
module Threads {
  import opened Basics

  datatype Status = Running | Ready | Blocked

  /** Where a thread is in the synchronisation code; `Home` is outside of it. */
  datatype Pc =
    | Home
    | Down(s: nat, locking: bool)   // blocked in `sema_down`, or woken and about to test the value again
    | AcqRead(l: nat)               // about to read the holder
    | AcqDown(l: nat)               // the holder was somebody else
    | AcqHolder(l: nat)             // about to write the holder
    | AcqNr(l: nat)                 // about to set the count to one
    | AcqInc(l: nat)                // the holder was this thread
    | RelTest(l: nat)
    | RelNr(l: nat)
    | RelHolder(l: nat)
    | RelUp(l: nat)
    | RelDec(l: nat)

  const NONE := -1

  lemma PopFacts(s: seq<nat>)
    requires s != [] && NoDup(s)
    ensures NoDup(s[1..]) && forall t :: t in s[1..] <==> t in s && t != s[0]
  {
    assert forall t :: t in s <==> t == s[0] || t in s[1..];
  }

  predicate WaitsFor(status: seq<Status>, pc: seq<Pc>, t: nat, s: nat)
    requires |pc| == |status|
  {
    t < |pc| && status[t] == Blocked && pc[t].Down? && pc[t].s == s
  }

  /** Wait lists hold the threads blocked in `sema_down` on them, each once; only the idle thread blocks elsewhere. */
  ghost predicate WaitsOk(idle: nat, status: seq<Status>, pc: seq<Pc>, waits: seq<seq<nat>>) {
    |pc| == |status| && idle < |pc| && pc[idle] == Home &&
    (forall s :: 0 <= s < |waits| ==> NoDup(waits[s])) &&
    (forall s, t: nat :: 0 <= s < |waits| ==> (t in waits[s] <==> WaitsFor(status, pc, t, s))) &&
    (forall t :: 0 <= t < |pc| && pc[t].Down? ==> pc[t].s < |waits|) &&
    (forall t :: 0 <= t < |pc| && status[t] == Blocked ==> t == idle || pc[t].Down?)
  }

  /** Threads that were taken off the wait list of `s` and have not got through `sema_down` yet. */
  ghost function Woken(status: seq<Status>, pc: seq<Pc>, s: nat): set<nat>
    requires |pc| == |status|
  {
    set t: nat | t < |pc| && pc[t].Down? && pc[t].s == s && status[t] != Blocked
  }

  /** No wakeup is lost: while threads wait, at least as many are on their way as may pass. */
  ghost predicate WakeupsOk(status: seq<Status>, pc: seq<Pc>, waits: seq<seq<nat>>, value: seq<nat>) {
    |pc| == |status| && |waits| == |value| &&
    forall s :: 0 <= s < |waits| && waits[s] != [] ==> value[s] <= |Woken(status, pc, s)|
  }

  /** The same threads are blocked, the idle thread apart. */
  ghost predicate SameBlocked(idle: nat, status: seq<Status>, status': seq<Status>) {
    |status| == |status'| &&
    forall t :: 0 <= t < |status| && t != idle ==> (status[t] == Blocked <==> status'[t] == Blocked)
  }

  /** Switching threads touches neither the wait lists nor who is on the way. */
  lemma SwitchKeeps(idle: nat, status: seq<Status>, status': seq<Status>, pc: seq<Pc>, waits: seq<seq<nat>>,
                    value: seq<nat>)
    requires WaitsOk(idle, status, pc, waits) && WakeupsOk(status, pc, waits, value)
    requires SameBlocked(idle, status, status')
    ensures WaitsOk(idle, status', pc, waits) && WakeupsOk(status', pc, waits, value)
  {
    forall s | 0 <= s < |waits| ensures Woken(status', pc, s) == Woken(status, pc, s) {
    }
  }

  /** The step of a thread that blocks. */
  lemma BlockKeeps(idle: nat, status: seq<Status>, status': seq<Status>, pc: seq<Pc>, waits: seq<seq<nat>>,
                   value: seq<nat>, cur: nat, s: nat, locking: bool)
    requires WaitsOk(idle, status, pc, waits) && WakeupsOk(status, pc, waits, value)
    requires cur < |pc| && cur != idle && status[cur] == Running && s < |waits| && value[s] == 0
    requires (pc[cur].Down? ==> pc[cur].s == s)
    requires SameBlocked(idle, status[cur := Blocked], status')
    ensures WaitsOk(idle, status', pc[cur := Down(s, locking)], waits[s := waits[s] + [cur]])
    ensures WakeupsOk(status', pc[cur := Down(s, locking)], waits[s := waits[s] + [cur]], value)
  {
    var pc', waits' := pc[cur := Down(s, locking)], waits[s := waits[s] + [cur]];
    assert cur !in waits[s] && forall t :: t in waits'[s] <==> t in waits[s] || t == cur;
    forall r | 0 <= r < |waits| && r != s ensures Woken(status', pc', r) == Woken(status, pc, r) {
    }
  }

  /** The step of a thread that gets through. */
  lemma ThroughKeeps(idle: nat, status: seq<Status>, pc: seq<Pc>, waits: seq<seq<nat>>, value: seq<nat>, cur: nat,
                     s: nat, after: Pc)
    requires WaitsOk(idle, status, pc, waits) && WakeupsOk(status, pc, waits, value)
    requires cur < |pc| && cur != idle && status[cur] == Running && s < |waits| && value[s] > 0
    requires (pc[cur].Down? ==> pc[cur].s == s) && !after.Down?
    ensures WaitsOk(idle, status, pc[cur := after], waits)
    ensures WakeupsOk(status, pc[cur := after], waits, value[s := value[s] - 1])
  {
    var pc' := pc[cur := after];
    forall r | 0 <= r < |waits| && r != s ensures Woken(status, pc', r) == Woken(status, pc, r) {
    }
    assert Woken(status, pc', s) == Woken(status, pc, s) - {cur};
  }

  /** A waiting thread is woken, and the value counted up. */
  lemma WakeKeeps(idle: nat, status: seq<Status>, pc: seq<Pc>, waits: seq<seq<nat>>, value: seq<nat>, s: nat, v: nat)
    requires WaitsOk(idle, status, pc, waits) && WakeupsOk(status, pc, waits, value) && s < |waits| && waits[s] != []
    requires v <= value[s] + 1
    ensures var b := waits[s][0];
            && b < |pc| && status[b] == Blocked
            && WaitsOk(idle, status[b := Ready], pc, waits[s := waits[s][1..]])
            && WakeupsOk(status[b := Ready], pc, waits[s := waits[s][1..]], value[s := v])
  {
    var b := waits[s][0];
    assert b in waits[s] && WaitsFor(status, pc, b, s);
    PopFacts(waits[s]);
    var status' := status[b := Ready];
    forall r | 0 <= r < |waits| && r != s ensures Woken(status', pc, r) == Woken(status, pc, r) {
    }
    assert Woken(status', pc, s) == Woken(status, pc, s) + {b};
  }

  /** A step of a thread that is not in `sema_down` and does not enter it. */
  lemma MoveKeeps(idle: nat, status: seq<Status>, pc: seq<Pc>, waits: seq<seq<nat>>, value: seq<nat>, cur: nat,
                  after: Pc)
    requires WaitsOk(idle, status, pc, waits) && WakeupsOk(status, pc, waits, value)
    requires cur < |pc| && cur != idle && !pc[cur].Down? && !after.Down? && status[cur] == Running
    ensures WaitsOk(idle, status, pc[cur := after], waits) && WakeupsOk(status, pc[cur := after], waits, value)
  {
    forall s | 0 <= s < |waits| ensures Woken(status, pc[cur := after], s) == Woken(status, pc, s) {
    }
  }

  // ----- locks -----

  /** Places in the code that only the owner of a lock can be at. */
  predicate Inside(p: Pc, l: nat) {
    (p.AcqHolder? || p.AcqNr? || p.AcqInc? || p.RelTest? || p.RelNr? || p.RelHolder? || p.RelUp? || p.RelDec?) &&
    p.l == l
  }

  /** Places on the way to a lock that its owner is never at. */
  predicate Outside(p: Pc, l: nat) { (p.AcqDown? && p.l == l) || (p.Down? && p.s == l) }

  /** The thread is between its `sema_down` and its `sema_up` of the lock. */
  predicate InSection(pc: seq<Pc>, depth: seq<seq<nat>>, t: nat, l: nat)
    requires t < |pc| == |depth| && l < |depth[t]|
  {
    Inside(pc[t], l) || depth[t][l] > 0
  }

  /** The fields of a lock, given its owner, where the owner is, and how deep it has nested the lock. */
  predicate FieldsOk(l: nat, t: int, p: Pc, d: nat, holder: int, nr: nat) {
    if t == NONE then holder == NONE && nr == 0
    else if p == AcqHolder(l) || p == RelUp(l) then holder == NONE && nr == 0 && d == 0
    else if p == AcqNr(l) || p == RelHolder(l) then holder == t && nr == 0 && d == 0
    else holder == t && nr == d >= 1 && (p == RelNr(l) ==> d == 1) && (p == RelDec(l) ==> d > 1)
  }

  ghost predicate LockOk(l: nat, pc: seq<Pc>, depth: seq<seq<nat>>, owner: int, holder: int, nr: nat, value: nat) {
    |depth| == |pc| && (forall t :: 0 <= t < |pc| ==> l < |depth[t]|) &&
    (owner == NONE || 0 <= owner < |pc|) &&
    value == (if owner == NONE then 1 else 0) && nr < 0x1_0000_0000 &&
    (forall t :: 0 <= t < |pc| ==> (InSection(pc, depth, t, l) <==> t == owner)) &&
    (if owner == NONE then holder == NONE && nr == 0
     else !Outside(pc[owner], l) && FieldsOk(l, owner, pc[owner], depth[owner][l], holder, nr))
  }

  function SetDepth(depth: seq<seq<nat>>, t: nat, l: nat, d: nat): seq<seq<nat>>
    requires t < |depth| && l < |depth[t]|
  {
    var row: seq<nat> := depth[t][l := d];
    depth[t := row]
  }

  /** The place has to do with no lock other than `l`. */
  ghost predicate Only(p: Pc, l: nat) { forall m :: m != l ==> !Inside(p, m) && !Outside(p, m) }

  ghost predicate AllLocksOk(pc: seq<Pc>, depth: seq<seq<nat>>, owner: seq<int>, holder: seq<int>, nr: seq<nat>,
                             value: seq<nat>) {
    |owner| == |holder| == |nr| <= |value| && |depth| == |pc| &&
    (forall t :: 0 <= t < |pc| ==> |depth[t]| == |owner|) &&
    forall l :: 0 <= l < |owner| ==> LockOk(l, pc, depth, owner[l], holder[l], nr[l], value[l])
  }

  /** What a step of thread `t` may do to lock `l`: the new place, depth, owner, holder, count and value. */
  ghost predicate StepOk(l: nat, t: nat, p: Pc, d: nat, owner: int, o: int, holder: int, h: int, nr: nat, k: nat,
                         v: nat) {
    (Inside(p, l) || d > 0 <==> o == t) && (o == owner || (owner == NONE && o == t) || (owner == t && o == NONE)) &&
    v == (if o == NONE then 1 else 0) && k < 0x1_0000_0000 &&
    (if o == t then !Outside(p, l) && FieldsOk(l, t, p, d, h, k)
     else if o == NONE then h == NONE && k == 0
     else h == holder && k == nr)
  }

  /** A step of a thread that concerns one lock leaves the others as they are. */
  lemma StepKeeps(l: nat, t: nat, pc: seq<Pc>, p: Pc, depth: seq<seq<nat>>, d: nat, owner: seq<int>, o: int,
                  holder: seq<int>, h: int,
                  nr: seq<nat>, k: nat, value: seq<nat>, v: nat)
    requires AllLocksOk(pc, depth, owner, holder, nr, value) && l < |owner| && t < |pc| && Only(pc[t], l) && Only(p, l)
    requires StepOk(l, t, p, d, owner[l], o, holder[l], h, nr[l], k, v)
    ensures AllLocksOk(pc[t := p], SetDepth(depth, t, l, d), owner[l := o], holder[l := h], nr[l := k], value[l := v])
  {
    OwnLock(l, t, pc, p, depth, d, owner[l], o, holder[l], h, nr[l], k, value[l], v);
    forall m | 0 <= m < |owner| && m != l
      ensures LockOk(m, pc[t := p], SetDepth(depth, t, l, d), owner[m], holder[m], nr[m], value[m])
    {
      OtherLock(m, l, t, pc, p, depth, d, owner[m], holder[m], nr[m], value[m]);
    }
  }

  lemma OwnLock(l: nat, t: nat, pc: seq<Pc>, p: Pc, depth: seq<seq<nat>>, d: nat, owner: int, o: int, holder: int,
                h: int,
                nr: nat, k: nat, value: nat, v: nat)
    requires LockOk(l, pc, depth, owner, holder, nr, value) && t < |pc|
    requires StepOk(l, t, p, d, owner, o, holder, h, nr, k, v)
    ensures LockOk(l, pc[t := p], SetDepth(depth, t, l, d), o, h, k, v)
  {
    var pc', depth' := pc[t := p], SetDepth(depth, t, l, d);
    forall u | 0 <= u < |pc| && u != t ensures InSection(pc', depth', u, l) <==> InSection(pc, depth, u, l) {
    }
  }

  lemma OtherLock(m: nat, l: nat, t: nat, pc: seq<Pc>, p: Pc, depth: seq<seq<nat>>, d: nat, owner: int, holder: int,
                  nr: nat, value: nat)
    requires LockOk(m, pc, depth, owner, holder, nr, value) && t < |pc| && l < |depth[t]| && m != l
    requires Only(pc[t], l) && Only(p, l)
    ensures LockOk(m, pc[t := p], SetDepth(depth, t, l, d), owner, holder, nr, value)
  {
    var pc', depth' := pc[t := p], SetDepth(depth, t, l, d);
    assert !Inside(pc[t], m) && !Inside(p, m) && !Outside(p, m);
    forall u | 0 <= u < |pc| ensures InSection(pc', depth', u, m) <==> InSection(pc, depth, u, m) {
    }
  }

  class Machine {
    const n: nat            // threads
    const idle: nat
    const nrSemas: nat
    const nrLocks: nat      // lock `l` has semaphore `l`

    var status: seq<Status>
    var current: nat
    var readyList: seq<nat>
    var pc: seq<Pc>
    var value: seq<nat>
    var waitList: seq<seq<nat>>
    var holder: seq<int>
    var acquireNr: seq<nat>

    // history: the thread between its `sema_down` and its `sema_up` of a lock, and how deep threads have nested locks
    ghost var owner: seq<int>
    ghost var depth: seq<seq<nat>>

    ghost predicate Shape()
      reads this
    {
      |status| == n && |pc| == n && idle < n && current < n && nrLocks <= nrSemas &&
      |value| == nrSemas && |waitList| == nrSemas && |holder| == nrLocks && |acquireNr| == nrLocks &&
      |owner| == nrLocks && |depth| == n && (forall t :: 0 <= t < n ==> |depth[t]| == nrLocks)
    }

    ghost function Now(): View
      reads this
    {
      View(readyList, current, pc, value, waitList, holder, acquireNr)
    }

    function System(): Setup { Setup(idle, nrLocks, nrSemas) }

    /** The ready list holds the ready threads, each once. */
    ghost predicate ReadyOk()
      requires Shape()
      reads this
    {
      NoDup(readyList) && (forall i :: 0 <= i < |readyList| ==> readyList[i] < n) &&
      forall t :: 0 <= t < n ==> (status[t] == Ready <==> t in readyList)
    }

    /** Exactly one thread is running. */
    ghost predicate OneRunning()
      requires Shape()
      reads this
    {
      forall t :: 0 <= t < n ==> (status[t] == Running <==> t == current)
    }

    /** `thread_unblock`. */
    method ThreadUnblock(t: nat)
      requires Shape() && ReadyOk() && t < n && status[t] == Blocked
      modifies `status, `readyList
      ensures status == old(status)[t := Ready] && readyList == [t] + old(readyList)
      ensures Shape() && ReadyOk()
    {
      assert status[t] == Blocked;          // ASSERT
      status := status[t := Ready];
      assert t !in readyList;               // BUG
      readyList := [t] + readyList;
    }

    /** `schedule`: the running thread goes to the end of the ready list unless it has blocked or yielded. */
    method Schedule()
      requires Shape() && ReadyOk() && forall t :: 0 <= t < n && t != current ==> status[t] != Running
      modifies `status, `readyList, `current
      ensures Shape() && ReadyOk() && OneRunning() && SameBlocked(idle, old(status), status)
      ensures var queue := if old(status[current]) == Running then old(readyList) + [old(current)] else old(readyList);
              if queue == [] then current == idle && readyList == [] else current == queue[0] && readyList == queue[1..]
    {
      if status[current] == Running {
        assert current !in readyList;       // ASSERT
        readyList := readyList + [current];
        status := status[current := Ready];
      }
      Dispatch();
    }

    /** The second half of `schedule`: run the first ready thread, or the idle thread if there is none. */
    method Dispatch()
      requires Shape() && ReadyOk() && forall t :: 0 <= t < n ==> status[t] != Running
      modifies `status, `readyList, `current
      ensures Shape() && ReadyOk() && OneRunning() && SameBlocked(idle, old(status), status)
      ensures if old(readyList) == [] then current == idle && readyList == []
              else current == old(readyList)[0] && readyList == old(readyList)[1..]
    {
      if readyList == [] {
        assert status[idle] != Ready;
        ThreadUnblock(idle);
      }
      var next := readyList[0];
      PopFacts(readyList);
      readyList := readyList[1..];
      status := status[next := Running];
      current := next;
    }

    /** `thread_block` of the running thread. */
    method ThreadBlock()
      requires Shape() && ReadyOk() && OneRunning()
      modifies `status, `readyList, `current
      ensures Shape() && ReadyOk() && OneRunning()
      ensures SameBlocked(idle, old(status)[old(current) := Blocked], status)
      ensures if old(readyList) == [] then current == idle && readyList == []
              else current == old(readyList)[0] && readyList == old(readyList)[1..]
    {
      assert status[current] == Running;    // ASSERT
      status := status[current := Blocked];
      Schedule();
    }

    /** `thread_yield`: the running thread goes to the end of the ready list, and the first one runs. */
    method ThreadYield()
      requires Shape() && ReadyOk() && OneRunning()
      modifies `status, `readyList, `current
      ensures Shape() && ReadyOk() && OneRunning()
      ensures SameBlocked(idle, old(status), status)
      ensures [current] + readyList == old(readyList) + [old(current)]
    {
      assert current !in readyList;         // ASSERT
      readyList := readyList + [current];
      status := status[current := Ready];
      Schedule();
    }

    // ----- semaphores -----

    ghost predicate SemasOk()
      reads this
    {
      Shape() && ReadyOk() && OneRunning() && WaitsOk(idle, status, pc, waitList) &&
      WakeupsOk(status, pc, waitList, value) &&
      forall s :: 0 <= s < nrSemas ==> value[s] < 256
    }

    /**
     The loop of `sema_down`, up to where the thread blocks or gets through; entered from outside, or
     again after a wakeup.
     */
    method SemaDown(s: nat, locking: bool, after: Pc) returns (through: bool)
      requires SemasOk() && s < nrSemas && current != idle && !after.Down?
      requires pc[current].Down? ==> pc[current].s == s
      modifies `status, `readyList, `current, `value, `waitList, `pc
      ensures SemasOk() && through == (old(value[s]) > 0)
      ensures through ==>
                value == old(value)[s := old(value[s]) - 1] && pc == old(pc)[old(current) := after] &&
                current == old(current)
      ensures !through ==> value == old(value) && pc == old(pc)[old(current) := Down(s, locking)]
      ensures through ==> readyList == old(readyList)
      ensures !through ==> if old(readyList) == [] then current == idle && readyList == []
                           else current == old(readyList)[0] && readyList == old(readyList)[1..]
      ensures waitList == if through then old(waitList) else old(waitList)[s := old(waitList[s]) + [old(current)]]
    {
      var cur := current;
      if value[s] == 0 {
        assert cur !in waitList[s];         // ASSERT and BUG
        waitList := waitList[s := waitList[s] + [cur]];
        pc := pc[cur := Down(s, locking)];
        ThreadBlock();
        through := false;
        BlockKeeps(idle, old(status), status, old(pc), old(waitList), value, cur, s, locking);
      } else {
        ThroughKeeps(idle, status, pc, waitList, value, cur, s, after);
        value := value[s := value[s] - 1];
        pc := pc[cur := after];
        through := true;
      }
    }

    /** `sema_up`; it may also come from an interrupt handler that runs on top of the current thread. */
    method SemaUp(s: nat)
      requires SemasOk() && s < nrSemas
      modifies `status, `readyList, `value, `waitList
      ensures SemasOk() && value == old(value)[s := (old(value[s]) + 1) % 256]
      ensures if old(waitList[s]) == [] then waitList == old(waitList) && readyList == old(readyList)
              else waitList == old(waitList)[s := old(waitList[s])[1..]] &&
                   readyList == [old(waitList[s])[0]] + old(readyList)
    {
      if waitList[s] != [] {
        WakeFirst(s, (value[s] + 1) % 256);
      }
      value := value[s := (value[s] + 1) % 256];
    }

    /** The first waiting thread is taken off the list and unblocked; `v` is the value that the semaphore gets next. */
    method WakeFirst(s: nat, ghost v: nat)
      requires SemasOk() && s < nrSemas && waitList[s] != [] && v <= value[s] + 1
      modifies `status, `readyList, `waitList
      ensures Shape() && ReadyOk() && OneRunning() && WaitsOk(idle, status, pc, waitList)
      ensures WakeupsOk(status, pc, waitList, value[s := v])
      ensures waitList == old(waitList)[s := old(waitList[s])[1..]]
      ensures readyList == [old(waitList[s])[0]] + old(readyList)
    {
      var b := waitList[s][0];
      WakeKeeps(idle, status, pc, waitList, value, s, v);
      waitList := waitList[s := waitList[s][1..]];
      ThreadUnblock(b);
    }

    // ----- locks -----

    /**
     Places name locks and semaphores that exist, and `sema_down` is entered for a lock exactly from `lock_acquire`.
     */
    ghost predicate PlacesOk()
      requires Shape()
      reads this
    {
      forall t :: 0 <= t < n ==> PlaceOk(pc[t], nrLocks, nrSemas)
    }

    ghost predicate Valid()
      reads this
    {
      SemasOk() && PlacesOk() && AllLocksOk(pc, depth, owner, holder, acquireNr, value)
    }

    /** What the invariant says about the running thread and one lock. */
    lemma Facts(l: nat)
      requires Valid() && l < nrLocks
      ensures InSection(pc, depth, current, l) <==> owner[l] == current
      ensures holder[l] == current ==> owner[l] == current
      ensures owner[l] == current ==>
                !Outside(pc[current], l) &&
                FieldsOk(l, current, pc[current], depth[current][l], holder[l], acquireNr[l])
      ensures value[l] == (if owner[l] == NONE then 1 else 0) && acquireNr[l] < 0x1_0000_0000
      ensures owner[l] == NONE ==> holder[l] == NONE && acquireNr[l] == 0
    {
      assert LockOk(l, pc, depth, owner[l], holder[l], acquireNr[l], value[l]);
    }

    /** A step of the running thread outside of `sema_down`: its new place, and what it writes to a lock. */
    method Commit(l: nat, p: Pc, h: int, k: nat, ghost d: nat)
      requires Valid() && l < nrLocks && current != idle && !pc[current].Down? && !p.Down? && Only(pc[current], l)
      requires Only(p, l) && PlaceOk(p, nrLocks, nrSemas)
      requires StepOk(l, current, p, d, owner[l], owner[l], holder[l], h, acquireNr[l], k, value[l])
      modifies `pc, `holder, `acquireNr, `depth
      ensures Valid() && pc == old(pc)[current := p] && holder == old(holder)[l := h]
      ensures acquireNr == old(acquireNr)[l := k]
      ensures depth == SetDepth(old(depth), current, l, d) && (d == old(depth[current][l]) ==> depth == old(depth))
    {
      CommitKeeps(l, p, h, k, d);
      pc, holder, acquireNr := pc[current := p], holder[l := h], acquireNr[l := k];
      depth := SetDepth(depth, current, l, d);
    }

    /** What such a step keeps. */
    lemma CommitKeeps(l: nat, p: Pc, h: int, k: nat, d: nat)
      requires Valid() && l < nrLocks && current != idle && !pc[current].Down? && !p.Down? && Only(pc[current], l)
      requires Only(p, l)
      requires StepOk(l, current, p, d, owner[l], owner[l], holder[l], h, acquireNr[l], k, value[l])
      ensures AllLocksOk(pc[current := p], SetDepth(depth, current, l, d), owner, holder[l := h], acquireNr[l := k],
                         value)
      ensures WaitsOk(idle, status, pc[current := p], waitList) && WakeupsOk(status, pc[current := p], waitList, value)
      ensures d == depth[current][l] ==> SetDepth(depth, current, l, d) == depth
    {
      MoveKeeps(idle, status, pc, waitList, value, current, p);
      StepKeeps(l, current, pc, p, depth, d, owner, owner[l], holder, h, acquireNr, k, value, value[l]);
      assert owner[l := owner[l]] == owner && value[l := value[l]] == value;
      assert d == depth[current][l] ==> depth[current][l := d] == depth[current];
    }

    /**
     `lock_acquire`, the unsynchronised test of the holder: it finds the caller exactly when the caller owns the lock.
     */
    method AcquireRead(l: nat)
      requires Valid() && l < nrLocks && pc[current] == AcqRead(l)
      modifies `pc, `holder, `acquireNr, `depth
      ensures Valid() && pc == old(pc)[current := if owner[l] == current then AcqInc(l) else AcqDown(l)]
      ensures holder == old(holder) && acquireNr == old(acquireNr) && depth == old(depth)
      ensures Now() == Locked(System(), old(Now()))
    {
      Facts(l);
      if holder[l] != current {
        Commit(l, AcqDown(l), holder[l], acquireNr[l], depth[current][l]);
      } else {
        Commit(l, AcqInc(l), holder[l], acquireNr[l], depth[current][l]);
      }
    }

    /** The call of `lock_acquire`. */
    method AcquireStart(l: nat)
      requires Valid() && l < nrLocks && current != idle && pc[current] == Home
      modifies `pc, `holder, `acquireNr, `depth
      ensures Valid() && pc == old(pc)[current := AcqRead(l)] && depth == old(depth)
      ensures Now() == At(old(Now()), AcqRead(l))
    {
      Facts(l);
      Commit(l, AcqRead(l), holder[l], acquireNr[l], depth[current][l]);
    }

    /** `sema_down` within `lock_acquire`; who gets through owns the lock. */
    method AcquireDown(l: nat)
      requires Valid() && l < nrLocks && (pc[current] == AcqDown(l) || (pc[current].Down? && pc[current].s == l))
      modifies `status, `readyList, `current, `value, `waitList, `pc, `owner
      ensures Valid()
      ensures owner == if old(owner[l]) == NONE then old(owner)[l := old(current)] else old(owner)
      ensures pc == old(pc)[old(current) := if old(owner[l]) == NONE then AcqHolder(l) else Down(l, true)]
      ensures Now() == Downed(System(), old(Now()), l, true, AcqHolder(l))
    {
      DownKeeps(l);
      ghost var t := current;
      var through := SemaDown(l, true, AcqHolder(l));
      if through {
        owner := owner[l := t];
        assert AllLocksOk(pc, depth, owner, holder, acquireNr, value);
      } else {
        assert AllLocksOk(pc, depth, owner, holder, acquireNr, value);
      }
    }

    lemma DownKeeps(l: nat)
      requires Valid() && l < nrLocks && (pc[current] == AcqDown(l) || (pc[current].Down? && pc[current].s == l))
      ensures value[l] == 0 ==>
                owner[l] != NONE && AllLocksOk(pc[current := Down(l, true)], depth, owner, holder, acquireNr, value)
      ensures value[l] > 0 ==> owner[l] == NONE && value[l] == 1
      ensures value[l] > 0 ==>
                AllLocksOk(pc[current := AcqHolder(l)], depth, owner[l := current], holder, acquireNr, value[l := 0])
    {
      Facts(l);
      SameDepth(depth, current, l);
      assert holder[l := holder[l]] == holder && acquireNr[l := acquireNr[l]] == acquireNr;
      if value[l] == 0 {
        StepKeeps(l, current, pc, Down(l, true), depth, depth[current][l], owner, owner[l], holder, holder[l],
                  acquireNr, acquireNr[l], value, 0);
        assert value[l := 0] == value && owner[l := owner[l]] == owner;
      } else {
        StepKeeps(l, current, pc, AcqHolder(l), depth, depth[current][l], owner, current, holder, holder[l],
                  acquireNr, acquireNr[l], value, 0);
      }
    }

    method AcquireHolder(l: nat)
      requires Valid() && l < nrLocks && pc[current] == AcqHolder(l)
      modifies `pc, `holder, `acquireNr, `depth
      ensures Valid() && pc == old(pc)[current := AcqNr(l)] && depth == old(depth)
      ensures Now() == Locked(System(), old(Now()))
    {
      Facts(l);
      Commit(l, AcqNr(l), current, acquireNr[l], depth[current][l]);
    }

    method AcquireNr(l: nat)
      requires Valid() && l < nrLocks && pc[current] == AcqNr(l)
      modifies `pc, `holder, `acquireNr, `depth
      ensures Valid() && pc == old(pc)[current := Home] && depth == SetDepth(old(depth), current, l, 1)
      ensures Now() == Locked(System(), old(Now()))
    {
      Facts(l);
      Commit(l, Home, holder[l], 1, 1);
    }

    /** The recursive case; the count has 32 bits. */
    method AcquireInc(l: nat)
      requires Valid() && l < nrLocks && pc[current] == AcqInc(l) && depth[current][l] + 1 < 0x1_0000_0000
      modifies `pc, `holder, `acquireNr, `depth
      ensures Valid() && pc == old(pc)[current := Home]
      ensures depth == SetDepth(old(depth), current, l, old(depth[current][l]) + 1)
      ensures Now() == Locked(System(), old(Now()))
    {
      Facts(l);
      Commit(l, Home, holder[l], (acquireNr[l] + 1) % 0x1_0000_0000, depth[current][l] + 1);
    }

    /** The call of `lock_release`, which is for locks that the caller has acquired. */
    method ReleaseStart(l: nat)
      requires Valid() && l < nrLocks && current != idle && pc[current] == Home && depth[current][l] > 0
      modifies `pc, `holder, `acquireNr, `depth
      ensures Valid() && pc == old(pc)[current := RelTest(l)] && depth == old(depth)
      ensures Now() == At(old(Now()), RelTest(l))
    {
      Facts(l);
      Commit(l, RelTest(l), holder[l], acquireNr[l], depth[current][l]);
    }

    method ReleaseTest(l: nat)
      requires Valid() && l < nrLocks && pc[current] == RelTest(l)
      modifies `pc, `holder, `acquireNr, `depth
      ensures Valid() && pc == old(pc)[current := if old(depth[current][l]) == 1 then RelNr(l) else RelDec(l)]
      ensures depth == old(depth) && Now() == Locked(System(), old(Now()))
    {
      Facts(l);
      assert acquireNr[l] != 0;             // ASSERT
      assert holder[l] == current;          // BUG
      Commit(l, if acquireNr[l] == 1 then RelNr(l) else RelDec(l), holder[l], acquireNr[l], depth[current][l]);
    }

    method ReleaseNr(l: nat)
      requires Valid() && l < nrLocks && pc[current] == RelNr(l)
      modifies `pc, `holder, `acquireNr, `depth
      ensures Valid() && pc == old(pc)[current := RelHolder(l)] && depth == SetDepth(old(depth), current, l, 0)
      ensures Now() == Locked(System(), old(Now()))
    {
      Facts(l);
      Commit(l, RelHolder(l), holder[l], 0, 0);
    }

    method ReleaseHolder(l: nat)
      requires Valid() && l < nrLocks && pc[current] == RelHolder(l)
      modifies `pc, `holder, `acquireNr, `depth
      ensures Valid() && pc == old(pc)[current := RelUp(l)] && depth == old(depth)
      ensures Now() == Locked(System(), old(Now()))
    {
      Facts(l);
      Commit(l, RelUp(l), NONE, acquireNr[l], depth[current][l]);
    }

    method ReleaseDec(l: nat)
      requires Valid() && l < nrLocks && pc[current] == RelDec(l)
      modifies `pc, `holder, `acquireNr, `depth
      ensures Valid() && pc == old(pc)[current := Home] && old(depth[current][l]) > 1
      ensures depth == SetDepth(old(depth), current, l, old(depth[current][l]) - 1)
      ensures Now() == Locked(System(), old(Now()))
    {
      Facts(l);
      MinusOne(acquireNr[l]);
      Commit(l, Home, holder[l], acquireNr[l] - 1, depth[current][l] - 1);
    }

    lemma UpKeeps(l: nat)
      requires Valid() && l < nrLocks && pc[current] == RelUp(l)
      ensures value[l] == 0
      ensures AllLocksOk(pc[current := Home], depth, owner[l := NONE], holder, acquireNr, value[l := 1])
    {
      Facts(l);
      StepKeeps(l, current, pc, Home, depth, depth[current][l], owner, NONE, holder, holder[l], acquireNr,
                acquireNr[l], value, 1);
      SameDepth(depth, current, l);
      assert holder[l := holder[l]] == holder && acquireNr[l := acquireNr[l]] == acquireNr;
    }

    /** `sema_up` within `lock_release`. */
    method ReleaseUp(l: nat)
      requires Valid() && l < nrLocks && pc[current] == RelUp(l)
      modifies `status, `readyList, `value, `waitList, `pc, `owner
      ensures Valid() && owner == old(owner)[l := NONE] && pc == old(pc)[current := Home]
      ensures Now() == Locked(System(), old(Now()))
    {
      UpKeeps(l);
      UpAndHome(l);
      owner := owner[l := NONE];
    }

    method UpAndHome(l: nat)
      requires SemasOk() && l < nrLocks && pc[current] == RelUp(l)
      modifies `status, `readyList, `value, `waitList, `pc
      ensures SemasOk() && pc == old(pc)[current := Home] && value == old(value)[l := (old(value[l]) + 1) % 256]
      ensures Now() == Locked(System(), old(Now()))
    {
      SemaUp(l);
      MoveKeeps(idle, status, pc, waitList, value, current, Home);
      pc := pc[current := Home];
    }

    // ----- runs -----

    /** The timer interrupt, which calls `schedule`, or `thread_yield`, or the loop of the idle thread. */
    method Switch(how: Choice)
      requires Valid()
      modifies `status, `readyList, `current
      ensures Valid() && Now() == Switched(System(), old(Now()), how)
    {
      ghost var before := status;
      if how == Yield {
        ThreadYield();
      } else if how == Go && current == idle {
        ThreadBlock();
      } else {
        Schedule();
      }
      SwitchKeeps(idle, before, status, pc, waitList, value);
    }

    /** `sema_down` and `sema_up` on semaphores that belong to no lock. */
    method PlainDown(s: nat)
      requires Valid() && nrLocks <= s < nrSemas && current != idle
      requires pc[current] == Home || (pc[current].Down? && pc[current].s == s)
      modifies `status, `readyList, `current, `value, `waitList, `pc
      ensures Valid() && pc == old(pc)[old(current) := if old(value[s]) > 0 then Home else Down(s, false)]
      ensures Now() == Downed(System(), old(Now()), s, false, Home)
    {
      var v := value[s];
      if v > 0 {
        PlainKeeps(current, pc, Home, depth, owner, holder, acquireNr, value, s, v - 1);
      } else {
        PlainKeeps(current, pc, Down(s, false), depth, owner, holder, acquireNr, value, s, v);
        assert value[s := v] == value;
      }
      var through := SemaDown(s, false, Home);
    }

    method PlainUp(s: nat)
      requires Valid() && nrLocks <= s < nrSemas
      modifies `status, `readyList, `value, `waitList
      ensures Valid() && Now() == Upped(System(), old(Now()), s)
    {
      assert pc[current := pc[current]] == pc;
      SemaUp(s);
    }

    /** The next step within `lock_acquire` or `lock_release`. */
    method LockStep() returns (overflow: bool)
      requires Valid() && !pc[current].Home? && !pc[current].Down?
      modifies this
      ensures Valid()
      ensures overflow <==> old(pc[current]).AcqInc? && old(acquireNr[pc[current].l]) == 0xffff_ffff
      ensures Now() == if overflow then old(Now()) else Locked(System(), old(Now()))
    {
      overflow := false;
      var p := pc[current];
      assert PlaceOk(p, nrLocks, nrSemas);
      if p.RelTest? || p.RelNr? || p.RelHolder? || p.RelUp? || p.RelDec? {
        ReleaseStep();
        return;
      }
      match p {
        case AcqRead(l) => AcquireRead(l);
        case AcqDown(l) => AcquireDown(l);
        case AcqHolder(l) => AcquireHolder(l);
        case AcqNr(l) => AcquireNr(l);
        case AcqInc(l) =>
          Facts(l);
          if acquireNr[l] == 0xffff_ffff {
            overflow := true;
          } else {
            AcquireInc(l);
          }
      }
    }

    method ReleaseStep()
      requires Valid()
      requires (pc[current].RelTest? || pc[current].RelNr? || pc[current].RelHolder? || pc[current].RelUp? ||
                pc[current].RelDec?)
      modifies this
      ensures Valid()
      ensures Now() == Locked(System(), old(Now()))
    {
      assert PlaceOk(pc[current], nrLocks, nrSemas);
      match pc[current] {
        case RelTest(l) => ReleaseTest(l);
        case RelNr(l) => ReleaseNr(l);
        case RelHolder(l) => ReleaseHolder(l);
        case RelUp(l) => ReleaseUp(l);
        case RelDec(l) => ReleaseDec(l);
      }
    }

    /** A thread that has been woken tests the value again. */
    method TryAgain(s: nat, locking: bool)
      requires Valid() && pc[current] == Down(s, locking)
      modifies this
      ensures Valid() && Sized(System(), old(Now()))
      ensures Now() == Downed(System(), old(Now()), s, locking, if locking then AcqHolder(s) else Home)
    {
      assert PlaceOk(pc[current], nrLocks, nrSemas);
      if locking {
        AcquireDown(s);
      } else {
        PlainDown(s);
      }
    }

    /** One step of the running thread, or an interrupt. */
    method Step(c: Choice) returns (overflow: bool)
      requires Valid()
      modifies this
      ensures Valid() && MovedOn(old(pc), pc, old(current)) && Sized(System(), old(Now()))
      ensures overflow <==> Wraps(System(), old(Now()), c)
      ensures Now() == if overflow then old(Now()) else Next(System(), old(Now()), c)
      ensures !overflow && !c.Timer? && !c.UpOn? && Inner(old(pc[current])) ==>
                Follows(old(pc[current]), pc[old(current)])
    {
      overflow := false;
      var p := pc[current];
      assert PlaceOk(p, nrLocks, nrSemas);
      if p.Down? {
        TryAgain(p.s, p.locking);
      } else if c.UpOn? && nrLocks <= c.s < nrSemas {
        PlainUp(c.s);
      } else if c.Timer? || current == idle {
        Switch(c);
      } else {
        overflow := Proceed(c);
      }
      NextMoves(System(), old(Now()), c);
    }

    /** The running thread goes on with its lock, or calls. */
    method Proceed(c: Choice) returns (overflow: bool)
      requires Valid() && !pc[current].Down? && current != idle
      modifies this
      ensures Valid() && Sized(System(), old(Now()))
      ensures overflow <==> old(pc[current]).AcqInc? && old(acquireNr[pc[current].l]) == 0xffff_ffff
      ensures overflow ==> Now() == old(Now())
      ensures !overflow ==>
                Now() == if old(pc[current]).Home? then Called(System(), old(Now()), c)
                         else Locked(System(), old(Now()))
    {
      overflow := false;
      assert PlaceOk(pc[current], nrLocks, nrSemas);
      if !pc[current].Home? {
        overflow := LockStep();
      } else {
        Call(c);
      }
    }

    /** A call from outside the synchronisation code; releasing a lock that is not held is not done. */
    method Call(c: Choice)
      requires Valid() && pc[current] == Home && current != idle
      modifies this
      ensures Valid()
      ensures Now() == Called(System(), old(Now()), c)
    {
      match c {
        case Acquire(l) =>
          if l < nrLocks {
            AcquireStart(l);
          }
        case Release(l) =>
          if l < nrLocks && holder[l] == current {
            Facts(l);
            ReleaseStart(l);
          }
        case DownOn(s) =>
          if nrLocks <= s < nrSemas {
            PlainDown(s);
          }
        case Yield =>
          Switch(Yield);
        case _ =>
      }
    }

    /** The boot state: the main thread runs, all others are ready; every lock is free. */
    constructor (n: nat, idle: nat, nrLocks: nat, values: seq<nat>)
      requires 0 < idle < n && forall s :: 0 <= s < |values| ==> values[s] < 256
      ensures Valid() && this.n == n && this.idle == idle && this.nrLocks == nrLocks
      ensures this.nrSemas == nrLocks + |values|
    {
      this.n, this.idle, this.nrLocks, this.nrSemas := n, idle, nrLocks, nrLocks + |values|;
      status := seq(n, t => if t == 0 then Running else Ready);
      current := 0;
      readyList := seq(n - 1, t => t + 1);
      pc := seq(n, _ => Home);
      value := seq(nrLocks, _ => 1) + values;
      waitList := seq(nrLocks + |values|, _ => []);
      holder := seq(nrLocks, _ => NONE);
      acquireNr := seq(nrLocks, _ => 0);
      owner := seq(nrLocks, _ => NONE);
      depth := seq(n, _ => seq(nrLocks, _ => 0));
      new;
      forall t | 0 < t < n ensures t in readyList {
        assert readyList[t - 1] == t;
      }
    }

    /**
     Every run: whatever happens in whatever order, the invariant holds after it, and the state is where the machine on
     values comes to.  It stops early exactly where a count would go beyond 32 bits.
     */
    method Run(choices: seq<Choice>) returns (done: nat, ghost trace: seq<View>)
      requires Valid()
      modifies this
      ensures Valid() && done <= |choices| && Goes(System(), trace, choices[..done])
      ensures trace[0] == old(Now()) && trace[done] == Now()
      ensures done < |choices| ==> Sized(System(), Now()) && Wraps(System(), Now(), choices[done])
    {
      done, trace := 0, [Now()];
      while done < |choices|
        invariant Valid() && done <= |choices| && Goes(System(), trace, choices[..done])
        invariant trace[0] == old(Now()) && trace[done] == Now()
      {
        ghost var before := Now();
        var overflow := Step(choices[done]);
        if overflow {
          return;
        }
        GoesOn(System(), trace, choices, done, Now());
        trace := trace + [Now()];
        done := done + 1;
      }
    }

    // ----- what the invariant means -----

    /** At most one thread is in the critical section of a lock. */
    lemma MutualExclusion(l: nat, t: nat, u: nat)
      requires Valid() && l < nrLocks && t < n && u < n && InSection(pc, depth, t, l) && InSection(pc, depth, u, l)
      ensures t == u
    {
      assert LockOk(l, pc, depth, owner[l], holder[l], acquireNr[l], value[l]);
    }

    /** A thread that finds itself as the holder has the lock; and while it is nested `d` deep the lock says so. */
    lemma HolderHasLock(l: nat, t: nat)
      requires Valid() && l < nrLocks && t < n
      ensures holder[l] == t ==> InSection(pc, depth, t, l)
      ensures depth[t][l] > 0 ==> holder[l] == t && acquireNr[l] == depth[t][l]
    {
      assert LockOk(l, pc, depth, owner[l], holder[l], acquireNr[l], value[l]);
      assert InSection(pc, depth, t, l) <==> t == owner[l];
    }

    /** A thread is on the ready list or on one wait list, not on two lists. */
    lemma OnOneList(t: nat, s: nat, r: nat)
      requires Valid() && t < n && s < nrSemas && r < nrSemas && t in waitList[s]
      ensures t !in readyList && (t in waitList[r] ==> r == s)
    {
      assert WaitsFor(status, pc, t, s) && (t in waitList[r] <==> WaitsFor(status, pc, t, r));
    }

    /** If a semaphore could be passed while threads wait for it, one of them has been woken and is ready or running. */
    lemma SomeoneIsOnTheWay(s: nat) returns (t: nat)
      requires Valid() && s < nrSemas && waitList[s] != [] && value[s] > 0
      ensures t < n && pc[t].Down? && pc[t].s == s && (t in readyList || t == current)
    {
      assert |Woken(status, pc, s)| > 0;
      t :| t in Woken(status, pc, s);
    }
  }

  // ----- the machine as a value -----

  /** What threads share, and where each is; which thread is ready or blocked follows from the lists. */
  datatype View = View(ready: seq<nat>, cur: nat, pc: seq<Pc>, value: seq<nat>, waits: seq<seq<nat>>,
                       holder: seq<int>, nr: seq<nat>)

  /** Sizes of a system: the idle thread, how many locks, how many semaphores. */
  datatype Setup = Setup(idle: nat, nrLocks: nat, nrSemas: nat)

  predicate Sized(k: Setup, v: View) {
    v.cur < |v.pc| && k.nrLocks <= k.nrSemas == |v.value| == |v.waits| && k.nrLocks == |v.holder| == |v.nr| &&
    PlaceOk(v.pc[v.cur], k.nrLocks, k.nrSemas)
  }

  /** The running thread goes to place `p`. */
  function At(v: View, p: Pc): View
    requires v.cur < |v.pc|
  {
    v.(pc := v.pc[v.cur := p])
  }

  /** The first thread of the queue runs, or the idle thread. */
  function Picked(k: Setup, v: View, queue: seq<nat>): View {
    if queue == [] then v.(cur := k.idle, ready := []) else v.(cur := queue[0], ready := queue[1..])
  }

  /** Through, or to the end of the wait list. */
  function Downed(k: Setup, v: View, s: nat, locking: bool, after: Pc): View
    requires Sized(k, v) && s < k.nrSemas
  {
    if v.value[s] > 0 then At(v, after).(value := v.value[s := v.value[s] - 1])
    else Picked(k, At(v, Down(s, locking)).(waits := v.waits[s := v.waits[s] + [v.cur]]), v.ready)
  }

  /** The first waiting thread goes to the front of the ready list. */
  function Upped(k: Setup, v: View, s: nat): View
    requires Sized(k, v) && s < k.nrSemas
  {
    var v1 := v.(value := v.value[s := (v.value[s] + 1) % 256]);
    if v.waits[s] == [] then v1 else v1.(waits := v.waits[s := v.waits[s][1..]], ready := [v.waits[s][0]] + v.ready)
  }

  /** One statement of `lock_acquire` or `lock_release`. */
  function Locked(k: Setup, v: View): View
    requires Sized(k, v) && !v.pc[v.cur].Home? && !v.pc[v.cur].Down?
  {
    match v.pc[v.cur]
    case AcqRead(l) => At(v, if v.holder[l] == v.cur then AcqInc(l) else AcqDown(l))
    case AcqDown(l) => Downed(k, v, l, true, AcqHolder(l))
    case AcqHolder(l) => At(v, AcqNr(l)).(holder := v.holder[l := v.cur])
    case AcqNr(l) => At(v, Home).(nr := v.nr[l := 1])
    case AcqInc(l) => At(v, Home).(nr := v.nr[l := (v.nr[l] + 1) % 0x1_0000_0000])
    case RelTest(l) => At(v, if v.nr[l] == 1 then RelNr(l) else RelDec(l))
    case RelNr(l) => At(v, RelHolder(l)).(nr := v.nr[l := 0])
    case RelHolder(l) => At(v, RelUp(l)).(holder := v.holder[l := NONE])
    case RelUp(l) => At(Upped(k, v, l), Home)
    case RelDec(l) => At(v, Home).(nr := v.nr[l := (v.nr[l] + 0xffff_ffff) % 0x1_0000_0000])
  }

  lemma MinusOne(x: nat)
    requires 0 < x < 0x1_0000_0000
    ensures (x + 0xffff_ffff) % 0x1_0000_0000 == x - 1
  {
  }

  /** The timer interrupt and `thread_yield` put the running thread at the end; the idle thread blocks by itself. */
  function Switched(k: Setup, v: View, c: Choice): View {
    Picked(k, v, if c.Go? && v.cur == k.idle then v.ready else v.ready + [v.cur])
  }

  function Called(k: Setup, v: View, c: Choice): View
    requires Sized(k, v)
  {
    match c
    case Acquire(l) => if l < k.nrLocks then At(v, AcqRead(l)) else v
    case Release(l) => if l < k.nrLocks && v.holder[l] == v.cur then At(v, RelTest(l)) else v
    case DownOn(s) => if k.nrLocks <= s < k.nrSemas then Downed(k, v, s, false, Home) else v
    case Yield => Switched(k, v, Yield)
    case _ => v
  }

  /** One step: a thread that comes out of the wait goes on there; otherwise an interrupt, or the running thread. */
  function Next(k: Setup, v: View, c: Choice): View
    requires Sized(k, v)
  {
    var p := v.pc[v.cur];
    if p.Down? then Downed(k, v, p.s, p.locking, if p.locking then AcqHolder(p.s) else Home)
    else if c.UpOn? && k.nrLocks <= c.s < k.nrSemas then Upped(k, v, c.s)
    else if c.Timer? || v.cur == k.idle then Switched(k, v, c)
    else if !p.Home? then Locked(k, v)
    else Called(k, v, c)
  }

  /** The step would take the count of a lock beyond 32 bits. */
  predicate Wraps(k: Setup, v: View, c: Choice)
    requires Sized(k, v)
  {
    v.cur != k.idle && !c.Timer? && !(c.UpOn? && k.nrLocks <= c.s < k.nrSemas) && v.pc[v.cur].AcqInc? &&
    v.nr[v.pc[v.cur].l] == 0xffff_ffff
  }

  /** One step that no count keeps from being made. */
  predicate Advances(k: Setup, v: View, c: Choice, v': View) {
    Sized(k, v) && !Wraps(k, v, c) && v' == Next(k, v, c)
  }

  lemma GoesOn(k: Setup, trace: seq<View>, choices: seq<Choice>, i: nat, v: View)
    requires i < |choices| && Goes(k, trace, choices[..i]) && Advances(k, trace[i], choices[i], v)
    ensures Goes(k, trace + [v], choices[..i + 1])
  {
    var trace' := trace + [v];
    forall j | 0 <= j <= i ensures Advances(k, trace'[j], choices[..i + 1][j], trace'[j + 1]) {
      assert j < i ==> trace'[j] == trace[j] && trace'[j + 1] == trace[j + 1] && choices[..i][j] == choices[j];
    }
  }

  /** The stages of a run. */
  predicate Goes(k: Setup, trace: seq<View>, choices: seq<Choice>) {
    |trace| == |choices| + 1 &&
    forall i :: 0 <= i < |choices| ==> Advances(k, trace[i], choices[i], trace[i + 1])
  }

  /** Only the thread that ran has moved. */
  predicate MovedOn(pc: seq<Pc>, pc': seq<Pc>, t: nat) {
    |pc'| == |pc| && t < |pc| && forall u :: 0 <= u < |pc| && u != t ==> pc'[u] == pc[u]
  }

  /** Places inside `lock_acquire` and `lock_release`, or in the wait for a lock. */
  predicate Inner(p: Pc) { !p.Home? && (p.Down? ==> p.locking) }

  /** The order of the statements of `lock_acquire` and `lock_release`. */
  predicate Follows(p: Pc, p': Pc) {
    match p
    case Home => true
    case AcqRead(l) => p' == AcqDown(l) || p' == AcqInc(l)
    case AcqDown(l) => p' == AcqHolder(l) || p' == Down(l, true)
    case Down(s, locking) => p' == Down(s, locking) || p' == if locking then AcqHolder(s) else Home
    case AcqHolder(l) => p' == AcqNr(l)
    case RelTest(l) => p' == RelNr(l) || p' == RelDec(l)
    case RelNr(l) => p' == RelHolder(l)
    case RelHolder(l) => p' == RelUp(l)
    case _ => p' == Home
  }

  /** Only the running thread moves, in the order of the statements. */
  lemma NextMoves(k: Setup, v: View, c: Choice)
    requires Sized(k, v)
    ensures MovedOn(v.pc, Next(k, v, c).pc, v.cur)
    ensures !c.Timer? && !c.UpOn? && v.cur != k.idle && Inner(v.pc[v.cur]) ==>
              Follows(v.pc[v.cur], Next(k, v, c).pc[v.cur])
  {
  }

  predicate PlaceOk(p: Pc, nrLocks: nat, nrSemas: nat) {
    match p
    case Home => true
    case Down(s, locking) => s < nrSemas && (locking <==> s < nrLocks)
    case _ => p.l < nrLocks
  }

  /** What may happen next; a thread that is inside the synchronisation code goes on there. */
  datatype Choice = Go | Timer | Yield | Acquire(l: nat) | Release(l: nat) | DownOn(s: nat) | UpOn(s: nat)

  lemma PlainKeeps(t: nat, pc: seq<Pc>, p: Pc, depth: seq<seq<nat>>, owner: seq<int>, holder: seq<int>, nr: seq<nat>,
                   value: seq<nat>, s: nat, v: nat)
    requires AllLocksOk(pc, depth, owner, holder, nr, value) && t < |pc| && |owner| <= s < |value|
    requires forall l :: 0 <= l < |owner| ==> !Inside(pc[t], l) && !Inside(p, l) && !Outside(p, l)
    ensures AllLocksOk(pc[t := p], depth, owner, holder, nr, value[s := v])
  {
    forall l | 0 <= l < |owner| ensures LockOk(l, pc[t := p], depth, owner[l], holder[l], nr[l], value[l]) {
      PlainKeepsLock(l, t, pc, p, depth, owner[l], holder[l], nr[l], value[l]);
    }
  }

  lemma PlainKeepsLock(l: nat, t: nat, pc: seq<Pc>, p: Pc, depth: seq<seq<nat>>, owner: int, holder: int, nr: nat,
                       value: nat)
    requires LockOk(l, pc, depth, owner, holder, nr, value) && t < |pc| && !Inside(pc[t], l) && !Inside(p, l)
    requires !Outside(p, l)
    ensures LockOk(l, pc[t := p], depth, owner, holder, nr, value)
  {
    var pc' := pc[t := p];
    forall u | 0 <= u < |pc| ensures InSection(pc', depth, u, l) <==> InSection(pc, depth, u, l) {
    }
    assert owner != NONE ==> FieldsOk(l, owner, pc'[owner], depth[owner][l], holder, nr) && !Outside(pc'[owner], l);
  }

  lemma SameDepth(depth: seq<seq<nat>>, t: nat, l: nat)
    requires t < |depth| && l < |depth[t]|
    ensures SetDepth(depth, t, l, depth[t][l]) == depth
  {
    assert depth[t][l := depth[t][l]] == depth[t];
  }
}
