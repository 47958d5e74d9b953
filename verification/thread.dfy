/** The thread runtime's sequential logic: `spawn` creates a join cell shared
    by the handle and the worker closure; the worker stores its result in the
    cell before it exits; `wait`/`join` ask the kernel to join the thread and
    then take the value out of the cell. The kernel's `thread_create` and
    `thread_join` answers are inputs. */
module Thread {
  import opened MachineInts
  import opened Wrappers
  import Syscalls

  type ThreadID = u64

  datatype ThreadingErr = Fail

  type ThreadingResult<T> = Result<T, ThreadingErr>

  /** The kernel's answer to `thread_join(id, timeout, ..)`. */
  type KernelJoin = (ThreadID, i64) -> Syscalls.SysResult<u64>

  /** The timeout `join` passes: wait without limit. */
  const NO_TIMEOUT: i64 := -1

  /** The runtime objects alive in the process: the join cells
      (`Arc<JoinInner<T>>`, by identity, holding `Option<T>`) and the boxed
      worker closures. `next` is an identity never used so far. */
  datatype Runtime<T> = Runtime(cells: map<nat, Option<T>>, boxes: set<nat>, next: nat)

  /** Every identity in use is below `next`. */
  predicate Wf<T>(rt: Runtime<T>) {
    (forall c :: c in rt.cells ==> c < rt.next) && (forall b :: b in rt.boxes ==> b < rt.next)
  }

  /** `JoinHandle`: the kernel thread id, the handle's reference to the join
      cell and the boxed closure it reclaims on drop. */
  datatype JoinHandle = JoinHandle(id: ThreadID, inner: nat, callback: nat)

  /** The closure `main` runs on the new thread; it holds the other reference
      to the join cell. */
  datatype Worker = Worker(packet: nat)

  datatype Spawned = Spawned(handle: JoinHandle, worker: Worker)

  /** `spawn(f)`, given the kernel's answer to `thread_create`. A new cell
      holding `None` is shared by handle and worker; on failure the boxed
      closure and the cell are released again, so nothing is left behind. */
  function Spawn<T>(rt: Runtime<T>, created: Syscalls.SysResult<ThreadID>): (r: (Runtime<T>, ThreadingResult<Spawned>))
    requires Wf(rt)
    ensures Wf(r.0)
    ensures r.1.Ok? <==> created.Ok?
    ensures created.Err? ==> r == (rt, Err(Fail))
    ensures r.1.Ok? ==>
      var s := r.1.value;
      && s.handle.id == created.value
      && s.handle.inner == s.worker.packet
      && s.handle.inner !in rt.cells
      && r.0.cells == rt.cells[s.handle.inner := None]
      && s.handle.callback !in rt.boxes
      && r.0.boxes == rt.boxes + {s.handle.callback}
  {
    var cell := rt.next;
    var box := rt.next + 1;
    match created
    case Err(_) => (rt, Err(Fail))
    case Ok(id) =>
      var rt' := Runtime(rt.cells[cell := None], rt.boxes + {box}, rt.next + 2);
      (rt', Ok(Spawned(JoinHandle(id, cell, box), Worker(cell))))
  }

  /** The worker thread's run: `f()` returned `result`, which is stored in the
      shared cell; `thread_exit` follows and never returns, so the state
      returned is the one the thread exits with. */
  function RunWorker<T>(rt: Runtime<T>, w: Worker, result: T): (rt': Runtime<T>)
    requires w.packet in rt.cells
    ensures rt'.cells.Keys == rt.cells.Keys
    ensures rt'.cells[w.packet] == Some(result)
    ensures forall c :: c in rt.cells && c != w.packet ==> rt'.cells[c] == rt.cells[c]
    ensures rt'.boxes == rt.boxes && rt'.next == rt.next
  {
    rt.(cells := rt.cells[w.packet := Some(result)])
  }

  /** `JoinInner::receive`: takes the value out of the cell, leaving `None`. */
  function Receive<T>(rt: Runtime<T>, cell: nat): (r: (Runtime<T>, ThreadingResult<T>))
    requires cell in rt.cells
    ensures r.0.cells == rt.cells[cell := None]
    ensures r.0.boxes == rt.boxes && r.0.next == rt.next
    ensures r.1.Ok? <==> rt.cells[cell].Some?
    ensures r.1.Ok? ==> r.1.value == rt.cells[cell].value
  {
    var rt' := rt.(cells := rt.cells[cell := None]);
    match rt.cells[cell]
    case Some(v) => (rt', Ok(v))
    case None => (rt', Err(Fail))
  }

  /** `JoinHandle::wait_for(timeout)`. A failed join leaves the cell alone;
      after a successful join the answer carries the value or is an error,
      never `Ok(None)`. */
  function WaitFor<T>(rt: Runtime<T>, h: JoinHandle, timeout: i64, join: KernelJoin): (r: (Runtime<T>, ThreadingResult<Option<T>>))
    requires h.inner in rt.cells
    ensures join(h.id, timeout).Err? ==> r == (rt, Err(Fail))
    ensures join(h.id, timeout).Ok? ==> r.0 == Receive(rt, h.inner).0
    ensures r.1 != Ok(None)
    ensures r.1.Ok? <==> join(h.id, timeout).Ok? && rt.cells[h.inner].Some?
    ensures r.1.Ok? ==> r.1.value == Some(rt.cells[h.inner].value)
  {
    match join(h.id, timeout)
    case Err(_) => (rt, Err(Fail))
    case Ok(_) =>
      var (rt', got) := Receive(rt, h.inner);
      (rt', match got case Ok(v) => Ok(Some(v)) case Err(e) => Err(e))
  }

  /** `JoinHandle::join`: waits without limit and requires a value. */
  function Join<T>(rt: Runtime<T>, h: JoinHandle, join: KernelJoin): (r: (Runtime<T>, ThreadingResult<T>))
    requires h.inner in rt.cells
    ensures r.0 == WaitFor(rt, h, NO_TIMEOUT, join).0
    ensures r.1.Ok? <==> WaitFor(rt, h, NO_TIMEOUT, join).1.Ok?
    ensures r.1.Ok? ==> WaitFor(rt, h, NO_TIMEOUT, join).1 == Ok(Some(r.1.value))
    ensures r.1.Ok? <==> join(h.id, NO_TIMEOUT).Ok? && rt.cells[h.inner].Some?
    ensures r.1.Ok? ==> r.1.value == rt.cells[h.inner].value
  {
    var (rt', waited) := WaitFor(rt, h, NO_TIMEOUT, join);
    (rt', match waited
          case Ok(Some(v)) => Ok(v)
          case Ok(None) => Err(Fail)
          case Err(e) => Err(e))
  }

  /** `JoinHandle::wait(timeout)`, with `timeout.as_millis()` given; the
      milliseconds are passed on cast `as i64`. */
  function Wait<T>(rt: Runtime<T>, h: JoinHandle, millis: u128, join: KernelJoin): (r: (Runtime<T>, ThreadingResult<Option<T>>))
    requires h.inner in rt.cells
    ensures millis < TWO_64 / 2 ==> r == WaitFor(rt, h, millis, join)
    ensures r.1.Ok? ==> join(h.id, U128AsI64(millis)).Ok? && r.1.value.Some?
  {
    WaitFor(rt, h, U128AsI64(millis), join)
  }

  /** The `as i64` cast wraps: a timeout of 2^64 - 1 milliseconds becomes the
      unlimited timeout `join` uses. */
  lemma HugeWaitIsUnlimited<T>(rt: Runtime<T>, h: JoinHandle, join: KernelJoin)
    requires h.inner in rt.cells
    ensures Wait(rt, h, TWO_64 - 1, join) == WaitFor(rt, h, NO_TIMEOUT, join)
  {
    assert U128AsI64(TWO_64 - 1) == NO_TIMEOUT;
  }

  /** Spawning, letting the worker finish with `v` and joining yields `v`;
      the cell is then empty, so joining again fails. */
  lemma SpawnJoinRoundTrip<T>(rt: Runtime<T>, created: Syscalls.SysResult<ThreadID>, v: T, join: KernelJoin)
    requires Wf(rt) && created.Ok?
    requires join(created.value, NO_TIMEOUT).Ok?
    ensures
      var (rt1, spawned) := Spawn(rt, created);
      var h := spawned.value.handle;
      var rt2 := RunWorker(rt1, spawned.value.worker, v);
      var (rt3, first) := Join(rt2, h, join);
      && first == Ok(v)
      && rt3.cells[h.inner] == None
      && Join(rt3, h, join).1 == Err(Fail)
  {
  }

  /** A `wait` that times out (the kernel join fails) leaves the worker's cell
      alone; once the worker has finished, `join` still yields its value. */
  lemma TimeoutThenJoin<T>(rt: Runtime<T>, created: Syscalls.SysResult<ThreadID>, millis: u128, v: T, join: KernelJoin)
    requires Wf(rt) && created.Ok?
    requires join(created.value, U128AsI64(millis)).Err?
    requires join(created.value, NO_TIMEOUT).Ok?
    ensures
      var (rt1, spawned) := Spawn(rt, created);
      var h := spawned.value.handle;
      var (rt2, early) := Wait(rt1, h, millis, join);
      && early == Err(Fail)
      && rt2 == rt1
      && Join(RunWorker(rt2, spawned.value.worker, v), h, join).1 == Ok(v)
  {
  }
}
