/** `EnsureInitAlloc`, the global allocator: a once-cell around a first-fit
    heap that is set up on first use from one region obtained with
    `request_heap`. The kernel's `request_heap` and the heap library
    (`linked_list_allocator`) are inputs: the library is an oracle over an
    opaque heap state `H`. */
module Alloc {
  import opened MachineInts
  import opened Wrappers

  /** Bytes requested from the kernel when the allocator is first touched. */
  const START_HEAP_SIZE: usize := 1024 * 500

  const NULL: usize := 0

  type NonNull = p: usize | p != NULL witness 1

  datatype Layout = Layout(size: usize, align: usize)

  /** The operations of the heap library the allocator uses: `Heap::init`,
      `allocate_first_fit` (which yields a non-null pointer or an error) and
      `deallocate`. */
  datatype HeapLib<!H> = HeapLib(
    init: (NonNull, usize) -> H,
    allocateFirstFit: (H, Layout) -> (Result<NonNull, ()>, H),
    deallocate: (H, NonNull, Layout) -> H)

  /** The kernel's answer to `request_heap(size)`: a base address, or null. */
  type RequestHeap = usize -> usize

  /** The once-cell: not yet initialised, or holding the heap. */
  datatype AllocState<H> = Uninit | Ready(heap: H)

  /** One call into the allocator: the sizes it asked the kernel for, in
      order, and how it ended: with a new state and a value, or panicking. */
  datatype Call<S, R> = Call(requests: seq<usize>, outcome: Outcome<(S, R)>)

  /** `EnsureInitAlloc::init` as `alloc` and `dealloc` use it: on an
      uninitialised allocator, asks the kernel for `START_HEAP_SIZE` bytes and
      panics if it gets null; on a ready one, does nothing. */
  function Init<H>(s: AllocState<H>, requestHeap: RequestHeap, lib: HeapLib<H>): (c: Call<H, ()>)
    ensures s.Ready? ==> c == Call([], Returned((s.heap, ())))
    ensures s.Uninit? ==> c.requests == [START_HEAP_SIZE]
    ensures s.Uninit? ==> (c.outcome.Panicked? <==> requestHeap(START_HEAP_SIZE) == NULL)
    ensures s.Uninit? && c.outcome.Returned? ==>
      c.outcome.value.0 == lib.init(requestHeap(START_HEAP_SIZE), START_HEAP_SIZE)
  {
    match s
    case Ready(heap) => Call([], Returned((heap, ())))
    case Uninit =>
      var base := requestHeap(START_HEAP_SIZE);
      if base == NULL then Call([START_HEAP_SIZE], Panicked)
      else Call([START_HEAP_SIZE], Returned((lib.init(base, START_HEAP_SIZE), ())))
  }

  /** `GlobalAlloc::alloc`: initialises if needed, then returns the first-fit
      pointer, or null when the heap library reports an error. */
  function Alloc<H>(s: AllocState<H>, layout: Layout, requestHeap: RequestHeap, lib: HeapLib<H>): (c: Call<H, usize>)
    ensures c.requests == Init(s, requestHeap, lib).requests
    ensures c.outcome.Panicked? <==> Init(s, requestHeap, lib).outcome.Panicked?
    ensures s.Ready? ==> c.requests == [] && c.outcome.Returned?
    ensures c.outcome.Returned? ==>
      var fit := lib.allocateFirstFit(Init(s, requestHeap, lib).outcome.value.0, layout);
      && c.outcome.value.0 == fit.1
      && (c.outcome.value.1 == NULL <==> fit.0.Err?)
      && (fit.0.Ok? ==> c.outcome.value.1 == fit.0.value)
  {
    var init := Init(s, requestHeap, lib);
    match init.outcome
    case Panicked => Call(init.requests, Panicked)
    case Returned((heap, _)) =>
      var (fit, heap') := lib.allocateFirstFit(heap, layout);
      var ptr := match fit case Ok(p) => p case Err(_) => NULL;
      Call(init.requests, Returned((heap', ptr)))
  }

  /** `GlobalAlloc::dealloc`: initialises if needed, then hands a non-null
      pointer back to the heap library; a null pointer changes nothing. */
  function Dealloc<H>(s: AllocState<H>, ptr: usize, layout: Layout, requestHeap: RequestHeap, lib: HeapLib<H>): (c: Call<H, ()>)
    ensures c.requests == Init(s, requestHeap, lib).requests
    ensures c.outcome.Panicked? <==> Init(s, requestHeap, lib).outcome.Panicked?
    ensures s.Ready? ==> c.requests == [] && c.outcome.Returned?
    ensures c.outcome.Returned? && ptr == NULL ==>
      c.outcome.value.0 == Init(s, requestHeap, lib).outcome.value.0
    ensures c.outcome.Returned? && ptr != NULL ==>
      c.outcome.value.0 == lib.deallocate(Init(s, requestHeap, lib).outcome.value.0, ptr, layout)
  {
    var init := Init(s, requestHeap, lib);
    match init.outcome
    case Panicked => Call(init.requests, Panicked)
    case Returned((heap, _)) =>
      if ptr == NULL then Call(init.requests, Returned((heap, ())))
      else Call(init.requests, Returned((lib.deallocate(heap, ptr, layout), ())))
  }

  /** A call a program makes on the global allocator. */
  datatype Op = AllocOp(layout: Layout) | DeallocOp(ptr: usize, layout: Layout)

  /** One allocator call; a `dealloc` yields null as its value. */
  function Step<H>(s: AllocState<H>, op: Op, requestHeap: RequestHeap, lib: HeapLib<H>): Call<H, usize> {
    match op
    case AllocOp(layout) => Alloc(s, layout, requestHeap, lib)
    case DeallocOp(ptr, layout) =>
      var c := Dealloc(s, ptr, layout, requestHeap, lib);
      match c.outcome
      case Panicked => Call(c.requests, Panicked)
      case Returned((heap, _)) => Call(c.requests, Returned((heap, NULL)))
  }

  /** A program's allocator calls, in order, until one panics. */
  function Run<H>(s: AllocState<H>, ops: seq<Op>, requestHeap: RequestHeap, lib: HeapLib<H>): Call<AllocState<H>, seq<usize>>
    decreases |ops|
  {
    if |ops| == 0 then Call([], Returned((s, [])))
    else
      var c := Step(s, ops[0], requestHeap, lib);
      match c.outcome
      case Panicked => Call(c.requests, Panicked)
      case Returned((heap, v)) =>
        var rest := Run(Ready(heap), ops[1..], requestHeap, lib);
        match rest.outcome
        case Panicked => Call(c.requests + rest.requests, Panicked)
        case Returned((s', vs)) => Call(c.requests + rest.requests, Returned((s', [v] + vs)))
  }

  /** Over any sequence of calls the kernel is asked for memory at most once,
      for `START_HEAP_SIZE` bytes, and only if the allocator started
      uninitialised; once initialised, nothing panics. */
  lemma {:induction false} RunRequestsAtMostOnce<H>(s: AllocState<H>, ops: seq<Op>, requestHeap: RequestHeap, lib: HeapLib<H>)
    ensures |Run(s, ops, requestHeap, lib).requests| <= (if s.Uninit? then 1 else 0)
    ensures forall k :: 0 <= k < |Run(s, ops, requestHeap, lib).requests| ==>
      Run(s, ops, requestHeap, lib).requests[k] == START_HEAP_SIZE
    ensures s.Ready? ==> Run(s, ops, requestHeap, lib).outcome.Returned?
    decreases |ops|
  {
    if |ops| > 0 {
      var c := Step(s, ops[0], requestHeap, lib);
      if c.outcome.Returned? {
        RunRequestsAtMostOnce(Ready(c.outcome.value.0), ops[1..], requestHeap, lib);
      }
    }
  }

  /** If the kernel refuses the first region, the first allocator call
      panics, whatever it is, and the allocator never becomes ready. */
  lemma NullFirstGrantAborts<H>(ops: seq<Op>, requestHeap: RequestHeap, lib: HeapLib<H>)
    requires |ops| > 0
    requires requestHeap(START_HEAP_SIZE) == NULL
    ensures Run(Uninit, ops, requestHeap, lib) == Call([START_HEAP_SIZE], Panicked)
  {
  }
}
