/** The syscall ABI's plain data: the dispatch numbers, the `OpenOptions` and
    `UnlinkOptions` flag sets, and the decoding of the status word a syscall
    returns. The trap itself (`syscall!`) is not part of this model. */
module Syscalls {
  import opened MachineInts
  import opened Wrappers

  // ------------------------------------------------------------ dispatch

  datatype SysCallDispatch =
    | Open | Close | Read | Write | Yield | Exit | Kill
    | Mmap | Munmap | Clone | Wait | Machine | GetPid

  /** The variants in declaration order. */
  const DECLARED: seq<SysCallDispatch> :=
    [Open, Close, Read, Write, Yield, Exit, Kill, Mmap, Munmap, Clone, Wait, Machine, GetPid]

  /** The `#[repr(u64)]` discriminant of each call. */
  function Discriminant(c: SysCallDispatch): (n: u64)
    ensures n < |DECLARED| && DECLARED[n] == c
  {
    match c
    case Open => 0
    case Close => 1
    case Read => 2
    case Write => 3
    case Yield => 4
    case Exit => 5
    case Kill => 6
    case Mmap => 7
    case Munmap => 8
    case Clone => 9
    case Wait => 10
    case Machine => 11
    case GetPid => 12
  }

  /** The discriminants are distinct and are exactly 0..12, following the
      declaration order. */
  lemma DiscriminantsAreDense()
    ensures |DECLARED| == 13
    ensures forall c, d :: Discriminant(c) == Discriminant(d) ==> c == d
    ensures forall n :: 0 <= n < |DECLARED| ==> Discriminant(DECLARED[n]) == n
  {
  }

  // ------------------------------------------------------------- flag sets

  /** `flag` is set in `after`, and every other bit is as in `before`. */
  predicate SetsOnly(before: bv32, after: bv32, flag: bv32) {
    after & flag == flag && after & !flag == before & !flag
  }

  const READ: bv32 := 1 << 0
  const WRITE: bv32 := 1 << 1
  const APPEND: bv32 := 1 << 2
  const TRUNCATE: bv32 := 1 << 3
  const CREATE: bv32 := 1 << 4
  const CREATE_DIR: bv32 := 1 << 5
  const CREATE_ALL: bv32 := 1 << 6
  const CREATE_LINK: bv32 := 1 << 7
  const NO_FOLLOW_LINK: bv32 := 1 << 8

  /** The `OpenOptions` constants in declaration order. */
  const OPEN_FLAGS: seq<bv32> :=
    [READ, WRITE, APPEND, TRUNCATE, CREATE, CREATE_DIR, CREATE_ALL, CREATE_LINK, NO_FOLLOW_LINK]

  /** The `k`-th constant is bit `k`, so the constants are single, distinct bits. */
  lemma OpenFlagsAreDistinctBits()
    ensures forall k :: 0 <= k < |OPEN_FLAGS| ==> OPEN_FLAGS[k] == 1 << k
    ensures forall j, k :: 0 <= j < k < |OPEN_FLAGS| ==> OPEN_FLAGS[j] & OPEN_FLAGS[k] == 0
  {
    forall k | 0 <= k < |OPEN_FLAGS| ensures OPEN_FLAGS[k] == 1 << k {
      if k == 0 {} else if k == 1 {} else if k == 2 {} else if k == 3 {}
      else if k == 4 {} else if k == 5 {} else if k == 6 {} else if k == 7 {}
    }
  }

  datatype OpenOptions = OpenOptions(bits: bv32)

  /** `OpenOptions::default()`. */
  function DefaultOpenOptions(): (o: OpenOptions)
    ensures SetsOnly(0, o.bits, READ)
  {
    OpenOptions(READ)
  }

  /** The five `OpenOptions::with_*` builders. */
  datatype OpenBuilder = WithRead | WithWrite | WithNoFollowSymlink | WithTruncate | WithAppend

  /** The flag each builder adds. */
  function BuilderFlag(b: OpenBuilder): (flag: bv32)
    ensures flag in OPEN_FLAGS
  {
    match b
    case WithRead => READ
    case WithWrite => WRITE
    case WithNoFollowSymlink => NO_FOLLOW_LINK
    case WithTruncate => TRUNCATE
    case WithAppend => APPEND
  }

  /** `o.with_read()`, `o.with_write()`, ...: `self | Self::FLAG`. */
  function Build(o: OpenOptions, b: OpenBuilder): (r: OpenOptions)
    ensures SetsOnly(o.bits, r.bits, BuilderFlag(b))
  {
    OpenOptions(o.bits | BuilderFlag(b))
  }

  /** Applying a builder twice is applying it once. */
  lemma BuildIdempotent(o: OpenOptions, b: OpenBuilder)
    ensures Build(Build(o, b), b) == Build(o, b)
  {
  }

  /** The order in which builders are applied does not matter. */
  lemma BuildCommutes(o: OpenOptions, b1: OpenBuilder, b2: OpenBuilder)
    ensures Build(Build(o, b1), b2) == Build(Build(o, b2), b1)
  {
  }

  const FORCE: bv32 := 1 << 0
  const RECURSIVE: bv32 := 1 << 1
  const NO_PRESERVE_ROOT: bv32 := 1 << 2

  datatype UnlinkOptions = UnlinkOptions(bits: bv32)

  /** `UnlinkOptions::default()`: no flag set. */
  function DefaultUnlinkOptions(): (o: UnlinkOptions)
    ensures o.bits == 0
    ensures o.bits & (FORCE | RECURSIVE | NO_PRESERVE_ROOT) == 0
  {
    UnlinkOptions(0)
  }

  /** `UnlinkOptions::with_force`. */
  function WithForce(o: UnlinkOptions): (r: UnlinkOptions)
    ensures SetsOnly(o.bits, r.bits, FORCE)
  {
    UnlinkOptions(o.bits | FORCE)
  }

  /** `UnlinkOptions::with_rmdir`: sets `RECURSIVE`. */
  function WithRmdir(o: UnlinkOptions): (r: UnlinkOptions)
    ensures SetsOnly(o.bits, r.bits, RECURSIVE)
  {
    UnlinkOptions(o.bits | RECURSIVE)
  }

  // -------------------------------------------------------- result codes

  datatype SysResultCode = Fail | Success

  /** A syscall's primary word, or the code it failed with. */
  type SysResult<T> = Result<T, SysResultCode>

  /** The `#[repr(i64)]` value of each code. */
  function Code(c: SysResultCode): (v: i64)
    ensures v == 0 <==> c == Success
  {
    match c
    case Fail => -1
    case Success => 0
  }

  /** `SysResultCode::try_from(v)`: the code whose value is `v`, or `v` itself
      when no code has that value. */
  function TryFrom(v: i64): (r: Result<SysResultCode, i64>)
    ensures r.Ok? ==> Code(r.value) == v
    ensures r.Err? ==> r.error == v && forall c :: Code(c) != v
  {
    if v == 0 then Ok(Success)
    else if v == -1 then Ok(Fail)
    else Err(v)
  }

  /** `try_from` inverts the `repr(i64)` encoding. */
  lemma TryFromCode(c: SysResultCode)
    ensures TryFrom(Code(c)) == Ok(c)
  {
  }

  /** `as_res(r1, r2)`: the status word `r2` decides; a failure is always
      reported as `Fail`, never `Success`, whatever `r1` is. */
  function AsRes(r1: u64, r2: i64): (r: SysResult<u64>)
    ensures r2 == Code(Success) ==> r == Ok(r1)
    ensures r2 != Code(Success) ==> r == Err(Fail)
  {
    if r2 != Code(Success) then
      Err(match TryFrom(r2) case Ok(c) => c case Err(_) => Fail)
    else
      Ok(r1)
  }

  /** A syscall succeeds exactly when its status word decodes as `Success`. */
  lemma AsResOkIffSuccess(r1: u64, r2: i64)
    ensures AsRes(r1, r2).Ok? <==> TryFrom(r2) == Ok(Success)
  {
  }
}
