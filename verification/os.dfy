/** The process-argument and environment blobs handed to `_start`: their
    validation and the byte-level splitting the accessors do. A blob is a
    pointer and a length; since memory is not modelled, each value also
    carries the bytes found at `[at, at + len)`. */
module Os {
  import opened MachineInts
  import opened Wrappers
  import opened Rfc3629
  import opened Slices

  const NULL: usize := 0
  /** `b' '`, separating process arguments. */
  const SPACE: u8 := 0x20
  /** `b'\0'`, separating environment entries. */
  const NUL: u8 := 0x00
  /** `b'='`, separating a variable's name from its value. */
  const EQUALS: u8 := 0x3D
  /** `b';'`, separating the items of a list-valued variable. */
  const SEMICOLON: u8 := 0x3B

  datatype EnvErr = Utf8(err: Utf8Error) | InvalidPtr

  datatype ProcessArgs = ProcessArgs(at: usize, len: usize, bytes: seq<u8>)

  datatype EnvVars = EnvVars(at: usize, len: usize, bytes: seq<u8>)

  /** A `(name, value)` pair of the environment. */
  type Entry = (seq<u8>, seq<u8>)

  /** The checks shared by `ProcessArgs::new` and `EnvVars::new`: a null
      pointer is refused before the bytes are looked at, then the bytes must
      be well-formed UTF-8. */
  method Validate(at: usize, len: usize, view: seq<u8>) returns (r: Result<(), EnvErr>)
    requires |view| == len
    ensures at == NULL ==> r == Err(InvalidPtr)
    ensures at != NULL ==> (r.Ok? <==> ValidUtf8(view))
    ensures at != NULL && r.Err? ==> r.error.Utf8? && r.error.err.validUpTo < |view| &&
                                     ValidUtf8(view[..r.error.err.validUpTo])
  {
    if at == NULL {
      return Err(InvalidPtr);
    }
    var checked := FromUtf8(view);
    match checked
    case Ok(_) => return Ok(());
    case Err(e) => return Err(Utf8(e));
  }

  /** `ProcessArgs::new`. */
  method NewProcessArgs(at: usize, len: usize, view: seq<u8>) returns (r: Result<ProcessArgs, EnvErr>)
    requires |view| == len
    ensures at == NULL ==> r == Err(InvalidPtr)
    ensures at != NULL ==> (r.Err? <==> !ValidUtf8(view))
    ensures at != NULL && r.Err? ==> r.error.Utf8?
    ensures r.Ok? ==> r.value == ProcessArgs(at, len, view)
  {
    var checked := Validate(at, len, view);
    match checked
    case Ok(_) => return Ok(ProcessArgs(at, len, view));
    case Err(e) => return Err(e);
  }

  /** `EnvVars::new`. */
  method NewEnvVars(at: usize, len: usize, view: seq<u8>) returns (r: Result<EnvVars, EnvErr>)
    requires |view| == len
    ensures at == NULL ==> r == Err(InvalidPtr)
    ensures at != NULL ==> (r.Err? <==> !ValidUtf8(view))
    ensures at != NULL && r.Err? ==> r.error.Utf8?
    ensures r.Ok? ==> r.value == EnvVars(at, len, view)
  {
    var checked := Validate(at, len, view);
    match checked
    case Ok(_) => return Ok(EnvVars(at, len, view));
    case Err(e) => return Err(e);
  }

  // ---------------------------------------------------------------- arguments

  /** `ProcessArgs::as_split_bytes`: the arguments, split on every space,
      so one piece more than there are spaces and no piece holding one. */
  function ArgsSplitBytes(a: ProcessArgs): (pieces: seq<seq<u8>>)
    ensures |pieces| == Count(a.bytes, SPACE) + 1
    ensures forall k :: 0 <= k < |pieces| ==> SPACE !in pieces[k]
  {
    SplitShape(a.bytes, SPACE);
    Split(a.bytes, SPACE)
  }

  /** The argument blob a list of space-free arguments is passed as. */
  function EncodeArgs(args: seq<seq<u8>>): seq<u8> {
    Join(args, SPACE)
  }

  /** One piece more than there are spaces, none containing a space, and the
      pieces rejoined with spaces are the blob again. */
  lemma ArgsSplitShape(a: ProcessArgs)
    ensures |ArgsSplitBytes(a)| == Count(a.bytes, SPACE) + 1
    ensures forall k :: 0 <= k < |ArgsSplitBytes(a)| ==> SPACE !in ArgsSplitBytes(a)[k]
    ensures EncodeArgs(ArgsSplitBytes(a)) == a.bytes
  {
    SplitShape(a.bytes, SPACE);
    JoinSplit(a.bytes, SPACE);
  }

  /** A blob built from space-free arguments splits back into exactly them. */
  lemma ArgsRoundTrip(a: ProcessArgs, args: seq<seq<u8>>)
    requires |args| >= 1
    requires forall k :: 0 <= k < |args| ==> SPACE !in args[k]
    requires a.bytes == EncodeArgs(args)
    ensures ArgsSplitBytes(a) == args
  {
    SplitJoin(args, SPACE);
  }

  /** `ProcessArgs::nth`: the `n`-th (from 0) space-separated piece. */
  function Nth(a: ProcessArgs, n: usize): (r: Option<seq<u8>>)
    ensures r.None? <==> n > Count(a.bytes, SPACE)
    ensures r.Some? ==> n < |ArgsSplitBytes(a)| && r.value == ArgsSplitBytes(a)[n] && SPACE !in r.value
  {
    ArgsSplitShape(a);
    var pieces := ArgsSplitBytes(a);
    if n < |pieces| then Some(pieces[n]) else None
  }

  /** `ProcessArgs::named`: the first piece equal to `name`, if any. */
  function Named(a: ProcessArgs, name: seq<u8>): (r: Option<seq<u8>>)
    ensures r.Some? <==> name in ArgsSplitBytes(a)
    ensures r.Some? ==> r.value == name
  {
    var pieces := ArgsSplitBytes(a);
    match IndexOf(pieces, name)
    case None => None
    case Some(i) => Some(pieces[i])
  }

  /** A name containing a space is never found among the arguments. */
  lemma NamedWithSpaceIsAbsent(a: ProcessArgs, name: seq<u8>)
    requires SPACE in name
    ensures Named(a, name) == None
  {
    ArgsSplitShape(a);
  }

  // -------------------------------------------------------------- environment

  /** `EnvVars::as_split_bytes`: one `(name, value)` pair per NUL-separated
      entry, split at the entry's first `=`. */
  function EnvSplitBytes(e: EnvVars): (pairs: seq<Entry>)
    ensures |pairs| == |Split(e.bytes, NUL)| == Count(e.bytes, NUL) + 1
    ensures forall k :: 0 <= k < |pairs| ==> EQUALS !in pairs[k].0
    ensures forall k :: 0 <= k < |pairs| && EQUALS in Split(e.bytes, NUL)[k] ==>
      pairs[k].0 + [EQUALS] + pairs[k].1 == Split(e.bytes, NUL)[k]
    ensures forall k :: 0 <= k < |pairs| && EQUALS !in Split(e.bytes, NUL)[k] ==>
      pairs[k] == (Split(e.bytes, NUL)[k], [])
  {
    var entries := Split(e.bytes, NUL);
    SplitShape(e.bytes, NUL);
    seq(|entries|, k requires 0 <= k < |entries| => SplitOnce(entries[k], EQUALS))
  }

  /** The names of the entries, in order. */
  function Keys(pairs: seq<Entry>): (keys: seq<seq<u8>>)
    ensures |keys| == |pairs|
    ensures forall k :: 0 <= k < |pairs| ==> keys[k] == pairs[k].0
  {
    seq(|pairs|, k requires 0 <= k < |pairs| => pairs[k].0)
  }

  /** The environment blob that holds the given entries. */
  function EncodeEnv(pairs: seq<Entry>): seq<u8> {
    Join(seq(|pairs|, k requires 0 <= k < |pairs| => pairs[k].0 + [EQUALS] + pairs[k].1), NUL)
  }

  /** Entries whose names hold no `=` or NUL and whose values hold no NUL
      come back unchanged from the blob they are encoded in. */
  lemma EnvRoundTrip(e: EnvVars, pairs: seq<Entry>)
    requires |pairs| >= 1
    requires forall k :: 0 <= k < |pairs| ==> EQUALS !in pairs[k].0 && NUL !in pairs[k].0 && NUL !in pairs[k].1
    requires e.bytes == EncodeEnv(pairs)
    ensures EnvSplitBytes(e) == pairs
  {
    var entries := seq(|pairs|, k requires 0 <= k < |pairs| => pairs[k].0 + [EQUALS] + pairs[k].1);
    SplitJoin(entries, NUL);
    forall k | 0 <= k < |pairs|
      ensures EnvSplitBytes(e)[k] == pairs[k]
    {
      SplitOnceUnique(entries[k], EQUALS, pairs[k].0, pairs[k].1);
    }
  }

  /** `EnvVars::get`: the value of the first entry named `name`; later
      entries with the same name are never consulted. */
  function Get(e: EnvVars, name: seq<u8>): (r: Option<seq<u8>>)
    ensures r.None? <==> forall k :: 0 <= k < |EnvSplitBytes(e)| ==> EnvSplitBytes(e)[k].0 != name
    ensures r.Some? ==> exists k :: 0 <= k < |EnvSplitBytes(e)| && EnvSplitBytes(e)[k] == (name, r.value) &&
                                    (forall j :: 0 <= j < k ==> EnvSplitBytes(e)[j].0 != name)
  {
    var pairs := EnvSplitBytes(e);
    var keys := Keys(pairs);
    match IndexOf(keys, name)
    case None => None
    case Some(i) =>
      assert forall j :: 0 <= j < i ==> keys[..i][j] == pairs[j].0;
      Some(pairs[i].1)
  }

  /** `EnvVars::separate_byte_entries`: names kept, each value split on `;`. */
  function SeparateByteEntries(pairs: seq<Entry>): (r: seq<(seq<u8>, seq<seq<u8>>)>)
    ensures |r| == |pairs|
    ensures forall k :: 0 <= k < |r| ==> r[k].0 == pairs[k].0
    ensures forall k :: 0 <= k < |r| ==> |r[k].1| == Count(pairs[k].1, SEMICOLON) + 1
    ensures forall k :: 0 <= k < |r| ==> Join(r[k].1, SEMICOLON) == pairs[k].1
  {
    SplitLaws(SEMICOLON);
    seq(|pairs|, k requires 0 <= k < |pairs| => (pairs[k].0, Split(pairs[k].1, SEMICOLON)))
  }

  // ------------------------------------------------ soundness of `*_str` views

  /** Splitting well-formed UTF-8 on an ASCII separator gives well-formed
      pieces. */
  lemma {:induction false} SplitKeepsUtf8(s: seq<u8>, sep: u8)
    requires ValidUtf8(s) && sep < 0x80
    ensures forall k :: 0 <= k < |Split(s, sep)| ==> ValidUtf8(Split(s, sep)[k])
    decreases |s|
  {
    match IndexOf(s, sep)
    case None =>
    case Some(i) =>
      ValidSplitAtAscii(s, i);
      SplitKeepsUtf8(s[i + 1..], sep);
  }

  /** Splitting well-formed UTF-8 once on an ASCII separator gives two
      well-formed parts. */
  lemma SplitOnceKeepsUtf8(s: seq<u8>, sep: u8)
    requires ValidUtf8(s) && sep < 0x80
    ensures ValidUtf8(SplitOnce(s, sep).0) && ValidUtf8(SplitOnce(s, sep).1)
  {
    match IndexOf(s, sep)
    case None =>
    case Some(i) => ValidSplitAtAscii(s, i);
  }

  /** For validated arguments, every piece `as_split_str`, `nth` and `named`
      reinterpret with `from_utf8_unchecked` is well-formed UTF-8. */
  lemma ArgsPiecesAreUtf8(a: ProcessArgs)
    requires ValidUtf8(a.bytes)
    ensures forall k :: 0 <= k < |ArgsSplitBytes(a)| ==> ValidUtf8(ArgsSplitBytes(a)[k])
  {
    SplitKeepsUtf8(a.bytes, SPACE);
  }

  /** For a validated environment, every name, value and `;`-separated item
      reinterpreted with `from_utf8_unchecked` is well-formed UTF-8. */
  lemma EnvPartsAreUtf8(e: EnvVars)
    requires ValidUtf8(e.bytes)
    ensures forall k :: 0 <= k < |EnvSplitBytes(e)| ==>
      ValidUtf8(EnvSplitBytes(e)[k].0) && ValidUtf8(EnvSplitBytes(e)[k].1)
    ensures forall k, j :: 0 <= k < |EnvSplitBytes(e)| && 0 <= j < |SeparateByteEntries(EnvSplitBytes(e))[k].1| ==>
      ValidUtf8(SeparateByteEntries(EnvSplitBytes(e))[k].1[j])
  {
    var entries := Split(e.bytes, NUL);
    var pairs := EnvSplitBytes(e);
    SplitKeepsUtf8(e.bytes, NUL);
    forall k | 0 <= k < |pairs|
      ensures ValidUtf8(pairs[k].0) && ValidUtf8(pairs[k].1)
      ensures forall j :: 0 <= j < |SeparateByteEntries(pairs)[k].1| ==> ValidUtf8(SeparateByteEntries(pairs)[k].1[j])
    {
      SplitOnceKeepsUtf8(entries[k], EQUALS);
      SplitKeepsUtf8(pairs[k].1, SEMICOLON);
    }
  }
}
