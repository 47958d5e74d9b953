/** `memset`, over a memory given as a sequence with `dest` an index into it. */
module Utils {

  /** `out` is `mem` with the `len` elements from `dest` on set to `val`. */
  ghost predicate IsMemset<T>(mem: seq<T>, dest: nat, len: nat, val: T, out: seq<T>) {
    && |out| == |mem|
    && forall i :: 0 <= i < |out| ==> out[i] == (if dest <= i < dest + len then val else mem[i])
  }

  /** `memset(dest, len, val)`: fills the slice `dest[0..len)` with `val`. */
  method Memset<T>(mem: seq<T>, dest: nat, len: nat, val: T) returns (out: seq<T>)
    requires dest + len <= |mem|
    ensures IsMemset(mem, dest, len, val, out)
  {
    out := mem;
    var i := 0;
    while i < len
      invariant i <= len
      invariant |out| == |mem|
      invariant forall j :: 0 <= j < |out| ==> out[j] == (if dest <= j < dest + i then val else mem[j])
    {
      out := out[dest + i := val];
      i := i + 1;
    }
  }

  /** The result of a `memset` is determined by its arguments. */
  lemma MemsetDeterministic<T>(mem: seq<T>, dest: nat, len: nat, val: T, out1: seq<T>, out2: seq<T>)
    requires IsMemset(mem, dest, len, val, out1) && IsMemset(mem, dest, len, val, out2)
    ensures out1 == out2
  {
  }

  /** A `memset` of zero elements changes nothing. */
  lemma MemsetEmpty<T>(mem: seq<T>, dest: nat, val: T, out: seq<T>)
    requires IsMemset(mem, dest, 0, val, out)
    ensures out == mem
  {
  }

  /** Repeating a `memset` changes nothing more. */
  lemma MemsetIdempotent<T>(mem: seq<T>, dest: nat, len: nat, val: T, once: seq<T>, twice: seq<T>)
    requires IsMemset(mem, dest, len, val, once) && IsMemset(once, dest, len, val, twice)
    ensures twice == once
  {
  }
}
