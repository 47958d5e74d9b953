/** Well-formed UTF-8 as defined in section 4 of RFC 3629 ("Syntax of UTF-8
    Byte Sequences"), and the validation `str::from_utf8` performs on the
    argument and environment blobs. Characters are read in place, by index,
    so that a range of a sequence and the slice holding it agree. */
module Rfc3629 {
  import opened MachineInts
  import opened Wrappers

  /** `UTF8-tail = %x80-BF`. */
  predicate IsTail(b: u8) {
    0x80 <= b <= 0xBF
  }

  /** The number of bytes of a character whose first byte is `b`, or 0
      when no character starts with `b` (`%x80-C1` and `%xF5-FF`). */
  function Width(b: u8): nat {
    if b <= 0x7F then 1
    else if 0xC2 <= b <= 0xDF then 2
    else if 0xE0 <= b <= 0xEF then 3
    else if 0xF0 <= b <= 0xF4 then 4
    else 0
  }

  /** The second byte allowed after first byte `b0`: a tail byte, narrowed
      after `%xE0` (`%xA0-BF`), `%xED` (`%x80-9F`), `%xF0` (`%x90-BF`) and
      `%xF4` (`%x80-8F`). */
  predicate SecondOk(b0: u8, b1: u8) {
    if b0 == 0xE0 then 0xA0 <= b1 <= 0xBF
    else if b0 == 0xED then 0x80 <= b1 <= 0x9F
    else if b0 == 0xF0 then 0x90 <= b1 <= 0xBF
    else if b0 == 0xF4 then 0x80 <= b1 <= 0x8F
    else IsTail(b1)
  }

  /** The length of the well-formed character (`UTF8-char` of RFC 3629) that
      starts at index `i` of `s`, or 0 when none starts there. */
  function WidthAt(s: seq<u8>, i: nat): (w: nat)
    ensures w <= 4 && (w > 0 ==> i + w <= |s|)
    ensures i < |s| && s[i] < 0x80 ==> w == 1
  {
    if i >= |s| then 0
    else
      var n := Width(s[i]);
      if n == 0 || |s| < i + n then 0
      else if n >= 2 && !SecondOk(s[i], s[i + 1]) then 0
      else if n >= 3 && !IsTail(s[i + 2]) then 0
      else if n >= 4 && !IsTail(s[i + 3]) then 0
      else n
  }

  /** A character's first byte is never a tail byte, and all its other
      bytes are. */
  lemma WidthAtTails(s: seq<u8>, i: nat)
    ensures WidthAt(s, i) > 0 ==> !IsTail(s[i])
    ensures forall k :: i < k < i + WidthAt(s, i) ==> IsTail(s[k])
  {
  }

  /** `s[i..j]` is a sequence of whole well-formed characters
      (`UTF8-octets = *( UTF8-char )`). */
  predicate ValidRange(s: seq<u8>, i: nat, j: nat)
    decreases j - i
  {
    || i == j
    || (&& i < j && 0 < WidthAt(s, i) && i + WidthAt(s, i) <= j
        && ValidRange(s, i + WidthAt(s, i), j))
  }

  /** `s` is well-formed UTF-8. */
  predicate ValidUtf8(s: seq<u8>) {
    ValidRange(s, 0, |s|)
  }

  /** Two well-formed ranges that meet form one. */
  lemma {:induction false} ValidRangeConcat(s: seq<u8>, a: nat, b: nat, c: nat)
    requires ValidRange(s, a, b) && ValidRange(s, b, c)
    ensures ValidRange(s, a, c)
    decreases b - a
  {
    if a != b {
      ValidRangeConcat(s, a + WidthAt(s, a), b, c);
    }
  }

  /** Inside a slice a character reads as in the whole sequence, as long as
      it ends inside the slice. */
  lemma WidthAtSlice(s: seq<u8>, a: nat, b: nat, k: nat)
    requires a <= b <= |s| && k < b - a
    ensures (WidthAt(s[a..b], k) > 0) <==> (WidthAt(s, a + k) > 0 && a + k + WidthAt(s, a + k) <= b)
    ensures WidthAt(s[a..b], k) > 0 ==> WidthAt(s[a..b], k) == WidthAt(s, a + k)
  {
    var t := s[a..b];
    assert forall m :: k <= m < b - a ==> t[m] == s[a + m];
  }

  /** A range of a slice is well-formed exactly when the matching range of
      the whole sequence is. */
  lemma {:induction false} ValidRangeSlice(s: seq<u8>, a: nat, b: nat, i: nat)
    requires a <= b <= |s| && i <= b - a
    ensures ValidRange(s[a..b], i, b - a) <==> ValidRange(s, a + i, b)
    decreases b - a - i
  {
    if i < b - a {
      WidthAtSlice(s, a, b, i);
      var w := WidthAt(s[a..b], i);
      if w > 0 {
        ValidRangeSlice(s, a, b, i + w);
      }
    }
  }

  /** The slice `s[a..b]` is well-formed exactly when the range is. */
  lemma SliceValid(s: seq<u8>, a: nat, b: nat)
    requires a <= b <= |s|
    ensures ValidUtf8(s[a..b]) <==> ValidRange(s, a, b)
  {
    ValidRangeSlice(s, a, b, 0);
  }

  /** Rust's `Utf8Error`: the length of the longest prefix that was verified. */
  datatype Utf8Error = Utf8Error(validUpTo: nat)

  /** `str::from_utf8`: scans the bytes character by character. On failure the
      reported prefix is well-formed and no well-formed character starts right
      after it. */
  method FromUtf8(s: seq<u8>) returns (r: Result<(), Utf8Error>)
    ensures r.Ok? <==> ValidUtf8(s)
    ensures r.Err? ==> r.error.validUpTo < |s|
    ensures r.Err? ==> ValidUtf8(s[..r.error.validUpTo])
    ensures r.Err? ==> WidthAt(s, r.error.validUpTo) == 0
  {
    var i := 0;
    while i < |s|
      invariant i <= |s|
      invariant ValidRange(s, 0, i)
      invariant ValidUtf8(s) <==> ValidRange(s, i, |s|)
    {
      var w := WidthAt(s, i);
      if w == 0 {
        SliceValid(s, 0, i);
        assert s[0..i] == s[..i];
        return Err(Utf8Error(i));
      }
      assert ValidRange(s, i + w, i + w);
      ValidRangeConcat(s, 0, i, i + w);
      i := i + w;
    }
    return Ok(());
  }

  /** An ASCII byte is never inside a multi-byte character, so a well-formed
      range cut at one leaves two well-formed ranges. */
  lemma {:induction false} ValidRangeSplitAscii(s: seq<u8>, a: nat, b: nat, i: nat)
    requires ValidRange(s, a, b)
    requires a <= i < b && i < |s| && s[i] < 0x80
    ensures ValidRange(s, a, i) && ValidRange(s, i + 1, b)
    decreases b - a
  {
    var w := WidthAt(s, a);
    if i < a + w {
      // Bytes after the first one of a character are tails, hence not ASCII.
      WidthAtTails(s, a);
      assert i == a;
    } else {
      ValidRangeSplitAscii(s, a + w, b, i);
    }
  }

  /** Cutting a well-formed sequence at an ASCII byte leaves two well-formed
      halves. This is what makes the `from_utf8_unchecked` calls on split
      pieces sound. */
  lemma ValidSplitAtAscii(s: seq<u8>, i: nat)
    requires ValidUtf8(s)
    requires i < |s| && s[i] < 0x80
    ensures ValidUtf8(s[..i])
    ensures ValidUtf8(s[i + 1..])
  {
    ValidRangeSplitAscii(s, 0, |s|, i);
    SliceValid(s, 0, i);
    assert s[0..i] == s[..i];
    SliceValid(s, i + 1, |s|);
    assert s[i + 1..|s|] == s[i + 1..];
  }
}
