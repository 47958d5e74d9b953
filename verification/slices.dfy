/** Slice splitting as the Rust standard library does it: `split` on a
    separator, `splitn(2, ..)` and `find`, over any element type. */
module Slices {
  import opened Wrappers

  /** The index of the first occurrence of `x` in `s` (`Iterator::position`). */
  function IndexOf<T(==)>(s: seq<T>, x: T): (r: Option<nat>)
    ensures r.None? <==> x !in s
    ensures r.Some? ==> r.value < |s| && s[r.value] == x && x !in s[..r.value]
    decreases |s|
  {
    if |s| == 0 then None
    else if s[0] == x then Some(0)
    else
      match IndexOf(s[1..], x)
      case None => None
      case Some(i) =>
        assert s[..i + 1] == [s[0]] + s[1..][..i];
        Some(i + 1)
  }

  /** `<[T]>::split(|e| *e == sep)`: the runs between separators, with an
      empty run at each end that starts or ends with `sep` and between two
      adjacent separators. */
  function Split<T(==)>(s: seq<T>, sep: T): (pieces: seq<seq<T>>)
    decreases |s|
  {
    match IndexOf(s, sep)
    case None => [s]
    case Some(i) => [s[..i]] + Split(s[i + 1..], sep)
  }

  /** Concatenation of `pieces` with `sep` between consecutive ones
      (`<[_]>::join`). */
  function Join<T>(pieces: seq<seq<T>>, sep: T): seq<T>
    decreases |pieces|
  {
    if |pieces| == 0 then []
    else if |pieces| == 1 then pieces[0]
    else pieces[0] + [sep] + Join(pieces[1..], sep)
  }

  /** The number of occurrences of `x` in `s`. */
  function Count<T(==)>(s: seq<T>, x: T): nat {
    multiset(s)[x]
  }

  /** `split` yields one more piece than there are separators, and no piece
      contains a separator. */
  lemma {:induction false} SplitShape<T>(s: seq<T>, sep: T)
    ensures |Split(s, sep)| == Count(s, sep) + 1
    ensures forall k :: 0 <= k < |Split(s, sep)| ==> sep !in Split(s, sep)[k]
    decreases |s|
  {
    match IndexOf(s, sep)
    case None =>
    case Some(i) =>
      SplitShape(s[i + 1..], sep);
      assert s == s[..i] + [sep] + s[i + 1..];
      assert multiset(s) == multiset(s[..i]) + multiset([sep]) + multiset(s[i + 1..]);
  }

  /** Joining the pieces of a split gives back the original sequence. */
  lemma {:induction false} JoinSplit<T>(s: seq<T>, sep: T)
    ensures Join(Split(s, sep), sep) == s
    decreases |s|
  {
    match IndexOf(s, sep)
    case None =>
    case Some(i) =>
      JoinSplit(s[i + 1..], sep);
      var rest := Split(s[i + 1..], sep);
      assert Split(s, sep) == [s[..i]] + rest;
      assert Split(s, sep)[1..] == rest;
      assert s == s[..i] + [sep] + s[i + 1..];
  }

  /** Splitting a join of separator-free pieces gives back those pieces. */
  lemma {:induction false} SplitJoin<T>(pieces: seq<seq<T>>, sep: T)
    requires |pieces| >= 1
    requires forall k :: 0 <= k < |pieces| ==> sep !in pieces[k]
    ensures Split(Join(pieces, sep), sep) == pieces
    decreases |pieces|
  {
    if |pieces| > 1 {
      SplitFirst(pieces[0], sep, Join(pieces[1..], sep));
      SplitJoin(pieces[1..], sep);
      assert pieces == [pieces[0]] + pieces[1..];
    }
  }

  /** A separator-free run followed by a separator is the first piece. */
  lemma SplitFirst<T>(p: seq<T>, sep: T, rest: seq<T>)
    requires sep !in p
    ensures Split(p + [sep] + rest, sep) == [p] + Split(rest, sep)
  {
    var s := p + [sep] + rest;
    assert s[|p|] == sep && s[..|p|] == p;
    assert IndexOf(s, sep) == Some(|p|);
    assert s[|p| + 1..] == rest;
  }

  /** `splitn(2, |e| *e == sep)` read with two `next().unwrap_or_default()`:
      the part before the first separator and the part after it, or the
      whole sequence and an empty one when there is no separator. */
  function SplitOnce<T(==)>(s: seq<T>, sep: T): (r: (seq<T>, seq<T>))
    ensures sep !in r.0
    ensures sep in s ==> r.0 + [sep] + r.1 == s
    ensures sep !in s ==> r.0 == s && r.1 == []
  {
    match IndexOf(s, sep)
    case None => (s, [])
    case Some(i) =>
      assert s == s[..i] + [sep] + s[i + 1..];
      (s[..i], s[i + 1..])
  }

  /** The split of `s` at its first separator is the only one whose first
      part is separator-free. */
  lemma SplitOnceUnique<T>(s: seq<T>, sep: T, key: seq<T>, value: seq<T>)
    requires sep !in key && s == key + [sep] + value
    ensures SplitOnce(s, sep) == (key, value)
  {
    assert s[|key|] == sep && s[..|key|] == key;
    assert IndexOf(s, sep) == Some(|key|);
    assert s[|key| + 1..] == value;
  }

  /** `SplitShape` and `JoinSplit` for every sequence at once. */
  lemma SplitLaws<T>(sep: T)
    ensures forall s: seq<T> :: |Split(s, sep)| == Count(s, sep) + 1 && Join(Split(s, sep), sep) == s
  {
    forall s: seq<T> ensures |Split(s, sep)| == Count(s, sep) + 1 && Join(Split(s, sep), sep) == s {
      SplitShape(s, sep);
      JoinSplit(s, sep);
    }
  }
}
