/**
 * Small building blocks shared by both window models: optional values and
 * results (for `npos` and for thrown exceptions), searching a string for a
 * character, and the plain "split at every delimiter" / "join" pair.
 */
module Common {

  datatype Option<+T> = None | Some(value: T)

  datatype Result<+T, +E> = Success(value: T) | Failure(error: E)

  /** The one-element sequence of a present value, the empty one otherwise. */
  function OptionToSeq<T>(o: Option<T>): (r: seq<T>)
    ensures o.None? ==> r == []
    ensures o.Some? ==> r == [o.value]
  {
    match o
    case None => []
    case Some(v) => [v]
  }

  /** Concatenation of sequences is associative; stated for the proofs that regroup it. */
  lemma AppendAssoc<T>(x: seq<T>, y: seq<T>, z: seq<T>)
    ensures x + (y + z) == (x + y) + z
  {
  }

  /** A prefix one longer is the prefix and the next element. */
  lemma PrefixSnoc<T>(s: seq<T>, i: nat)
    requires i < |s|
    ensures s[..i + 1] == s[..i] + [s[i]]
  {
  }

  /** Dropping the last element of a concatenation drops it from the second part. */
  lemma AppendInit<T>(a: seq<T>, b: seq<T>)
    requires b != []
    ensures (a + b)[..|a + b| - 1] == a + b[..|b| - 1]
    ensures (a + b)[|a + b| - 1] == b[|b| - 1]
  {
  }

  /** Dropping the first element of a concatenation drops it from the first part. */
  lemma AppendTail<T>(a: seq<T>, b: seq<T>)
    requires a != []
    ensures (a + b)[1..] == a[1..] + b
    ensures (a + b)[0] == a[0]
  {
  }

  /** A sequence is the part before position `k`, the element at `k`, and the part after it. */
  lemma SplitAround<T>(s: seq<T>, k: nat)
    requires k < |s|
    ensures s == s[..k] + [s[k]] + s[k + 1..]
  {
  }

  /** A sequence is its prefix followed by the matching suffix. */
  lemma PrefixSuffix<T>(s: seq<T>, i: nat)
    requires i <= |s|
    ensures s == s[..i] + s[i..]
  {
  }

  /**
   * The index of the first occurrence of `c` in `s`, as `std::wstring::find`
   * returns it; `None` stands for `npos`.
   */
  function Find(s: string, c: char): (r: Option<nat>)
    ensures r.None? <==> c !in s
    ensures r.Some? ==> r.value < |s| && s[r.value] == c && c !in s[..r.value]
  {
    if |s| == 0 then None
    else if s[0] == c then Some(0)
    else
      match Find(s[1..], c)
      case None => None
      case Some(k) =>
        assert s[..k + 1] == [s[0]] + s[1..][..k];
        Some(k + 1)
  }

  /** The index of the last occurrence of `c` in `s` (`rfind`); `None` for `npos`. */
  function RFind(s: string, c: char): (r: Option<nat>)
    ensures r.None? <==> c !in s
    ensures r.Some? ==> r.value < |s| && s[r.value] == c && c !in s[r.value + 1..]
  {
    if |s| == 0 then None
    else if s[|s| - 1] == c then Some(|s| - 1)
    else
      var r := RFind(s[..|s| - 1], c);
      assert s == s[..|s| - 1] + [s[|s| - 1]];
      if r.Some? then
        assert s[r.value + 1..] == s[..|s| - 1][r.value + 1..] + [s[|s| - 1]];
        r
      else r
  }

  /** `Find` returns the first occurrence: any occurrence with none before it is the answer. */
  lemma FindIsFirst(s: string, c: char, k: nat)
    requires k < |s| && s[k] == c && c !in s[..k]
    ensures Find(s, c) == Some(k)
  {
    assert forall j :: k < j <= |s| ==> s[..j][k] == c;
  }

  /** `RFind` returns the last occurrence: any occurrence with none after it is the answer. */
  lemma RFindIsLast(s: string, c: char, k: nat)
    requires k < |s| && s[k] == c && c !in s[k + 1..]
    ensures RFind(s, c) == Some(k)
  {
    assert forall j :: 1 <= j <= k ==> s[j..][k - j] == c;
  }

  /** Some occurrence of `open` comes before some occurrence of `close`. */
  predicate OpensBeforeCloses(s: string, open: char, close: char) {
    exists i, k :: 0 <= i < k < |s| && s[i] == open && s[k] == close
  }

  /**
   * The first `open` comes before the last `close` exactly when some `open`
   * comes before some `close`.
   */
  lemma FirstBeforeLast(s: string, open: char, close: char)
    ensures (Find(s, open).Some? && RFind(s, close).Some? && Find(s, open).value < RFind(s, close).value)
            <==> OpensBeforeCloses(s, open, close)
  {
    if OpensBeforeCloses(s, open, close) {
      var i, k :| 0 <= i < k < |s| && s[i] == open && s[k] == close;
      var start, end := Find(s, open).value, RFind(s, close).value;
      assert forall j :: 0 <= j < start ==> s[..start][j] == s[j];
      assert forall j :: end < j < |s| ==> s[end + 1..][j - end - 1] == s[j];
    }
  }

  /**
   * Splitting at every occurrence of `d`, keeping empty pieces: `n`
   * delimiters give `n + 1` pieces (the behaviour of .NET's
   * `String.Split` without options).
   */
  function SplitAll(s: string, d: char): (r: seq<string>)
    ensures |r| >= 1
    ensures forall i :: 0 <= i < |r| ==> d !in r[i]
    decreases |s|
  {
    match Find(s, d)
    case None => [s]
    case Some(k) => [s[..k]] + SplitAll(s[k + 1..], d)
  }

  /** A piece free of the delimiter, the delimiter and more text: the piece comes first. */
  lemma SplitAllCons(p: string, rest: string, d: char)
    requires d !in p
    ensures SplitAll(p + [d] + rest, d) == [p] + SplitAll(rest, d)
  {
    var s := p + [d] + rest;
    assert s[|p|] == d && s[..|p|] == p;
    FindIsFirst(s, d, |p|);
    assert s[|p| + 1..] == rest;
  }

  /** The pieces glued together with `sep` between consecutive ones. */
  function Join(parts: seq<string>, sep: string): string
  {
    if |parts| == 0 then []
    else if |parts| == 1 then parts[0]
    else parts[0] + sep + Join(parts[1..], sep)
  }

  /** Joining a piece in front of at least one other piece puts one separator between them. */
  lemma JoinCons(head: string, tail: seq<string>, sep: string)
    requires |tail| >= 1
    ensures Join([head] + tail, sep) == head + sep + Join(tail, sep)
  {
    assert ([head] + tail)[1..] == tail;
  }

  /** Joining the pieces of a split with the delimiter gives back the text. */
  lemma {:induction false} JoinSplitAll(s: string, d: char)
    ensures Join(SplitAll(s, d), [d]) == s
    decreases |s|
  {
    var f := Find(s, d);
    if f.Some? {
      var k := f.value;
      var rest := s[k + 1..];
      JoinSplitAll(rest, d);
      JoinCons(s[..k], SplitAll(rest, d), [d]);
      SplitAround(s, k);
    } else {
      assert SplitAll(s, d) == [s];
    }
  }

  /** Splitting a join gives back the pieces when no piece holds the delimiter. */
  lemma {:induction false} SplitAllJoin(parts: seq<string>, d: char)
    requires |parts| >= 1
    requires forall i :: 0 <= i < |parts| ==> d !in parts[i]
    ensures SplitAll(Join(parts, [d]), d) == parts
    decreases |parts|
  {
    if |parts| > 1 {
      var head, tail := parts[0], parts[1..];
      SplitAllJoin(tail, d);
      assert parts == [head] + tail;
      JoinCons(head, tail, [d]);
      SplitAllCons(head, Join(tail, [d]), d);
    }
  }
}
