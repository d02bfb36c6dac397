/** The string helpers the server uses from Go's library: `strings.Split`
    with a one-character separator, and the conversion `string(buf[...])`
    of received bytes to text. */
module Text {

  /** A byte of the receive buffer. */
  type byte = b: int | 0 <= b < 256

  /** Position of the first `d` in `s`, or `|s|` when `s` has none
      (Go's `strings.Index`, which says -1 for "none"). */
  function IndexOf(s: string, d: char): (i: nat)
    ensures i <= |s|
    ensures forall k :: 0 <= k < i ==> s[k] != d
    ensures i < |s| ==> s[i] == d
    decreases |s|
  {
    if s == [] then 0
    else if s[0] == d then 0
    else 1 + IndexOf(s[1..], d)
  }

  /** `strings.Split(s, [d])`: the pieces of `s` between the occurrences of
      `d`, in order. There is always one more piece than there are
      separators, so even the empty string gives one (empty) piece. */
  function Split(s: string, d: char): (parts: seq<string>)
    ensures |parts| >= 1
    decreases |s|
  {
    var i := IndexOf(s, d);
    if i == |s| then [s] else [s[..i]] + Split(s[i + 1..], d)
  }

  /** There is one more piece than there are separators. */
  lemma {:induction false} SplitCount(s: string, d: char)
    ensures |Split(s, d)| == multiset(s)[d] + 1
    decreases |s|
  {
    var i := IndexOf(s, d);
    if i == |s| {
      assert d !in s;
    } else {
      SplitCount(s[i + 1..], d);
      assert s == s[..i] + [d] + s[i + 1..];
      assert d !in s[..i];
      assert multiset(s) == multiset(s[..i]) + multiset{d} + multiset(s[i + 1..]);
    }
  }

  /** `strings.Join(parts, [d])`, the inverse of `Split`. */
  function Join(parts: seq<string>, d: char): string
    requires |parts| >= 1
    decreases |parts|
  {
    if |parts| == 1 then parts[0] else parts[0] + [d] + Join(parts[1..], d)
  }

  /** A join of two or more pieces is the first piece, the separator, the
      second piece, and the returned rest: nothing, or the separator and the
      join of the remaining pieces. */
  lemma JoinFirstTwo(parts: seq<string>, d: char) returns (rest: string)
    requires |parts| >= 2
    ensures Join(parts, d) == parts[0] + [d] + (parts[1] + rest)
    ensures rest == [] || rest[0] == d
  {
    if |parts| == 2 {
      rest := [];
    } else {
      rest := [d] + Join(parts[2..], d);
      assert parts[1..][1..] == parts[2..];
    }
  }

  /** The text of received bytes: one character per byte, as Go's
      `string([]byte)` keeps every byte. */
  function Latin1(bs: seq<byte>): (s: string)
    ensures |s| == |bs|
    ensures forall k :: 0 <= k < |bs| ==> s[k] as int == bs[k]
  {
    seq(|bs|, k requires 0 <= k < |bs| => bs[k] as char)
  }

  /** Different byte strings never read as the same text. */
  lemma Latin1Injective(a: seq<byte>, b: seq<byte>)
    requires Latin1(a) == Latin1(b)
    ensures a == b
  {
    assert |a| == |b|;
    forall k | 0 <= k < |a| ensures a[k] == b[k] {
      assert Latin1(a)[k] == Latin1(b)[k];
    }
  }

  /** The first occurrence of `d` in `p + [d] + rest` is the one after `p`
      when `p` holds none. */
  lemma IndexOfAfterPrefix(p: string, d: char, rest: string)
    requires d !in p
    ensures IndexOf(p + [d] + rest, d) == |p|
  {
    var s := p + [d] + rest;
    assert s[|p|] == d;
    assert forall k :: 0 <= k < |p| ==> s[k] == p[k];
  }

  /** A string with no separator splits into itself. */
  lemma SplitWithoutSeparator(s: string, d: char)
    requires d !in s
    ensures Split(s, d) == [s]
  {
  }

  /** Splitting `p + [d] + rest`, where `p` holds no separator, gives `p`
      followed by the pieces of `rest`. */
  lemma SplitAfterPrefix(p: string, d: char, rest: string)
    requires d !in p
    ensures Split(p + [d] + rest, d) == [p] + Split(rest, d)
  {
    var s := p + [d] + rest;
    IndexOfAfterPrefix(p, d, rest);
    assert s[..|p|] == p;
    assert s[|p| + 1..] == rest;
  }

  /** Joining the pieces puts the string back together. */
  lemma {:induction false} JoinSplit(s: string, d: char)
    ensures Join(Split(s, d), d) == s
    decreases |s|
  {
    var i := IndexOf(s, d);
    var parts := Split(s, d);
    if i < |s| {
      var tail := Split(s[i + 1..], d);
      assert parts == [s[..i]] + tail;
      assert parts[0] == s[..i] && parts[1..] == tail;
      JoinSplit(s[i + 1..], d);
      assert Join(parts, d) == s[..i] + [d] + s[i + 1..];
      assert s == s[..i] + [d] + s[i + 1..];
    }
  }

  /** No piece of a split contains the separator. */
  lemma {:induction false} SplitPiecesFree(s: string, d: char)
    ensures forall k :: 0 <= k < |Split(s, d)| ==> d !in Split(s, d)[k]
    decreases |s|
  {
    var i := IndexOf(s, d);
    if i < |s| {
      SplitPiecesFree(s[i + 1..], d);
      assert d !in s[..i] by {
        forall k | 0 <= k < i ensures s[..i][k] != d { }
      }
    } else {
      assert d !in s by {
        forall k | 0 <= k < |s| ensures s[k] != d { }
      }
    }
  }

  /** Splitting what `Join` built gives the pieces back, when no piece
      contains the separator. */
  lemma {:induction false} SplitJoin(parts: seq<string>, d: char)
    requires |parts| >= 1
    requires forall k :: 0 <= k < |parts| ==> d !in parts[k]
    ensures Split(Join(parts, d), d) == parts
    decreases |parts|
  {
    if |parts| == 1 {
      SplitWithoutSeparator(parts[0], d);
    } else {
      SplitJoin(parts[1..], d);
      SplitAfterPrefix(parts[0], d, Join(parts[1..], d));
    }
  }
}
