/** Go strings and byte slices, both modelled as sequences of bytes, with the few
    string-library operations (index, split, join, trim) the codec and the server use. */
module Bytes {
  type Byte = x: int | 0 <= x < 256
  type Text = seq<Byte>

  datatype Option<+T> = None | Some(value: T)

  const COLON: Byte := ':' as int
  const COMMA: Byte := ',' as int
  const SLASH: Byte := '/' as int
  const EQUALS: Byte := '=' as int

  /** Position of the first `c` in `s`, or -1. */
  function IndexOf(s: Text, c: Byte): (i: int)
    ensures -1 <= i < |s|
    ensures i < 0 <==> c !in s
    ensures 0 <= i ==> s[i] == c && forall j :: 0 <= j < i ==> s[j] != c
  {
    if s == [] then -1
    else if s[0] == c then 0
    else
      var rest := IndexOf(s[1..], c);
      assert s == [s[0]] + s[1..];
      if rest < 0 then -1 else rest + 1
  }

  /** What stands before and after the first `sep`, if there is one. */
  function Cut(s: Text, sep: Byte): (r: Option<(Text, Text)>)
    ensures r.None? <==> sep !in s
    ensures r.Some? ==> s == r.value.0 + [sep] + r.value.1 && sep !in r.value.0
  {
    var i := IndexOf(s, sep);
    if i < 0 then None else Some((s[..i], s[i + 1..]))
  }

  lemma CutUnique(head: Text, sep: Byte, tail: Text)
    requires sep !in head
    ensures Cut(head + [sep] + tail, sep) == Some((head, tail))
  {
    var s := head + [sep] + tail;
    assert s[|head|] == sep;
    assert forall k :: 0 <= k < |head| ==> s[k] == head[k];
    assert s[..|head|] == head && s[|head| + 1..] == tail;
  }

  /** Position of the last `c` in `s`, or -1. */
  function LastIndexOf(s: Text, c: Byte): (i: int)
    ensures -1 <= i < |s|
    ensures i < 0 <==> c !in s
    ensures 0 <= i ==> s[i] == c && forall j :: i < j < |s| ==> s[j] != c
  {
    if s == [] then -1
    else if s[|s| - 1] == c then |s| - 1
    else
      var n := |s| - 1;
      var front := LastIndexOf(s[..n], c);
      assert s == s[..n] + [s[n]];
      front
  }

  lemma LastIndexUnique(s: Text, c: Byte, k: nat)
    requires k < |s| && s[k] == c
    requires c !in s[k + 1..]
    ensures LastIndexOf(s, c) == k
  {
    forall j | k < j < |s| ensures s[j] != c {
      assert s[j] == s[k + 1..][j - k - 1];
    }
  }

  function Split(s: Text, sep: Byte): (parts: seq<Text>)
    ensures |parts| >= 1
  {
    if s == [] then [[]]
    else
      var rest := Split(s[1..], sep);
      if s[0] == sep then [[]] + rest else [[s[0]] + rest[0]] + rest[1..]
  }

  function Join(parts: seq<Text>, sep: Byte): Text
    requires |parts| >= 1
  {
    if |parts| == 1 then parts[0] else parts[0] + [sep] + Join(parts[1..], sep)
  }

  lemma {:induction false} SplitFirst(part: Text, tail: Text, sep: Byte)
    requires sep !in part
    ensures Split(part, sep) == [part]
    ensures Split(part + [sep] + tail, sep) == [part] + Split(tail, sep)
  {
    if part == [] {
      assert (part + [sep] + tail)[1..] == tail;
    } else {
      SplitFirst(part[1..], tail, sep);
      assert (part + [sep] + tail)[1..] == part[1..] + [sep] + tail;
      assert part == [part[0]] + part[1..];
    }
  }

  /** Splitting undoes joining when no part contains the separator. */
  lemma {:induction false} SplitJoin(parts: seq<Text>, sep: Byte)
    requires |parts| >= 1
    requires forall i :: 0 <= i < |parts| ==> sep !in parts[i]
    ensures Split(Join(parts, sep), sep) == parts
  {
    if |parts| == 1 {
      SplitFirst(parts[0], [], sep);
    } else {
      SplitJoin(parts[1..], sep);
      SplitFirst(parts[0], Join(parts[1..], sep), sep);
      assert parts == [parts[0]] + parts[1..];
    }
  }

  /** Joining one more part is appending a separator and the part. */
  lemma {:induction false} JoinSnoc(parts: seq<Text>, last: Text, sep: Byte)
    requires |parts| >= 1
    ensures Join(parts + [last], sep) == Join(parts, sep) + [sep] + last
  {
    if |parts| > 1 {
      assert (parts + [last])[1..] == parts[1..] + [last];
      JoinSnoc(parts[1..], last, sep);
    }
  }

  function TrimRight(s: Text, c: Byte): (t: Text)
    ensures t <= s
    ensures t != [] ==> t[|t| - 1] != c
    ensures forall i :: |t| <= i < |s| ==> s[i] == c
  {
    if s == [] || s[|s| - 1] != c then s
    else
      var t := TrimRight(s[..|s| - 1], c);
      assert t <= s[..|s| - 1] <= s;
      t
  }

  /** strings.Repeat of one character. */
  function Repeat(c: Byte, n: nat): (s: Text)
    ensures |s| == n && forall i :: 0 <= i < n ==> s[i] == c
  {
    seq(n, i => c)
  }

  lemma {:induction false} TrimRightUnique(t: Text, c: Byte, n: nat)
    requires t == [] || t[|t| - 1] != c
    ensures TrimRight(t + Repeat(c, n), c) == t
  {
    if n > 0 {
      var s := t + Repeat(c, n);
      assert s[..|s| - 1] == t + Repeat(c, n - 1);
      TrimRightUnique(t, c, n - 1);
    } else {
      assert t + Repeat(c, 0) == t;
    }
  }
}
