/**
 * The string operations the checker relies on: finding a character,
 * `str.split(sep, 1)` (split once), `str.split(sep)` and `sep.join(parts)`.
 * Strings are sequences of characters; a missing separator is a `None`
 * where Python raises on tuple unpacking.
 */
module Strings {
  import opened Wrappers

  /** Position of the first `c` in `s`, or `|s|` when `s` has none. */
  function IndexOf(s: string, c: char): (i: nat)
    ensures i <= |s|
    ensures i < |s| ==> s[i] == c
    ensures forall j :: 0 <= j < i ==> s[j] != c
    ensures i == |s| <==> c !in s
  {
    if s == [] then 0
    else if s[0] == c then 0
    else 1 + IndexOf(s[1..], c)
  }

  /**
   * `s.split(c, 1)` unpacked into two names: the text before the first `c`
   * and the text after it, or `None` when `s` holds no `c` (Python then has
   * one field only and the unpacking raises).
   */
  function SplitOnce(s: string, c: char): Option<(string, string)> {
    var i := IndexOf(s, c);
    if i == |s| then None else Some((s[..i], s[i + 1..]))
  }

  /**
   * A split succeeds exactly when the separator occurs; the first field is
   * then separator-free and the fields around the separator rebuild `s`.
   */
  lemma SplitOnceSpec(s: string, c: char)
    ensures SplitOnce(s, c).None? <==> c !in s
    ensures SplitOnce(s, c).Some? ==>
              var (head, tail) := SplitOnce(s, c).value;
              c !in head && s == head + [c] + tail
  {
    var i := IndexOf(s, c);
    if i < |s| {
      assert s == s[..i] + [c] + s[i + 1..];
    }
  }

  /** Splitting just after a separator-free prefix gives back that prefix and the rest. */
  lemma SplitOnceAt(head: string, c: char, tail: string)
    requires c !in head
    ensures SplitOnce(head + [c] + tail, c) == Some((head, tail))
  {
    var s := head + [c] + tail;
    assert s[|head|] == c;
    var i := IndexOf(s, c);
    assert i == |head|;
    assert s[..i] == head;
    assert s[i + 1..] == tail;
  }

  /**
   * `s.split(sep)`: the maximal separator-free pieces of `s`, in order.
   * There is always one piece more than there are separators, so the
   * empty string gives `[""]` and a trailing separator gives a trailing `""`.
   */
  function Split(s: string, sep: char): (parts: seq<string>)
    ensures |parts| > 0
    decreases |s|
  {
    match SplitOnce(s, sep)
    case None => [s]
    case Some((head, tail)) => [head] + Split(tail, sep)
  }

  /** There is one piece more than there are separators. */
  lemma {:induction false} SplitCount(s: string, sep: char)
    ensures |Split(s, sep)| == multiset(s)[sep] + 1
    decreases |s|
  {
    SplitOnceSpec(s, sep);
    match SplitOnce(s, sep)
    case None =>
    case Some((head, tail)) =>
      SplitCount(tail, sep);
      assert multiset(s) == multiset(head) + multiset([sep]) + multiset(tail);
  }

  /** No piece holds the separator. */
  lemma {:induction false} SplitPiecesSeparatorFree(s: string, sep: char)
    ensures forall k :: 0 <= k < |Split(s, sep)| ==> sep !in Split(s, sep)[k]
    decreases |s|
  {
    SplitOnceSpec(s, sep);
    match SplitOnce(s, sep)
    case None =>
    case Some((head, tail)) =>
      SplitPiecesSeparatorFree(tail, sep);
      assert Split(s, sep) == [head] + Split(tail, sep);
  }

  /** The concatenation of all parts, with nothing between them. */
  function Concat(parts: seq<string>): string {
    if parts == [] then [] else parts[0] + Concat(parts[1..])
  }

  /**
   * `sep.join(parts)`: the parts with one `sep` between neighbours, so the
   * result holds the parts' own separators and `|parts| - 1` more.
   */
  function Join(parts: seq<string>, sep: char): string {
    if |parts| == 0 then []
    else if |parts| == 1 then parts[0]
    else parts[0] + [sep] + Join(parts[1..], sep)
  }

  /** A join holds the parts' own separators and one more between each two neighbours. */
  lemma {:induction false} JoinCount(parts: seq<string>, sep: char)
    requires |parts| > 0
    ensures multiset(Join(parts, sep))[sep] == multiset(Concat(parts))[sep] + |parts| - 1
  {
    if |parts| > 1 {
      JoinCount(parts[1..], sep);
      assert multiset(Join(parts, sep))
          == multiset(parts[0]) + multiset([sep]) + multiset(Join(parts[1..], sep));
      assert multiset(Concat(parts)) == multiset(parts[0]) + multiset(Concat(parts[1..]));
    }
  }

  /** Joining what was split gives the original string back. */
  lemma {:induction false} JoinSplit(s: string, sep: char)
    ensures Join(Split(s, sep), sep) == s
    decreases |s|
  {
    match SplitOnce(s, sep)
    case None =>
    case Some((head, tail)) =>
      JoinSplit(tail, sep);
      var rest := Split(tail, sep);
      assert Split(s, sep) == [head] + rest;
      assert ([head] + rest)[1..] == rest;
  }

  /** Splitting what was joined gives the parts back, when no part holds the separator. */
  lemma {:induction false} SplitJoin(parts: seq<string>, sep: char)
    requires |parts| > 0
    requires forall k :: 0 <= k < |parts| ==> sep !in parts[k]
    ensures Split(Join(parts, sep), sep) == parts
  {
    if |parts| == 1 {
      assert SplitOnce(parts[0], sep) == None;
    } else {
      SplitJoin(parts[1..], sep);
      SplitOnceAt(parts[0], sep, Join(parts[1..], sep));
    }
  }

  /** Splitting after a separator-free first piece. */
  lemma SplitCons(head: string, sep: char, tail: string)
    requires sep !in head
    ensures Split(head + [sep] + tail, sep) == [head] + Split(tail, sep)
  {
    SplitOnceAt(head, sep, tail);
  }

  /** A separator at the end adds one empty piece at the end. */
  lemma {:induction false} SplitTrailing(s: string, sep: char)
    ensures Split(s + [sep], sep) == Split(s, sep) + [[]]
    decreases |s|
  {
    SplitOnceSpec(s, sep);
    var once := SplitOnce(s, sep);
    var empty: string := [];
    if once.None? {
      assert s + [sep] == s + [sep] + empty;
      SplitCons(s, sep, empty);
      assert Split(empty, sep) == [empty];
    } else {
      var head, tail := once.value.0, once.value.1;
      SplitTrailing(tail, sep);
      Regroup(head, sep, tail, empty);
      assert s + [sep] == head + [sep] + (tail + [sep]);
      SplitCons(head, sep, tail + [sep]);
      SplitCons(head, sep, tail);
      PiecesAssoc([head], Split(tail, sep), [empty]);
    }
  }

  /** Lists of pieces regroup freely. */
  lemma PiecesAssoc(x: seq<string>, y: seq<string>, z: seq<string>)
    ensures x + (y + z) == x + y + z
  {
  }

  /** The separator after the first piece, seen from the front. */
  lemma Regroup(head: string, sep: char, tail: string, b: string)
    ensures (head + [sep] + tail) + [sep] + b == head + [sep] + (tail + [sep] + b)
  {
  }
}
