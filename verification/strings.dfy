/** String helpers with Python `str` semantics: `find`, `split`, `join`,
    and the reversal performed by `deque.extendleft`. */
module Strings {
  import opened Wrappers

  /** `needle` occurs in `hay` starting at index `i`. */
  predicate OccursAt(needle: string, hay: string, i: nat) {
    i + |needle| <= |hay| && hay[i..i + |needle|] == needle
  }

  /** `needle` occurs nowhere in `hay`. */
  predicate Free(needle: string, hay: string) {
    forall j: nat :: j <= |hay| ==> !OccursAt(needle, hay, j)
  }

  /** Start of the leftmost occurrence of `needle` in `hay` at or after `from`. */
  function IndexFrom(needle: string, hay: string, from: nat): (r: Option<nat>)
    ensures r.Some? ==> from <= r.value && OccursAt(needle, hay, r.value)
    ensures r.Some? ==> forall j: nat :: from <= j < r.value ==> !OccursAt(needle, hay, j)
    ensures r.None? ==> forall j: nat :: from <= j ==> !OccursAt(needle, hay, j)
    decreases |hay| - from
  {
    if from + |needle| > |hay| then None
    else if hay[from..from + |needle|] == needle then Some(from)
    else IndexFrom(needle, hay, from + 1)
  }

  /** Start of the leftmost occurrence of `needle` in `hay` (Python `str.find`). */
  function IndexOf(needle: string, hay: string): (r: Option<nat>)
    ensures r.Some? ==> OccursAt(needle, hay, r.value)
    ensures r.Some? ==> forall j: nat :: j < r.value ==> !OccursAt(needle, hay, j)
    ensures r.None? <==> Free(needle, hay)
  {
    IndexFrom(needle, hay, 0)
  }

  /** An occurrence inside a prefix of `hay` is an occurrence in `hay`. */
  lemma OccursInPrefix(needle: string, hay: string, k: nat, j: nat)
    requires k <= |hay|
    requires OccursAt(needle, hay[..k], j)
    ensures OccursAt(needle, hay, j) && j + |needle| <= k
  {
    assert hay[..k][j..j + |needle|] == hay[j..j + |needle|];
  }

  /** Python `s.split(sep)` for a non-empty separator: the pieces between
      the non-overlapping occurrences of `sep`, scanned left to right. */
  function Split(s: string, sep: string): (parts: seq<string>)
    requires |sep| > 0
    ensures |parts| >= 1
    decreases |s|
  {
    match IndexOf(sep, s)
    case None => [s]
    case Some(i) => [s[..i]] + Split(s[i + |sep|..], sep)
  }

  /** Python `sep.join(parts)`. */
  function Join(parts: seq<string>, sep: string): string {
    if |parts| == 0 then ""
    else if |parts| == 1 then parts[0]
    else parts[0] + sep + Join(parts[1..], sep)
  }

  /** Python `''.join(parts)`. */
  function Concat(parts: seq<string>): (r: string)
    ensures |parts| == 1 ==> r == parts[0]
  {
    if parts == [] then "" else parts[0] + Concat(parts[1..])
  }

  lemma {:induction false} ConcatAppend(a: seq<string>, b: seq<string>)
    ensures Concat(a + b) == Concat(a) + Concat(b)
    decreases |a|
  {
    if a == [] {
      assert a + b == b;
    } else {
      assert (a + b)[1..] == a[1..] + b;
      ConcatAppend(a[1..], b);
    }
  }

  /** Joining the pieces of a split with the same separator gives back the
      original text. */
  lemma {:induction false} JoinSplit(s: string, sep: string)
    requires |sep| > 0
    ensures Join(Split(s, sep), sep) == s
    decreases |s|
  {
    var found := IndexOf(sep, s);
    if found.Some? {
      var i := found.value;
      var rest := s[i + |sep|..];
      var tail := Split(rest, sep);
      JoinSplit(rest, sep);
      assert Split(s, sep) == [s[..i]] + tail;
      JoinCons(s[..i], tail, sep);
      assert s[i..i + |sep|] == sep;
      assert s == s[..i] + s[i..i + |sep|] + rest;
    }
  }

  lemma JoinCons(x: string, tail: seq<string>, sep: string)
    requires |tail| >= 1
    ensures Join([x] + tail, sep) == x + sep + Join(tail, sep)
  {
    assert ([x] + tail)[1..] == tail;
  }

  /** No piece of a split contains the separator. */
  lemma {:induction false} SplitPiecesFree(s: string, sep: string)
    requires |sep| > 0
    ensures forall k :: 0 <= k < |Split(s, sep)| ==> Free(sep, Split(s, sep)[k])
    decreases |s|
  {
    match IndexOf(sep, s)
    case None =>
    case Some(i) =>
      var rest := s[i + |sep|..];
      SplitPiecesFree(rest, sep);
      forall j: nat
        ensures !OccursAt(sep, s[..i], j)
      {
        if OccursAt(sep, s[..i], j) {
          OccursInPrefix(sep, s, i, j);
          assert false;
        }
      }
      assert Split(s, sep)[1..] == Split(rest, sep);
  }

  /** For a one-character separator, splitting is the exact inverse of
      joining separator-free pieces. */
  lemma {:induction false} SplitJoin(parts: seq<string>, c: char)
    requires |parts| >= 1
    requires forall k :: 0 <= k < |parts| ==> c !in parts[k]
    ensures Split(Join(parts, [c]), [c]) == parts
    decreases |parts|
  {
    var sep := [c];
    var p0 := parts[0];
    if |parts| == 1 {
      forall j: nat | j <= |p0|
        ensures !OccursAt(sep, p0, j)
      {
        if j < |p0| {
          assert p0[j] in p0;
        }
      }
    } else {
      var rest := Join(parts[1..], sep);
      var s := p0 + sep + rest;
      assert OccursAt(sep, s, |p0|) by {
        assert s[|p0|..|p0| + 1] == sep;
      }
      match IndexOf(sep, s)
      case None =>
        assert false;
      case Some(i) =>
        assert forall j :: 0 <= j < |p0| ==> s[j] == p0[j] && p0[j] in p0;
        assert s[i..i + 1] == sep;
        assert i == |p0|;
        assert s[..i] == p0;
        assert s[i + 1..] == rest;
        SplitJoin(parts[1..], c);
        assert parts == [p0] + parts[1..];
    }
  }

  lemma Assoc<T>(x: seq<T>, y: seq<T>, z: seq<T>)
    ensures (x + y) + z == x + (y + z)
  {
  }

  /** The reversal `deque.extendleft` applies to the items it pushes. */
  function Reverse<T>(s: seq<T>): (r: seq<T>)
    ensures |r| == |s|
    ensures forall i :: 0 <= i < |s| ==> r[i] == s[|s| - 1 - i]
  {
    if s == [] then [] else Reverse(s[1..]) + [s[0]]
  }

  lemma ReverseConcat<T>(a: seq<T>, b: seq<T>)
    ensures Reverse(a + b) == Reverse(b) + Reverse(a)
  {
    var l, r := Reverse(a + b), Reverse(b) + Reverse(a);
    assert |l| == |r|;
    forall i | 0 <= i < |l|
      ensures l[i] == r[i]
    {
      if i < |b| {
        assert l[i] == (a + b)[|a| + |b| - 1 - i];
      } else {
        assert l[i] == (a + b)[|a| + |b| - 1 - i];
      }
    }
  }

  lemma ReverseMembers<T>(s: seq<T>, x: T)
    ensures x in Reverse(s) <==> x in s
  {
    var r := Reverse(s);
    if x in s {
      var i :| 0 <= i < |s| && s[i] == x;
      assert r[|s| - 1 - i] == x;
    }
    if x in r {
      var i :| 0 <= i < |r| && r[i] == x;
      assert s[|s| - 1 - i] == x;
    }
  }
}
