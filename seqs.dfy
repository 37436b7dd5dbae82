/**
 * Sequence utilities: concatenation, joining, and the left-to-right,
 * non-overlapping splitting of Rust's `str::split` with a literal pattern.
 */
module Seqs {

  /** Concatenation of a sequence of sequences, in order. */
  function Flatten<T>(ss: seq<seq<T>>): seq<T>
    decreases |ss|
  {
    if ss == [] then [] else ss[0] + Flatten(ss[1..])
  }

  /** Singletons of the elements of `s`, in order, concatenate back to `s`. */
  lemma {:induction false} FlattenSingletons<T>(ss: seq<seq<T>>, s: seq<T>)
    requires |ss| == |s| && forall i :: 0 <= i < |s| ==> ss[i] == [s[i]]
    ensures Flatten(ss) == s
    decreases |s|
  {
    if s != [] {
      FlattenSingletons(ss[1..], s[1..]);
      assert s == [s[0]] + s[1..];
    }
  }

  /** The parts with `sep` between each two consecutive parts (no leading or trailing `sep`). */
  function Join<T>(parts: seq<seq<T>>, sep: seq<T>): seq<T>
    decreases |parts|
  {
    if |parts| == 0 then []
    else if |parts| == 1 then parts[0]
    else parts[0] + sep + Join(parts[1..], sep)
  }

  /** Number of occurrences of `x` in `s`. */
  function Count<T(==)>(x: T, s: seq<T>): nat
    decreases |s|
  {
    if s == [] then 0 else (if s[0] == x then 1 else 0) + Count(x, s[1..])
  }

  lemma {:induction false} CountAppend<T>(x: T, a: seq<T>, b: seq<T>)
    ensures Count(x, a + b) == Count(x, a) + Count(x, b)
    decreases |a|
  {
    if a == [] {
      assert a + b == b;
    } else {
      assert (a + b)[1..] == a[1..] + b;
      CountAppend(x, a[1..], b);
    }
  }

  lemma {:induction false} CountAbsent<T>(x: T, s: seq<T>)
    requires x !in s
    ensures Count(x, s) == 0
    decreases |s|
  {
    if s != [] {
      assert s[0] != x;
      assert forall k :: 0 <= k < |s[1..]| ==> s[1..][k] == s[k + 1];
      CountAbsent(x, s[1..]);
    }
  }

  /** `sep` occurs in `s` starting at position `i`. */
  predicate MatchesAt<T(==)>(s: seq<T>, sep: seq<T>, i: nat)
  {
    i + |sep| <= |s| && s[i..i + |sep|] == sep
  }

  /** `sep` occurs somewhere in `s`. */
  predicate Contains<T(==)>(s: seq<T>, sep: seq<T>)
  {
    exists i: nat | i <= |s| :: MatchesAt(s, sep, i)
  }

  /**
   * Splits `s` at every occurrence of `sep`, found left to right without
   * overlap, as Rust's `str::split` does for a literal pattern: a match at the
   * current position cuts the current part; otherwise the current element
   * joins the current part.
   */
  function SplitOn<T(==)>(s: seq<T>, sep: seq<T>): (parts: seq<seq<T>>)
    requires sep != []
    ensures |parts| >= 1
    decreases |s|
  {
    if |s| < |sep| then [s]
    else if s[..|sep|] == sep then [[]] + SplitOn(s[|sep|..], sep)
    else
      var rest := SplitOn(s[1..], sep);
      [[s[0]] + rest[0]] + rest[1..]
  }

  lemma JoinPrepend<T>(x: seq<T>, parts: seq<seq<T>>, sep: seq<T>)
    requires |parts| >= 1
    ensures Join([x + parts[0]] + parts[1..], sep) == x + Join(parts, sep)
  {
    var ps := [x + parts[0]] + parts[1..];
    if |parts| > 1 {
      assert ps[1..] == parts[1..];
    }
  }

  /** Splitting loses nothing: joining the parts back with `sep` gives the input. */
  lemma {:induction false} JoinSplit<T>(s: seq<T>, sep: seq<T>)
    requires sep != []
    ensures Join(SplitOn(s, sep), sep) == s
    decreases |s|
  {
    if |s| < |sep| {
    } else if s[..|sep|] == sep {
      var tail := s[|sep|..];
      JoinSplit(tail, sep);
      var rest := SplitOn(tail, sep);
      var parts := [[]] + rest;
      assert parts[0] == [] && parts[1..] == rest;
      calc {
        Join(parts, sep);
        [] + sep + Join(rest, sep);
        sep + tail;
        s;
      }
    } else {
      JoinSplit(s[1..], sep);
      var rest := SplitOn(s[1..], sep);
      JoinPrepend([s[0]], rest, sep);
      assert s == [s[0]] + s[1..];
    }
  }

  /** A prefix free of the separator's first element is glued to the first part of what follows. */
  lemma {:induction false} SplitPrefix<T>(p: seq<T>, rest: seq<T>, sep: seq<T>)
    requires sep != [] && sep[0] !in p
    ensures var r := SplitOn(rest, sep); SplitOn(p + rest, sep) == [p + r[0]] + r[1..]
    decreases |p|
  {
    var r := SplitOn(rest, sep);
    var s := p + rest;
    if p == [] {
      assert s == rest;
      assert p + r[0] == r[0];
      assert [r[0]] + r[1..] == r;
    } else {
      assert s[1..] == p[1..] + rest;
      SplitPrefix(p[1..], rest, sep);
      var tail := SplitOn(s[1..], sep);
      assert tail == [p[1..] + r[0]] + r[1..];
      assert p == [p[0]] + p[1..];
      assert s[0] == p[0];
      if |s| < |sep| {
        assert tail == [s[1..]];
        assert s == [s[0]] + s[1..];
      } else {
        assert s[..|sep|][0] == p[0];
        assert p[0] != sep[0];
        assert SplitOn(s, sep) == [[s[0]] + tail[0]] + tail[1..];
        assert tail[0] == p[1..] + r[0];
        assert tail[1..] == r[1..];
        assert [s[0]] + (p[1..] + r[0]) == p + r[0];
      }
    }
  }

  /**
   * Joining parts that never contain the separator's first element and
   * splitting again gives the parts back.
   */
  lemma {:induction false} SplitJoin<T>(parts: seq<seq<T>>, sep: seq<T>)
    requires sep != [] && |parts| >= 1
    requires forall i :: 0 <= i < |parts| ==> sep[0] !in parts[i]
    ensures SplitOn(Join(parts, sep), sep) == parts
    decreases |parts|
  {
    if |parts| == 1 {
      SplitPrefix(parts[0], [], sep);
      assert parts[0] + [] == parts[0];
    } else {
      var tail := Join(parts[1..], sep);
      SplitJoin(parts[1..], sep);
      var s := sep + tail;
      assert s[..|sep|] == sep;
      assert s[|sep|..] == tail;
      assert SplitOn(s, sep) == [[]] + parts[1..];
      SplitPrefix(parts[0], s, sep);
      assert parts[0] + [] == parts[0];
      assert Join(parts, sep) == parts[0] + s;
      assert [parts[0]] + parts[1..] == parts;
    }
  }

  lemma ContainsTail<T>(s: seq<T>, sep: seq<T>)
    requires sep != [] && |s| >= |sep| && s[..|sep|] != sep
    ensures Contains(s, sep) <==> Contains(s[1..], sep)
  {
    if Contains(s, sep) {
      var i: nat :| i <= |s| && MatchesAt(s, sep, i);
      assert i != 0;
      assert s[1..][i - 1..i - 1 + |sep|] == s[i..i + |sep|];
      assert MatchesAt(s[1..], sep, i - 1);
    }
    if Contains(s[1..], sep) {
      var i: nat :| i <= |s[1..]| && MatchesAt(s[1..], sep, i);
      assert i + |sep| <= |s[1..]|;
      assert s[i + 1..i + 1 + |sep|] == s[1..][i..i + |sep|];
      assert MatchesAt(s, sep, i + 1);
    }
  }

  /** Splitting yields a single part exactly when the separator does not occur; that part is the input. */
  lemma {:induction false} SplitSingleIff<T>(s: seq<T>, sep: seq<T>)
    requires sep != []
    ensures |SplitOn(s, sep)| == 1 <==> !Contains(s, sep)
    ensures !Contains(s, sep) ==> SplitOn(s, sep) == [s]
    decreases |s|
  {
    if |s| < |sep| {
      assert forall i: nat | i <= |s| :: !MatchesAt(s, sep, i);
    } else if s[..|sep|] == sep {
      assert s[0..0 + |sep|] == sep;
      assert MatchesAt(s, sep, 0);
    } else {
      SplitSingleIff(s[1..], sep);
      ContainsTail(s, sep);
      assert s == [s[0]] + s[1..];
    }
  }

  /** A sequence without the separator's first element does not contain the separator. */
  lemma NotContains<T>(s: seq<T>, sep: seq<T>)
    requires sep != [] && sep[0] !in s
    ensures !Contains(s, sep)
  {
  }

  /** A sequence shorter than the separator cannot contain it. */
  lemma ShortNotContains<T>(u: seq<T>, sep: seq<T>)
    requires |u| < |sep|
    ensures !Contains(u, sep)
  {
  }

  /**
   * A nonempty prefix `u` of a sequence that does not start with the separator
   * contains the separator exactly when `u` without its first element does.
   */
  lemma PrefixContainsTail<T>(u: seq<T>, s: seq<T>, sep: seq<T>)
    requires sep != [] && u != [] && |u| <= |s| && s[..|u|] == u
    requires |s| >= |sep| && s[..|sep|] != sep
    ensures Contains(u, sep) <==> Contains(u[1..], sep)
  {
    if |u| < |sep| {
      ShortNotContains(u, sep);
      ShortNotContains(u[1..], sep);
    } else {
      assert u[..|sep|] == s[..|sep|];
      ContainsTail(u, sep);
    }
  }

  /** No part contains the separator. */
  predicate NoPartContains<T(==)>(parts: seq<seq<T>>, sep: seq<T>)
  {
    forall k :: 0 <= k < |parts| ==> !Contains(parts[k], sep)
  }

  /** No occurrence of the separator starts inside a part that a cut follows. */
  predicate NoPartStraddles<T(==)>(parts: seq<seq<T>>, sep: seq<T>)
    requires sep != []
  {
    forall k :: 0 <= k < |parts| - 1 ==> !Contains(parts[k] + sep[..|sep| - 1], sep)
  }

  /**
   * The cuts are leftmost and do not overlap: no part contains the
   * separator, and no part followed by all but the last element of the
   * separator does, so no occurrence of the separator starts inside a part.
   */
  lemma {:induction false} SplitLeftmost<T>(s: seq<T>, sep: seq<T>)
    requires sep != []
    ensures NoPartContains(SplitOn(s, sep), sep)
    ensures NoPartStraddles(SplitOn(s, sep), sep)
    decreases |s|
  {
    var parts := SplitOn(s, sep);
    if |s| < |sep| {
      ShortNotContains(s, sep);
    } else if s[..|sep|] == sep {
      var rest := SplitOn(s[|sep|..], sep);
      SplitLeftmost(s[|sep|..], sep);
      assert parts == [[]] + rest;
      forall k | 0 <= k < |parts|
        ensures !Contains(parts[k], sep)
      {
        if k == 0 { ShortNotContains(parts[0], sep); } else { assert parts[k] == rest[k - 1]; }
      }
      forall k | 0 <= k < |parts| - 1
        ensures !Contains(parts[k] + sep[..|sep| - 1], sep)
      {
        if k == 0 {
          ShortNotContains(parts[0] + sep[..|sep| - 1], sep);
        } else {
          assert parts[k] == rest[k - 1];
        }
      }
    } else {
      var rest := SplitOn(s[1..], sep);
      SplitLeftmost(s[1..], sep);
      var u := [s[0]] + rest[0];
      assert parts == [u] + rest[1..];
      assert u[1..] == rest[0];
      JoinSplit(s, sep);
      if |parts| == 1 {
        assert s == u;
      } else {
        assert s == u + sep + Join(parts[1..], sep);
      }
      assert s[..|u|] == u;
      PrefixContainsTail(u, s, sep);
      forall k | 0 <= k < |parts|
        ensures !Contains(parts[k], sep)
      {
        if k > 0 { assert parts[k] == rest[k]; }
      }
      forall k | 0 <= k < |parts| - 1
        ensures !Contains(parts[k] + sep[..|sep| - 1], sep)
      {
        if k == 0 {
          var w := u + sep[..|sep| - 1];
          assert s == u + sep + Join(parts[1..], sep);
          assert s[..|w|] == w;
          PrefixContainsTail(w, s, sep);
          assert w[1..] == rest[0] + sep[..|sep| - 1];
        } else {
          assert parts[k] == rest[k];
        }
      }
    }
  }

  /** With a one-element separator there is one more part than there are separators. */
  lemma {:induction false} SplitCount<T>(s: seq<T>, c: T)
    ensures |SplitOn(s, [c])| == Count(c, s) + 1
    decreases |s|
  {
    if s != [] {
      SplitCount(s[1..], c);
      assert s[..1] == [s[0]];
      assert s[1..] == s[|[c]|..];
    }
  }

  /** With a one-element separator, a trailing separator adds one empty last part. */
  lemma {:induction false} SplitTrailing<T>(s: seq<T>, c: T)
    ensures SplitOn(s + [c], [c]) == SplitOn(s, [c]) + [[]]
    decreases |s|
  {
    var t := s + [c];
    if s == [] {
      assert t == [c];
      assert t[..1] == [c];
      assert t[1..] == [];
    } else {
      assert t[..1] == [s[0]];
      assert t[1..] == s[1..] + [c];
      SplitTrailing(s[1..], c);
      if s[0] == c {
        assert s[..1] == [c];
        assert s[1..] == s[|[c]|..];
        assert t[1..] == t[|[c]|..];
      } else {
        assert s[..1] != [c];
      }
    }
  }
}
