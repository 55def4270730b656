/**
 * The few Foundation string operations the router relies on, over `string`
 * (a sequence of characters): prefix test, first occurrence of a character,
 * and splitting on a one-character separator.
 */
module Text {

  /** `s` starts with `p` (Swift's `hasPrefix`). */
  predicate HasPrefix(s: string, p: string) {
    |p| <= |s| && s[..|p|] == p
  }

  /** Index of the first occurrence of `c` in `s` (the lower bound of Swift's `range(of:)`). */
  function IndexOf(s: string, c: char): (i: nat)
    requires c in s
    ensures i < |s| && s[i] == c
    ensures c !in s[..i]
  {
    if s[0] == c then 0
    else
      assert c in s[1..] by { var j :| 0 <= j < |s| && s[j] == c; assert s[1..][j - 1] == c; }
      var i := 1 + IndexOf(s[1..], c);
      assert s[..i] == [s[0]] + s[1..][..i - 1];
      i
  }

  /** The text before the first `c`, or all of `s` when `c` does not occur. */
  function Before(s: string, c: char): (r: string)
    ensures HasPrefix(s, r)
    ensures c !in r
    ensures c !in s ==> r == s
  {
    if c in s then s[..IndexOf(s, c)] else s
  }

  /** The text after the first `c`; empty when `c` does not occur. */
  function After(s: string, c: char): (r: string)
    ensures c in s ==> s == Before(s, c) + [c] + r
  {
    if c in s then s[IndexOf(s, c) + 1..] else ""
  }

  lemma {:induction false} FirstOccurrence(a: string, c: char, b: string)
    requires c !in a
    ensures c in a + [c] + b
    ensures IndexOf(a + [c] + b, c) == |a|
    ensures Before(a + [c] + b, c) == a && After(a + [c] + b, c) == b
  {
    var s := a + [c] + b;
    assert s[|a|] == c;
    var i := IndexOf(s, c);
    assert forall j :: 0 <= j < |a| ==> s[j] == a[j];
    assert i <= |a| ==> i == |a|;
    assert s[..|a|] == a;
    assert s[|a| + 1..] == b;
  }

  /**
   * The pieces of `s` between occurrences of `sep`, empty pieces included
   * (Foundation's `components(separatedBy:)` with a one-character separator):
   * the empty string gives one empty piece.
   */
  function Split(s: string, sep: char): (r: seq<string>)
    ensures |r| >= 1
    ensures forall i :: 0 <= i < |r| ==> sep !in r[i]
    decreases |s|
  {
    if s == [] then [[]]
    else
      var rest := Split(s[1..], sep);
      if s[0] == sep then [[]] + rest
      else
        assert forall i :: 1 <= i < |rest| ==> rest[1..][i - 1] == rest[i];
        [[s[0]] + rest[0]] + rest[1..]
  }

  /** The inverse of `Split`: the pieces glued back together with `sep`. */
  function Join(ps: seq<string>, sep: char): string
  {
    if |ps| <= 1 then (if ps == [] then "" else ps[0])
    else ps[0] + [sep] + Join(ps[1..], sep)
  }

  /** Joining a first piece to at least one more puts a separator after it. */
  lemma JoinCons(p: string, ps: seq<string>, sep: char)
    requires |ps| >= 1
    ensures Join([p] + ps, sep) == p + [sep] + Join(ps, sep)
  {
    assert ([p] + ps)[1..] == ps;
  }

  /** Joining one more piece at the end appends a separator and that piece. */
  lemma {:induction false} JoinSnoc(ps: seq<string>, p: string, sep: char)
    requires |ps| >= 1
    ensures Join(ps + [p], sep) == Join(ps, sep) + [sep] + p
    decreases |ps|
  {
    if |ps| == 1 {
      assert (ps + [p])[1..] == [p];
    } else {
      assert (ps + [p])[1..] == ps[1..] + [p];
      JoinSnoc(ps[1..], p, sep);
    }
  }

  /** One step of `Split`: a separator starts a new piece, another character joins the first piece. */
  lemma SplitCons(c: char, rest: string, sep: char)
    ensures var r := Split(rest, sep);
      Split([c] + rest, sep) == if c == sep then [[]] + r else [[c] + r[0]] + r[1..]
  {
    assert ([c] + rest)[0] == c && ([c] + rest)[1..] == rest;
  }

  /** Splitting loses nothing: joining the pieces gives the string back. */
  lemma {:induction false} JoinSplit(s: string, sep: char)
    ensures Join(Split(s, sep), sep) == s
    decreases |s|
  {
    if s != [] {
      var rest := Split(s[1..], sep);
      JoinSplit(s[1..], sep);
      if s[0] == sep {
        JoinCons([], rest, sep);
        assert s == [sep] + s[1..];
      } else {
        JoinHead(s[0], rest, sep);
        assert s == [s[0]] + s[1..];
      }
    }
  }

  lemma JoinHead(ch: char, ps: seq<string>, sep: char)
    requires |ps| >= 1
    ensures Join([[ch] + ps[0]] + ps[1..], sep) == [ch] + Join(ps, sep)
  {
    var qs := [[ch] + ps[0]] + ps[1..];
    if |ps| > 1 {
      assert qs[1..] == ps[1..];
    }
  }

  /** The text before a first separator is the first piece; the rest are the pieces after it. */
  lemma {:induction false} FirstPiece(a: string, b: string, sep: char)
    requires sep !in a
    ensures Split(a + [sep] + b, sep) == [a] + Split(b, sep)
    decreases |a|
  {
    if a == [] {
      assert a + [sep] + b == [sep] + b;
      SplitCons(sep, b, sep);
    } else {
      var x := a[1..];
      assert sep !in x by { assert forall j :: 0 <= j < |x| ==> x[j] == a[j + 1]; }
      FirstPiece(x, b, sep);
      FirstStep(a[0], x, b, sep);
      assert a == [a[0]] + x;
    }
  }

  lemma FirstStep(c: char, x: string, b: string, sep: char)
    requires c != sep
    requires Split(x + [sep] + b, sep) == [x] + Split(b, sep)
    ensures Split([c] + x + [sep] + b, sep) == [[c] + x] + Split(b, sep)
  {
    var t := x + [sep] + b;
    assert [c] + x + [sep] + b == [c] + t;
    SplitCons(c, t, sep);
  }

  /** Splitting is the inverse of joining pieces that contain no separator. */
  lemma {:induction false} SplitJoin(ps: seq<string>, sep: char)
    requires |ps| >= 1
    requires forall i :: 0 <= i < |ps| ==> sep !in ps[i]
    ensures Split(Join(ps, sep), sep) == ps
    decreases |ps|
  {
    if |ps| == 1 {
      SplitNoSeparator(ps[0], sep);
    } else {
      SplitJoin(ps[1..], sep);
      FirstPiece(ps[0], Join(ps[1..], sep), sep);
      assert [ps[0]] + ps[1..] == ps;
    }
  }

  /** A string without the separator is a single piece. */
  lemma {:induction false} SplitNoSeparator(s: string, sep: char)
    requires sep !in s
    ensures Split(s, sep) == [s]
    decreases |s|
  {
    if s != [] {
      assert sep !in s[1..] by { assert forall j :: 0 <= j < |s| - 1 ==> s[1..][j] == s[j + 1]; }
      SplitNoSeparator(s[1..], sep);
      assert s == [s[0]] + s[1..];
    }
  }

  /**
   * The first piece is the text before the first separator; there is a
   * second piece exactly when the separator occurs, and the pieces after the
   * first are those of the text after it.
   */
  lemma SplitHead(s: string, sep: char)
    ensures Split(s, sep)[0] == Before(s, sep)
    ensures |Split(s, sep)| >= 2 <==> sep in s
    ensures sep in s ==> Split(s, sep)[1..] == Split(After(s, sep), sep)
  {
    if sep in s {
      var a, b := Before(s, sep), After(s, sep);
      FirstPiece(a, b, sep);
    } else {
      SplitNoSeparator(s, sep);
    }
  }
}
