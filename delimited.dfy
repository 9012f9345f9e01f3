/**
 * The string primitives the catalog's text format is built from:
 * JavaScript's `String.prototype.split` with a one-character separator,
 * its inverse (joining pieces with the separator between them), and the
 * "each piece followed by a terminator" concatenation the exporter writes.
 */
module Delimited {

  /** Number of occurrences of `c` in `s`. */
  function Count(s: string, c: char): (n: nat)
    ensures n <= |s|
    ensures n == 0 <==> c !in s
  {
    if s == [] then 0
    else (if s[0] == c then 1 else 0) + Count(s[1..], c)
  }

  /**
   * `s.split(sep)`: the maximal separator-free pieces of `s`, in order.
   * There is always one more piece than there are separators, so the
   * empty string splits into a single empty piece.
   */
  function Split(s: string, sep: char): (r: seq<string>)
    ensures |r| == Count(s, sep) + 1
    ensures forall i :: 0 <= i < |r| ==> sep !in r[i]
  {
    if s == [] then [""]
    else
      var rest := Split(s[1..], sep);
      if s[0] == sep then [""] + rest
      else [[s[0]] + rest[0]] + rest[1..]
  }

  /** The pieces with one separator between each neighbouring pair. */
  function Join(pieces: seq<string>, sep: char): string
    requires |pieces| > 0
  {
    if |pieces| == 1 then pieces[0]
    else pieces[0] + [sep] + Join(pieces[1..], sep)
  }

  /** The pieces, each followed by the terminator `t`. */
  function Terminated(pieces: seq<string>, t: char): (s: string)
    ensures s == [] <==> pieces == []
    ensures pieces != [] ==> s[|s| - 1] == t
  {
    if pieces == [] then ""
    else pieces[0] + [t] + Terminated(pieces[1..], t)
  }

  /** True when no piece contains `c`. */
  predicate NoneContains(pieces: seq<string>, c: char)
  {
    forall i :: 0 <= i < |pieces| ==> c !in pieces[i]
  }

  /** Splitting undoes joining, whatever the string. */
  lemma {:induction false} JoinSplit(s: string, sep: char)
    ensures Join(Split(s, sep), sep) == s
  {
    if s != [] {
      JoinSplit(s[1..], sep);
      var rest := Split(s[1..], sep);
      if s[0] != sep {
        if |rest| == 1 {
        } else {
          assert rest == [rest[0]] + rest[1..];
        }
      }
    }
  }

  /** Joining undoes splitting when no piece holds the separator. */
  lemma {:induction false} SplitJoin(pieces: seq<string>, sep: char)
    requires |pieces| > 0
    requires NoneContains(pieces, sep)
    ensures Split(Join(pieces, sep), sep) == pieces
  {
    if |pieces| == 1 {
      SplitFree(pieces[0], sep);
    } else {
      SplitJoin(pieces[1..], sep);
      SplitPrefix(pieces[0], Join(pieces[1..], sep), sep);
      assert pieces == [pieces[0]] + pieces[1..];
    }
  }

  /** A separator-free string splits into itself. */
  lemma {:induction false} SplitFree(s: string, sep: char)
    requires sep !in s
    ensures Split(s, sep) == [s]
  {
    if s != [] {
      SplitFree(s[1..], sep);
      assert [s[0]] + s[1..] == s;
    }
  }

  /** A separator-free prefix followed by a separator becomes the first piece. */
  lemma {:induction false} SplitPrefix(p: string, rest: string, sep: char)
    requires sep !in p
    ensures Split(p + [sep] + rest, sep) == [p] + Split(rest, sep)
  {
    if p == [] {
      assert p + [sep] + rest == [sep] + rest;
      assert ([sep] + rest)[1..] == rest;
    } else {
      assert (p + [sep] + rest)[0] == p[0];
      assert (p + [sep] + rest)[1..] == p[1..] + [sep] + rest;
      SplitPrefix(p[1..], rest, sep);
      assert [p[0]] + p[1..] == p;
    }
  }

  /** Terminating every piece is joining them with an extra empty last piece. */
  lemma {:induction false} TerminatedIsJoin(pieces: seq<string>, t: char)
    ensures Terminated(pieces, t) == Join(pieces + [""], t)
  {
    if pieces != [] {
      TerminatedIsJoin(pieces[1..], t);
      assert (pieces + [""])[1..] == pieces[1..] + [""];
    }
  }

  /** Splitting terminated pieces gives the pieces back plus one empty trailing piece. */
  lemma SplitTerminated(pieces: seq<string>, t: char)
    requires NoneContains(pieces, t)
    ensures Split(Terminated(pieces, t), t) == pieces + [""]
  {
    TerminatedIsJoin(pieces, t);
    SplitJoin(pieces + [""], t);
  }

  /** A separator at the very end adds one empty last piece. */
  lemma {:induction false} SplitTrailing(s: string, sep: char)
    ensures Split(s + [sep], sep) == Split(s, sep) + [""]
  {
    if s == [] {
      assert [] + [sep] == [sep];
    } else {
      assert (s + [sep])[1..] == s[1..] + [sep];
      SplitTrailing(s[1..], sep);
    }
  }

  /** Appending one more piece appends it and its terminator. */
  lemma {:induction false} TerminatedSnoc(pieces: seq<string>, p: string, t: char)
    ensures Terminated(pieces + [p], t) == Terminated(pieces, t) + p + [t]
  {
    if pieces == [] {
      assert [] + [p] == [p];
    } else {
      assert (pieces + [p])[0] == pieces[0];
      assert (pieces + [p])[1..] == pieces[1..] + [p];
      TerminatedSnoc(pieces[1..], p, t);
    }
  }

  /** Terminating pieces with `t` adds no character `c` other than `t`. */
  lemma {:induction false} TerminatedFree(pieces: seq<string>, t: char, c: char)
    requires c != t && NoneContains(pieces, c)
    ensures c !in Terminated(pieces, t)
  {
    if pieces != [] {
      TerminatedFree(pieces[1..], t, c);
    }
  }
}
