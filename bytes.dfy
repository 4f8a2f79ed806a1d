/** Bytes, and the splitting of a byte string into lines that the guest book
    reads its file with (Go's bytes.Split with the one-byte separator "\n"). */
module Bytes {

  newtype byte = b: int | 0 <= b < 256

  const LF: byte := 10  // '\n'
  const CR: byte := 13  // '\r'

  /** n zero bytes: what a freshly made Go byte slice of length n holds. */
  function Zeros(n: nat): (z: seq<byte>)
    ensures |z| == n && forall i | 0 <= i < n :: z[i] == 0
  {
    seq(n, _ => 0)
  }

  /** Number of occurrences of b in s. */
  function Count(s: seq<byte>, b: byte): nat
  {
    if s == [] then 0 else (if s[0] == b then 1 else 0) + Count(s[1..], b)
  }

  /** The pieces of s between line feeds, in order: one more piece than s has
      line feeds, so the empty string gives one empty piece and a trailing
      line feed gives a trailing empty piece. */
  function Split(s: seq<byte>): (pieces: seq<seq<byte>>)
    ensures |pieces| >= 1
  {
    if s == [] then [[]]
    else
      var t := Split(s[1..]);
      if s[0] == LF then [[]] + t else [[s[0]] + t[0]] + t[1..]
  }

  /** The inverse of Split: the pieces glued back together with line feeds. */
  function Join(pieces: seq<seq<byte>>): seq<byte>
  {
    if pieces == [] then []
    else if |pieces| == 1 then pieces[0]
    else pieces[0] + [LF] + Join(pieces[1..])
  }

  function Last<T>(s: seq<T>): T
    requires s != []
  {
    s[|s| - 1]
  }

  /** Gluing the pieces back together gives the input: Split loses nothing. */
  lemma {:induction false} JoinSplit(s: seq<byte>)
    ensures Join(Split(s)) == s
  {
    if s != [] {
      JoinSplit(s[1..]);
      var t := Split(s[1..]);
      if s[0] == LF {
        assert Split(s) == [[]] + t;
        assert s == [] + [LF] + s[1..];
      } else if |t| == 1 {
        assert Split(s) == [[s[0]] + t[0]];
      } else {
        assert Split(s) == [[s[0]] + t[0]] + t[1..];
        assert Join(t) == t[0] + [LF] + Join(t[1..]);
        assert ([[s[0]] + t[0]] + t[1..])[1..] == t[1..];
      }
    }
  }

  /** No piece holds a line feed. */
  lemma {:induction false} SplitHasNoLF(s: seq<byte>)
    ensures forall i | 0 <= i < |Split(s)| :: LF !in Split(s)[i]
  {
    if s != [] {
      SplitHasNoLF(s[1..]);
    }
  }

  /** There is exactly one more piece than there are line feeds. */
  lemma {:induction false} SplitCount(s: seq<byte>)
    ensures |Split(s)| == Count(s, LF) + 1
  {
    if s != [] {
      SplitCount(s[1..]);
    }
  }

  /** A line that holds no line feed, followed by a line feed, is split off
      as one piece. */
  lemma {:induction false} SplitLine(line: seq<byte>, rest: seq<byte>)
    requires LF !in line
    ensures Split(line + [LF] + rest) == [line] + Split(rest)
  {
    if line == [] {
      assert ([] + [LF] + rest)[1..] == rest;
    } else {
      SplitLine(line[1..], rest);
      assert (line + [LF] + rest)[1..] == line[1..] + [LF] + rest;
      assert [line[0]] + line[1..] == line;
    }
  }

  /** Splitting is the inverse of Join on pieces free of line feeds. */
  lemma {:induction false} SplitJoin(pieces: seq<seq<byte>>)
    requires |pieces| >= 1
    requires forall i | 0 <= i < |pieces| :: LF !in pieces[i]
    ensures Split(Join(pieces)) == pieces
  {
    if |pieces| == 1 {
      SplitLineFree(pieces[0]);
    } else {
      SplitJoin(pieces[1..]);
      SplitLine(pieces[0], Join(pieces[1..]));
    }
  }

  /** A string free of line feeds is a single piece. */
  lemma {:induction false} SplitLineFree(s: seq<byte>)
    requires LF !in s
    ensures Split(s) == [s]
  {
    if s != [] {
      SplitLineFree(s[1..]);
      assert [s[0]] + s[1..] == s;
    }
  }

  /** Appending a line-feed-free string and then a line feed extends the last
      piece by that string and starts one new, empty piece; all earlier pieces
      are unchanged. */
  lemma {:induction false} SplitAppendLine(s: seq<byte>, line: seq<byte>)
    requires LF !in line
    ensures var p := Split(s);
      Split(s + line + [LF]) == p[..|p| - 1] + [Last(p) + line, []]
  {
    if s == [] {
      SplitLine(line, []);
      assert [] + line + [LF] == line + [LF] + [];
      assert Split(s) == [[]];
      assert Last(Split(s)) + line == line;
    } else {
      SplitAppendLine(s[1..], line);
      assert (s + line + [LF])[1..] == s[1..] + line + [LF];
      assert (s + line + [LF])[0] == s[0];
      var t := Split(s[1..]);
      var u := Split(s[1..] + line + [LF]);
      if s[0] == LF {
        ExtendAfterHead([], t, Last(t) + line, []);
      } else {
        ExtendFirst(s[0], t, line);
      }
    }
  }

  /** The shapes of the two cases of SplitAppendLine, on the pieces alone. */
  lemma ExtendAfterHead<T>(h: T, t: seq<T>, x: T, y: T)
    requires t != []
    ensures [h] + (t[..|t| - 1] + [x, y]) == ([h] + t)[..|t|] + [x, y]
  {
    assert ([h] + t)[..|t|] == [h] + t[..|t| - 1];
  }

  lemma ExtendFirst(b: byte, t: seq<seq<byte>>, line: seq<byte>)
    requires t != []
    ensures var u := t[..|t| - 1] + [Last(t) + line, []];
      var p := [[b] + t[0]] + t[1..];
      [[b] + u[0]] + u[1..] == p[..|p| - 1] + [Last(p) + line, []]
  {
    if |t| == 1 {
      assert [b] + (t[0] + line) == [b] + t[0] + line;
    } else {
      var p := [[b] + t[0]] + t[1..];
      assert p[..|p| - 1] == [[b] + t[0]] + t[1..|t| - 1];
    }
  }
}
