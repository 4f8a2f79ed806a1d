/** The guest book: an append-only file of signatures, one line of standard
    base64 per signature. GuestBook.Write appends a line; GuestBook.Entries
    reads the file back, splits it into lines, decodes each line into a
    zero-filled buffer and HTML-escapes it. */
module Guestbook {
  import opened Bytes
  import Base64
  import Html

  /** The file at the guest book's path. It is not owned by the process: it
      may exist before the first write, and the first write that opens it
      creates it. */
  datatype FileState = Absent | Present(contents: seq<byte>)

  function Contents(f: FileState): seq<byte>
  {
    if f.Present? then f.contents else []
  }

  /** What the file system reports: a read of a file that does not exist, or
      an open for appending that it refuses. */
  datatype Error = NotExist | OpenFailed

  datatype Result<T> = Ok(value: T) | Err(error: Error)

  /** What one successful write appends: the encoding and one line feed. */
  function Line(data: seq<byte>): seq<byte>
  {
    Base64.Encode(data) + [LF]
  }

  /** The bytes a sequence of successful writes appends, oldest first. */
  function Log(writes: seq<seq<byte>>): seq<byte>
  {
    if writes == [] then [] else Log(writes[..|writes| - 1]) + Line(Last(writes))
  }

  /** A further write appends its line to the log. */
  lemma LogAppend(initial: seq<byte>, writes: seq<seq<byte>>, data: seq<byte>)
    ensures initial + Log(writes + [data]) == initial + Log(writes) + Base64.Encode(data) + [LF]
  {
    assert (writes + [data])[..|writes|] == writes;
    assert Log(writes + [data]) == Log(writes) + (Base64.Encode(data) + [LF]);
  }

  /** The buffer a line is decoded into: DecodedLen bytes, zero-filled, with
      the bytes Decode wrote at the front. The count Decode returns and its
      error are not looked at, so the zeros stay part of the buffer. */
  function DecodedLine(line: seq<byte>): (buf: seq<byte>)
    ensures |buf| == Base64.DecodedLen(|line|)
  {
    var d := Base64.Decode(line);
    d.out + Zeros(Base64.DecodedLen(|line|) - |d.out|)
  }

  /** A zero-filled buffer of DecodedLen bytes with the decoder's output
      written at its front holds the decoded line. */
  lemma FilledBuffer(line: seq<byte>, before: seq<byte>, after: seq<byte>, n: nat)
    requires |before| == |after| == Base64.DecodedLen(|line|)
    requires forall k | 0 <= k < |before| :: before[k] == 0
    requires n == |Base64.Decode(line).out|
    requires after[..n] == Base64.Decode(line).out && after[n..] == before[n..]
    ensures after == DecodedLine(line)
  {
    assert after == after[..n] + after[n..];
  }

  /** The entry shown for one line of the file. */
  function Entry(line: seq<byte>): seq<byte>
  {
    Html.Escape(DecodedLine(line))
  }

  /** The entries of a file's contents: one per line, in file order. */
  function Parse(contents: seq<byte>): seq<seq<byte>>
  {
    var lines := Split(contents);
    seq(|lines|, i requires 0 <= i < |lines| => Entry(lines[i]))
  }

  /** What reading the guest book gives for a state of its file. */
  function Listing(f: FileState): Result<seq<seq<byte>>>
  {
    match f
    case Absent => Err(NotExist)
    case Present(c) => Ok(Parse(c))
  }

  /** The entry that one write of data shows up as. */
  function Shown(data: seq<byte>): seq<byte>
  {
    Entry(Base64.Encode(data))
  }

  /** Decoding the line of a write gives back the data, followed by the zero
      bytes that fill the buffer up to whole groups of three. */
  lemma DecodedLineOfEncode(data: seq<byte>)
    ensures DecodedLine(Base64.Encode(data)) == data + Zeros(Base64.Fill(|data|))
  {
    Base64.DecodeEncode(data);
    Base64.DecodedLenOfEncode(data);
  }

  /** A write shows up as its data, escaped, followed by the zero bytes of the
      buffer's filler, which the escaper keeps. */
  lemma ShownIsEscapedData(data: seq<byte>)
    ensures Shown(data) == Html.Escape(data) + Zeros(Base64.Fill(|data|))
  {
    DecodedLineOfEncode(data);
    Html.EscapeAppend(data, Zeros(Base64.Fill(|data|)));
    Html.EscapeZeros(Base64.Fill(|data|));
  }

  /** The filler is no zero byte when the length of the data is a multiple of
      three, and two or one zero bytes otherwise. */
  lemma Filler(x: seq<byte>, e: seq<byte>, n: nat)
    requires x == e + Zeros(Base64.Fill(n))
    ensures n % 3 == 0 ==> x == e
    ensures n % 3 == 1 ==> x == e + [0, 0]
    ensures n % 3 == 2 ==> x == e + [0]
  {
    Base64.FillCases(n);
    assert Zeros(0) == [] && Zeros(1) == [0] && Zeros(2) == [0, 0];
    assert e + [] == e;
  }

  lemma ShownFiller(data: seq<byte>)
    ensures |data| % 3 == 0 ==> Shown(data) == Html.Escape(data)
    ensures |data| % 3 == 1 ==> Shown(data) == Html.Escape(data) + [0, 0]
    ensures |data| % 3 == 2 ==> Shown(data) == Html.Escape(data) + [0]
  {
    ShownIsEscapedData(data);
    Filler(Shown(data), Html.Escape(data), |data|);
  }

  /** An empty write is not skipped: it appends a bare line feed, and shows up
      as an empty entry. */
  lemma EmptyWrite()
    ensures Line([]) == [LF]
    ensures Shown([]) == []
  {
    ShownIsEscapedData([]);
  }

  /** A write adds exactly one line: the encoding completes the last piece of
      the file (empty when the file is empty or ends with a line feed), and the
      line feed starts a new, empty piece; every earlier piece stays as it is. */
  lemma WriteAddsOneLine(c: seq<byte>, data: seq<byte>)
    ensures var p := Split(c);
      Split(c + Line(data)) == p[..|p| - 1] + [Last(p) + Base64.Encode(data), []]
    ensures |Split(c + Line(data))| == |Split(c)| + 1
  {
    Base64.EncodeHasNoLineBreak(data);
    assert c + Line(data) == c + Base64.Encode(data) + [LF];
    SplitAppendLine(c, Base64.Encode(data));
  }

  /** The file ends with a line feed, or is empty, so that its last piece is
      empty: true of every log. */
  predicate EndsInLineFeed(c: seq<byte>)
  {
    c == [] || Last(c) == LF
  }

  lemma {:induction false} LogEndsInLineFeed(writes: seq<seq<byte>>)
    ensures EndsInLineFeed(Log(writes))
  {
  }

  lemma {:induction false} LastPieceEmpty(c: seq<byte>)
    requires EndsInLineFeed(c)
    ensures Last(Split(c)) == []
  {
    if c != [] {
      var p := c[..|c| - 1];
      assert c == p + [] + [LF];
      SplitAppendLine(p, []);
    }
  }

  /** The empty line, the one after the final line feed, shows up as the
      empty entry. */
  lemma EmptyEntry()
    ensures Entry([]) == []
  {
    assert DecodedLine([]) == [];
  }

  /** On a file that ends with a line feed, a write replaces the trailing empty
      entry by the written data's entry and adds a new trailing empty entry. */
  lemma ParseAfterWrite(c: seq<byte>, data: seq<byte>)
    requires EndsInLineFeed(c)
    ensures var e := Parse(c);
      Parse(c + Line(data)) == e[..|e| - 1] + [Shown(data), []]
  {
    var p := Split(c);
    WriteAddsOneLine(c, data);
    LastPieceEmpty(c);
    EmptyEntry();
    var q := Split(c + Line(data));
    var e, r := Parse(c), Parse(c + Line(data));
    var want := e[..|e| - 1] + [Shown(data), []];
    assert |r| == |want|;
    forall i | 0 <= i < |r| ensures r[i] == want[i] {
      if i < |p| - 1 {
        assert q[i] == p[i];
      } else if i == |p| - 1 {
        assert q[i] == Last(p) + Base64.Encode(data) == Base64.Encode(data);
      } else {
        assert q[i] == [];
      }
    }
  }

  /** The lines of a log: one per write, the encoding of its data, in the
      order of the writes, and a final empty line. */
  lemma {:induction false} SplitLog(writes: seq<seq<byte>>)
    ensures |Split(Log(writes))| == |writes| + 1
    ensures forall i | 0 <= i < |writes| :: Split(Log(writes))[i] == Base64.Encode(writes[i])
    ensures Last(Split(Log(writes))) == []
  {
    if writes == [] {
      assert Split([]) == [[]];
    } else {
      var n := |writes| - 1;
      var before := writes[..n];
      SplitLog(before);
      LogEndsInLineFeed(before);
      LastPieceEmpty(Log(before));
      WriteAddsOneLine(Log(before), writes[n]);
      assert Log(writes) == Log(before) + Line(writes[n]);
      var p := Split(Log(before));
      assert Last(p) + Base64.Encode(writes[n]) == Base64.Encode(writes[n]);
      forall i | 0 <= i < |writes|
        ensures Split(Log(writes))[i] == Base64.Encode(writes[i])
      {
        if i < n {
          assert before[i] == writes[i];
        }
      }
    }
  }

  /** The entries of a guest book that started without a file: one per
      successful write, in the order of the writes (not reversed), each the
      entry of the data written, and a final empty entry from the trailing
      line feed. */
  lemma ParseLog(writes: seq<seq<byte>>)
    ensures |Parse(Log(writes))| == |writes| + 1
    ensures forall i | 0 <= i < |writes| :: Parse(Log(writes))[i] == Shown(writes[i])
    ensures Last(Parse(Log(writes))) == []
  {
    SplitLog(writes);
    EmptyEntry();
  }

  /** One line as Entries shows it: decoded into a fresh zero-filled buffer
      of DecodedLen bytes, whose whole content is then escaped. */
  method DecodeLine(v: seq<byte>) returns (e: seq<byte>)
    ensures e == Entry(v)
  {
    var buf := new byte[Base64.DecodedLen(|v|)](_ => 0);
    ghost var zeros := buf[..];
    // the count and the error Decode returns are not looked at
    var n, ok := Base64.DecodeInto(buf, v);
    FilledBuffer(v, zeros, buf[..], n);
    e := Html.Escape(buf[..]);
  }

  /** The guest book: the state of its file, and, for the proof only, what the
      file held when the guest book was made and the data of every successful
      write since, oldest first. */
  class GuestBook {
    var file: FileState
    ghost var initial: seq<byte>
    ghost var writes: seq<seq<byte>>

    /** The file only grows, by one line per successful write, and it exists
        once a write has succeeded. */
    ghost predicate Valid()
      reads this
    {
      && Contents(file) == initial + Log(writes)
      && (writes != [] ==> file.Present?)
    }

    constructor (f: FileState)
      ensures Valid()
      ensures file == f && initial == Contents(f) && writes == []
    {
      file := f;
      initial := Contents(f);
      writes := [];
    }

    /** Write: open the file for appending, creating it when it is absent and
        never truncating it; append the encoding of data and one line feed.
        The open is the only step whose failure is reported; the encoder's
        writes, its closing, the line feed and closing the file are taken to
        succeed. */
    method Write(data: seq<byte>) returns (r: Result<()>)
      requires Valid()
      modifies this
      ensures Valid() && initial == old(initial)
      ensures r.Err? ==> r.error == OpenFailed && file == old(file) && writes == old(writes)
      ensures r.Ok? ==> file == Present(Contents(old(file)) + Line(data))
      ensures r.Ok? ==> writes == old(writes) + [data]
    {
      // whether the file system grants the open is outside the model
      var granted: bool :| true;
      if !granted {
        return Err(OpenFailed);
      }
      LogAppend(initial, writes, data);
      if file.Absent? {
        file := Present([]);
      }
      file := Present(file.contents + Base64.Encode(data));
      file := Present(file.contents + [LF]);
      writes := writes + [data];
      return Ok(());
    }

    /** Entries: read the whole file, failing when it does not exist; split it
        on line feeds; decode each line into a fresh zero-filled buffer of
        DecodedLen bytes and escape that buffer. The file is not changed. */
    method Entries() returns (r: Result<seq<seq<byte>>>)
      // so the result is an error exactly when the file is absent
      ensures r == Listing(file)
    {
      if file.Absent? {
        return Err(NotExist);
      }
      var arr := Split(file.contents);
      ghost var e := Parse(file.contents);
      var ret := new seq<byte>[|arr|];
      for i := 0 to |arr|
        invariant ret[..i] == e[..i]
      {
        ret[i] := DecodeLine(arr[i]);
        assert ret[..i + 1] == ret[..i] + [e[i]];
      }
      assert ret[..] == ret[..|arr|] && e[..|arr|] == e;
      return Ok(ret[..]);
    }

    /** What Entries lists for a guest book that started without a file, or
        with an empty one, once its file exists: one entry per successful
        write, in the order of the writes, then the empty entry. */
    lemma ListingOfHistory()
      requires Valid() && initial == [] && file.Present?
      ensures var l := Listing(file);
        && l.Ok? && |l.value| == |writes| + 1
        && (forall i | 0 <= i < |writes| :: l.value[i] == Shown(writes[i]))
        && Last(l.value) == []
    {
      assert file.contents == Log(writes);
      ParseLog(writes);
    }

    /** Two reads with no write between them give the same result. */
    method ListTwice() returns (first: Result<seq<seq<byte>>>, second: Result<seq<seq<byte>>>)
      ensures first == second
    {
      first := Entries();
      second := Entries();
    }
  }

  /** The entries of one signature, and of two. */
  lemma ParseOne(a: seq<byte>)
    ensures Parse(Log([a])) == [Shown(a), []]
  {
    ParseLog([a]);
    Elements2(Parse(Log([a])));
  }

  lemma ParseTwo(a: seq<byte>, b: seq<byte>)
    ensures Parse(Log([a, b])) == [Shown(a), Shown(b), []]
  {
    ParseLog([a, b]);
    Elements3(Parse(Log([a, b])));
  }

  lemma Elements2<T>(e: seq<T>)
    requires |e| == 2
    ensures e == [e[0], e[1]]
  {
  }

  lemma Elements3<T>(e: seq<T>)
    requires |e| == 3
    ensures e == [e[0], e[1], e[2]]
  {
  }

  /** A guest book that starts without a file and takes two signatures lists
      the ones whose writes succeeded, in the order they were written, followed
      by the empty entry of the trailing line feed; when neither write
      succeeded there is no file to read. */
  method TwoSignatures(a: seq<byte>, b: seq<byte>)
    returns (wa: Result<()>, wb: Result<()>, listing: Result<seq<seq<byte>>>)
    ensures wa.Ok? && wb.Ok? ==> listing == Ok([Shown(a), Shown(b), []])
    ensures wa.Ok? && wb.Err? ==> listing == Ok([Shown(a), []])
    ensures wa.Err? && wb.Ok? ==> listing == Ok([Shown(b), []])
    ensures wa.Err? && wb.Err? ==> listing == Err(NotExist)
  {
    var gb := new GuestBook(Absent);
    wa := gb.Write(a);
    wb := gb.Write(b);
    listing := gb.Entries();
    if wa.Ok? && wb.Ok? {
      assert gb.writes == [a, b];
      ParseTwo(a, b);
    } else if wa.Ok? {
      assert gb.writes == [a];
      ParseOne(a);
    } else if wb.Ok? {
      assert gb.writes == [b];
      ParseOne(b);
    }
  }
}
