/** Go's html.EscapeString, which the guest book applies to every entry it
    reads back: the five bytes & ' < > " become character references and every
    other byte is kept as it is. */
module Html {
  import opened Bytes

  const AMP: byte := 38   // '&'
  const APOS: byte := 39  // '\''
  const LT: byte := 60    // '<'
  const GT: byte := 62    // '>'
  const QUOT: byte := 34  // '"'

  const AMP_REF: seq<byte> := [38, 97, 109, 112, 59]  // "&amp;"
  const APOS_REF: seq<byte> := [38, 35, 51, 57, 59]   // "&#39;"
  const LT_REF: seq<byte> := [38, 108, 116, 59]       // "&lt;"
  const GT_REF: seq<byte> := [38, 103, 116, 59]       // "&gt;"
  const QUOT_REF: seq<byte> := [38, 35, 51, 52, 59]   // "&#34;"

  /** The bytes that would end an attribute value or start or end a tag. */
  predicate IsMarkup(b: byte)
  {
    b == APOS || b == LT || b == GT || b == QUOT
  }

  /** The bytes the escaper replaces. */
  predicate IsSpecial(b: byte)
  {
    b == AMP || IsMarkup(b)
  }

  /** The replacement of one byte: a character reference, which starts with
      '&' and holds no markup byte, for the five special bytes; the byte itself
      for every other. */
  function EscapeByte(b: byte): (r: seq<byte>)
    ensures !IsSpecial(b) ==> r == [b]
    ensures IsSpecial(b) ==> |r| >= 4 && r[0] == AMP
  {
    if b == AMP then AMP_REF
    else if b == APOS then APOS_REF
    else if b == LT then LT_REF
    else if b == GT then GT_REF
    else if b == QUOT then QUOT_REF
    else [b]
  }

  /** html.EscapeString: every byte replaced by its replacement, in order. */
  function Escape(s: seq<byte>): (r: seq<byte>)
    ensures |r| >= |s|
  {
    if s == [] then [] else EscapeByte(s[0]) + Escape(s[1..])
  }

  /** A replacement holds no markup byte: the references are made of '&', '#',
      letters, digits and ';'. */
  lemma EscapeByteHasNoMarkup(b: byte)
    ensures forall i | 0 <= i < |EscapeByte(b)| :: !IsMarkup(EscapeByte(b)[i])
  {
  }

  /** The escaped string holds no raw markup byte: no ' < > or ". */
  lemma {:induction false} EscapeHasNoMarkup(s: seq<byte>)
    ensures forall i | 0 <= i < |Escape(s)| :: !IsMarkup(Escape(s)[i])
  {
    if s != [] {
      EscapeHasNoMarkup(s[1..]);
      EscapeByteHasNoMarkup(s[0]);
      var e, r := EscapeByte(s[0]), Escape(s[1..]);
      assert Escape(s) == e + r;
      forall i | 0 <= i < |e + r| ensures !IsMarkup((e + r)[i]) {
        if i >= |e| {
          assert (e + r)[i] == r[i - |e|];
        }
      }
    }
  }

  /** Escaping works byte by byte, so it distributes over concatenation. */
  lemma {:induction false} EscapeAppend(a: seq<byte>, b: seq<byte>)
    ensures Escape(a + b) == Escape(a) + Escape(b)
  {
    if a == [] {
      assert a + b == b;
    } else {
      calc {
        Escape(a + b);
        { assert (a + b)[0] == a[0] && (a + b)[1..] == a[1..] + b; }
        EscapeByte(a[0]) + Escape(a[1..] + b);
        { EscapeAppend(a[1..], b); }
        EscapeByte(a[0]) + (Escape(a[1..]) + Escape(b));
        (EscapeByte(a[0]) + Escape(a[1..])) + Escape(b);
      }
    }
  }

  /** Escaping changes a string exactly when it holds a special byte. */
  lemma {:induction false} EscapeUnchangedIff(s: seq<byte>)
    ensures Escape(s) == s <==> forall i | 0 <= i < |s| :: !IsSpecial(s[i])
  {
    if s != [] {
      EscapeUnchangedIff(s[1..]);
      if IsSpecial(s[0]) {
        assert |Escape(s)| >= 4 + |s[1..]| > |s|;
      } else {
        assert Escape(s) == [s[0]] + Escape(s[1..]);
        assert s == [s[0]] + s[1..];
        if Escape(s) == s {
          assert Escape(s[1..]) == s[1..];
        }
        assert (forall i | 0 <= i < |s| :: !IsSpecial(s[i]))
          <==> (forall i | 0 <= i < |s[1..]| :: !IsSpecial(s[1..][i]));
      }
    }
  }

  /** Zero bytes, the filler of a decoding buffer, are not escaped. */
  lemma {:induction false} EscapeZeros(n: nat)
    ensures Escape(Zeros(n)) == Zeros(n)
  {
    EscapeUnchangedIff(Zeros(n));
  }

  /** The reference inverse of Escape: each of the five references becomes the
      byte it stands for; every other byte is kept. */
  function Unescape(s: seq<byte>): seq<byte>
  {
    if s == [] then []
    else if AMP_REF <= s then [AMP] + Unescape(s[|AMP_REF|..])
    else if APOS_REF <= s then [APOS] + Unescape(s[|APOS_REF|..])
    else if LT_REF <= s then [LT] + Unescape(s[|LT_REF|..])
    else if GT_REF <= s then [GT] + Unescape(s[|GT_REF|..])
    else if QUOT_REF <= s then [QUOT] + Unescape(s[|QUOT_REF|..])
    else [s[0]] + Unescape(s[1..])
  }

  lemma NotPrefix(p: seq<byte>, s: seq<byte>, k: nat)
    requires k < |p| && k < |s| && p[k] != s[k]
    ensures !(p <= s)
  {
  }

  /** Unescaping the replacement of one byte, followed by anything, gives that
      byte back first. */
  lemma UnescapeEscapeByte(b: byte, rest: seq<byte>)
    ensures Unescape(EscapeByte(b) + rest) == [b] + Unescape(rest)
  {
    var s := EscapeByte(b) + rest;
    var e := EscapeByte(b);
    assert s[..|e|] == e && s[|e|..] == rest;
    // the references differ from each other in their second or third byte
    if b == AMP {
      assert AMP_REF <= s;
    } else if b == APOS {
      NotPrefix(AMP_REF, s, 1);
      assert APOS_REF <= s;
    } else if b == LT {
      NotPrefix(AMP_REF, s, 1);
      NotPrefix(APOS_REF, s, 1);
      assert LT_REF <= s;
    } else if b == GT {
      NotPrefix(AMP_REF, s, 1);
      NotPrefix(APOS_REF, s, 1);
      NotPrefix(LT_REF, s, 1);
      assert GT_REF <= s;
    } else if b == QUOT {
      NotPrefix(AMP_REF, s, 1);
      NotPrefix(APOS_REF, s, 3);
      NotPrefix(LT_REF, s, 1);
      NotPrefix(GT_REF, s, 1);
      assert QUOT_REF <= s;
    } else {
      NotPrefix(AMP_REF, s, 0);
      NotPrefix(APOS_REF, s, 0);
      NotPrefix(LT_REF, s, 0);
      NotPrefix(GT_REF, s, 0);
      NotPrefix(QUOT_REF, s, 0);
      assert s[0] == b && s[1..] == rest;
    }
  }

  /** Escaping loses nothing: Unescape recovers the original bytes. */
  lemma {:induction false} UnescapeEscape(s: seq<byte>)
    ensures Unescape(Escape(s)) == s
  {
    if s != [] {
      UnescapeEscape(s[1..]);
      UnescapeEscapeByte(s[0], Escape(s[1..]));
      assert s == [s[0]] + s[1..];
    }
  }
}
