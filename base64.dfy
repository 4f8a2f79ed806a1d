/** The standard base64 encoding of section 4 of RFC 4648 (alphabet A-Z a-z 0-9
    + /, '=' padding), in the form of Go's encoding/base64 StdEncoding: the
    encoder the guest book writes its lines with, DecodedLen, and the decoder
    it reads them back with, including what that decoder does with input the
    encoder cannot have produced. */
module Base64 {
  import opened Bytes

  const PAD: byte := 61  // '='

  /** The decoding map's entry for a byte outside the alphabet. */
  const INVALID: int := 0xFF

  /** The symbol of a 6-bit value. */
  function Symbol(v: int): byte
    requires 0 <= v < 64
  {
    if v < 26 then (65 + v) as byte        // 'A'..'Z'
    else if v < 52 then (71 + v) as byte   // 'a'..'z'
    else if v < 62 then (v - 4) as byte    // '0'..'9'
    else if v == 62 then 43                // '+'
    else 47                                // '/'
  }

  /** The decoding map: the 6-bit value of a symbol, INVALID for any other byte. */
  function Value(c: byte): (v: int)
    ensures v == INVALID || 0 <= v < 64
  {
    if 65 <= c <= 90 then c as int - 65
    else if 97 <= c <= 122 then c as int - 71
    else if 48 <= c <= 57 then c as int + 4
    else if c == 43 then 62
    else if c == 47 then 63
    else INVALID
  }

  predicate IsSymbol(c: byte)
  {
    Value(c) != INVALID
  }

  /** Value inverts Symbol; padding and line breaks are no symbols. */
  lemma ValueOfSymbol(v: int)
    requires 0 <= v < 64
    ensures Value(Symbol(v)) == v
    ensures IsSymbol(Symbol(v)) && !IsSymbol(PAD) && !IsSymbol(LF) && !IsSymbol(CR)
  {
  }

  /** Symbol and Value are inverse bijections between 0..63 and the alphabet. */
  lemma SymbolOfValue(c: byte)
    requires IsSymbol(c)
    ensures Symbol(Value(c)) == c
  {
  }

  predicate Sextets(q: seq<int>)
  {
    forall i | 0 <= i < |q| :: 0 <= q[i] < 64
  }

  /** The three bytes of the 24 bits that four 6-bit values make up. */
  function DecodeGroup(q: seq<int>): (r: seq<byte>)
    requires |q| == 4 && Sextets(q)
    ensures |r| == 3
  {
    [ (q[0] * 4 + q[1] / 16) as byte,
      (q[1] % 16 * 16 + q[2] / 4) as byte,
      (q[2] % 4 * 64 + q[3]) as byte ]
  }

  /** The 24 bits of three bytes, six at a time, most significant first;
      DecodeGroup gives the bytes back, and zero bytes at the end give zero
      bits at the end. */
  function GroupValues(a: byte, b: byte, c: byte): (q: seq<int>)
    ensures |q| == 4 && Sextets(q)
  {
    [a as int / 4, a as int % 4 * 16 + b as int / 16, b as int % 16 * 4 + c as int / 64, c as int % 64]
  }

  /** DecodeGroup gives the three bytes back, and zero bytes at the end give
      zero bits at the end. */
  lemma GroupValuesDecode(a: byte, b: byte, c: byte)
    ensures DecodeGroup(GroupValues(a, b, c)) == [a, b, c]
    ensures c == 0 ==> GroupValues(a, b, c)[3] == 0
    ensures b == 0 && c == 0 ==> GroupValues(a, b, c)[2] == 0
  {
  }

  /** The four symbols of three bytes. */
  function EncodeGroup(a: byte, b: byte, c: byte): (r: seq<byte>)
    ensures |r| == 4
  {
    var q := GroupValues(a, b, c);
    [Symbol(q[0]), Symbol(q[1]), Symbol(q[2]), Symbol(q[3])]
  }

  lemma EncodeGroupSymbols(a: byte, b: byte, c: byte)
    ensures forall i | 0 <= i < 4 :: IsSymbol(EncodeGroup(a, b, c)[i])
  {
    var q := GroupValues(a, b, c);
    ValueOfSymbol(q[0]);
    ValueOfSymbol(q[1]);
    ValueOfSymbol(q[2]);
    ValueOfSymbol(q[3]);
  }

  /** The encoding: each group of three bytes becomes four symbols; a final
      group of one or two bytes is completed with zero bits, and its unused
      symbols are replaced by padding. */
  function Encode(d: seq<byte>): seq<byte>
    decreases |d|
  {
    if |d| == 0 then []
    else if |d| == 1 then EncodeGroup(d[0], 0, 0)[..2] + [PAD, PAD]
    else if |d| == 2 then EncodeGroup(d[0], d[1], 0)[..3] + [PAD]
    else EncodeGroup(d[0], d[1], d[2]) + Encode(d[3..])
  }

  /** Four symbols for every three bytes, the last group rounded up. */
  lemma {:induction false} EncodeLength(d: seq<byte>)
    ensures |Encode(d)| == 4 * ((|d| + 2) / 3)
    decreases |d|
  {
    if |d| >= 3 {
      EncodeLength(d[3..]);
      assert (|d| + 2) / 3 == (|d| - 3 + 2) / 3 + 1;
    }
  }

  /** The encoding consists of symbols and padding. */
  lemma {:induction false} EncodeAlphabet(d: seq<byte>)
    ensures forall i | 0 <= i < |Encode(d)| :: IsSymbol(Encode(d)[i]) || Encode(d)[i] == PAD
    decreases |d|
  {
    if |d| == 1 {
      EncodeGroupSymbols(d[0], 0, 0);
    } else if |d| == 2 {
      EncodeGroupSymbols(d[0], d[1], 0);
    } else if |d| >= 3 {
      EncodeAlphabet(d[3..]);
      EncodeGroupSymbols(d[0], d[1], d[2]);
      var g, r := EncodeGroup(d[0], d[1], d[2]), Encode(d[3..]);
      assert Encode(d) == g + r;
      forall i | 0 <= i < |g + r| ensures IsSymbol((g + r)[i]) || (g + r)[i] == PAD {
        if i >= 4 {
          assert (g + r)[i] == r[i - 4];
        }
      }
    }
  }

  /** The encoding holds neither line feeds nor carriage returns, so a line
      that ends with one line feed is exactly one piece of the file. */
  lemma EncodeHasNoLineBreak(d: seq<byte>)
    ensures LF !in Encode(d) && CR !in Encode(d)
  {
    EncodeAlphabet(d);
    ValueOfSymbol(0);
  }

  /** The size of the buffer the reader decodes an n-byte line into. */
  function DecodedLen(n: nat): nat
  {
    n / 4 * 3
  }

  /** The number of zero bits' bytes that complete n bytes to whole groups
      of three. */
  function Fill(n: nat): nat
  {
    (3 - n % 3) % 3
  }

  lemma FillCases(n: nat)
    ensures n % 3 == 0 ==> Fill(n) == 0
    ensures n % 3 == 1 ==> Fill(n) == 2
    ensures n % 3 == 2 ==> Fill(n) == 1
  {
  }

  /** For an encoding the buffer is the data rounded up to whole groups of
      three: exactly the data when its length is a multiple of three, two or
      one bytes more otherwise. */
  lemma DecodedLenOfEncode(d: seq<byte>)
    ensures DecodedLen(|Encode(d)|) == |d| + Fill(|d|)
  {
    EncodeLength(d);
    RoundUp(|d|);
  }

  lemma RoundUp(n: nat)
    ensures DecodedLen(4 * ((n + 2) / 3)) == n + Fill(n)
  {
    var k := (n + 2) / 3;
    assert (4 * k) / 4 == k;
  }

  /** One quantum writes at most three bytes, and only after reading at least
      four, so the bytes written stay within DecodedLen of what was read. */
  lemma DecodedLenStep(n: nat, r: nat, o: nat, t: nat)
    requires r < n && o <= 3 && (o > 0 ==> n - r >= 4) && t <= DecodedLen(r)
    ensures o + t <= DecodedLen(n)
  {
    assert DecodedLen(n - r) + DecodedLen(r) <= DecodedLen(n);
  }

  /** What one decoding step leaves: the input still to read, the bytes it
      wrote, and whether it succeeded. */
  datatype Step = Step(rest: seq<byte>, out: seq<byte>, ok: bool)

  /** What Decode leaves: the bytes written to the destination buffer, and
      whether decoding succeeded (false: Go's CorruptInputError). */
  datatype Decoded = Decoded(out: seq<byte>, ok: bool)

  /** s without its leading line feeds and carriage returns, which the decoder
      skips wherever they occur. */
  function SkipLineBreaks(s: seq<byte>): (t: seq<byte>)
    ensures |t| <= |s|
    ensures t != [] ==> t[0] != LF && t[0] != CR
  {
    if s != [] && (s[0] == LF || s[0] == CR) then SkipLineBreaks(s[1..]) else s
  }

  /** The end of the data after j = |acc| symbols and their padding: the rest
      may hold only line breaks; the bytes of the j symbols (the bits after
      them are zero) are written either way, j - 1 of them. */
  function Final(s: seq<byte>, acc: seq<int>): (st: Step)
    requires 2 <= |acc| <= 3 && Sextets(acc)
    ensures |st.rest| <= |s|
    ensures |st.out| == |acc| - 1
  {
    var t := SkipLineBreaks(s);
    var q := acc + seq(4 - |acc|, _ => 0);
    Step(t, DecodeGroup(q)[..|acc| - 1], t == [])
  }

  /** One quantum of the decoder, that has already collected the 6-bit values
      acc: it reads up to four symbols, skipping line breaks, and stops at the
      end of the input, at padding, or at a byte that is no symbol. */
  function DecodeQuantum(s: seq<byte>, acc: seq<int>): (st: Step)
    requires |acc| < 4 && Sextets(acc)
    ensures |st.rest| <= |s|
    ensures s != [] ==> |st.rest| < |s|
    ensures |st.out| <= 3
    ensures st.out != [] ==> |s| - |st.rest| + |acc| >= 4
    decreases |s|
  {
    if s == [] then
      // the input ends: fine between quanta, an error inside one
      Step([], [], acc == [])
    else
      var c := s[0];
      var v := Value(c);
      if v != INVALID then
        if |acc| == 3 then Step(s[1..], DecodeGroup(acc + [v]), true)
        else DecodeQuantum(s[1..], acc + [v])
      else if c == LF || c == CR then
        DecodeQuantum(s[1..], acc)
      else if c != PAD || |acc| < 2 then
        // a byte outside the alphabet, or padding after fewer than two symbols
        Step(s[1..], [], false)
      else if |acc| == 2 then
        // padding after two symbols must be "=="
        var t := SkipLineBreaks(s[1..]);
        if t == [] || t[0] != PAD then Step(t, [], false)
        else Final(t[1..], acc)
      else
        Final(s[1..], acc)
  }

  /** Go's Decode into a buffer: quantum after quantum until the input ends or
      a quantum fails; the bytes written before a failure stay written, and
      they never exceed DecodedLen of the input length. */
  function Decode(s: seq<byte>): (d: Decoded)
    ensures |d.out| <= DecodedLen(|s|)
    decreases |s|
  {
    if s == [] then Decoded([], true)
    else
      var st := DecodeQuantum(s, []);
      if !st.ok then
        DecodedLenStep(|s|, |st.rest|, |st.out|, 0);
        Decoded(st.out, false)
      else
        var rest := Decode(st.rest);
        DecodedLenStep(|s|, |st.rest|, |st.out|, |rest.out|);
        Decoded(st.out + rest.out, rest.ok)
  }

  /** Decode(dst, src): decodes src into the front of dst, which must have
      room for DecodedLen(|src|) bytes, and reports how many bytes it wrote and
      whether decoding succeeded; the rest of dst is left as it was. */
  method DecodeInto(dst: array<byte>, src: seq<byte>) returns (n: nat, ok: bool)
    requires DecodedLen(|src|) <= dst.Length
    modifies dst
    ensures n == |Decode(src).out| && ok == Decode(src).ok
    ensures dst[..n] == Decode(src).out
    ensures dst[n..] == old(dst[n..])
  {
    var d := Decode(src);
    for j := 0 to |d.out|
      invariant dst[..j] == d.out[..j]
      invariant dst[j..] == old(dst[j..])
    {
      dst[j] := d.out[j];
    }
    return |d.out|, d.ok;
  }

  /** A symbol inside a quantum is collected and decoding goes on. */
  lemma QuantumCollects(s: seq<byte>, acc: seq<int>)
    requires s != [] && IsSymbol(s[0]) && |acc| < 3 && Sextets(acc)
    ensures DecodeQuantum(s, acc) == DecodeQuantum(s[1..], acc + [Value(s[0])])
  {
  }

  /** Decoding one group of four symbols gives back its three bytes. */
  lemma DecodeEncodeGroup(a: byte, b: byte, c: byte, rest: seq<byte>)
    ensures DecodeQuantum(EncodeGroup(a, b, c) + rest, []) == Step(rest, [a, b, c], true)
  {
    var s := EncodeGroup(a, b, c) + rest;
    var q := GroupValues(a, b, c);
    GroupValuesDecode(a, b, c);
    ValueOfSymbol(q[0]);
    ValueOfSymbol(q[1]);
    ValueOfSymbol(q[2]);
    ValueOfSymbol(q[3]);
    var s1, s2, s3 := s[1..], s[2..], s[3..];
    assert s[0] == Symbol(q[0]) && s1[0] == Symbol(q[1]) && s2[0] == Symbol(q[2]) && s3[0] == Symbol(q[3]);
    assert s1[1..] == s2 && s2[1..] == s3 && s3[1..] == rest;
    QuantumCollects(s, []);
    QuantumCollects(s1, q[..1]);
    QuantumCollects(s2, q[..2]);
    assert [] + [q[0]] == q[..1] && q[..1] + [q[1]] == q[..2] && q[..2] + [q[2]] == q[..3];
    assert q[..3] + [q[3]] == q;
  }

  /** Padding "==" after two symbols, or "=" after three, ends the data. */
  lemma QuantumPadding(acc: seq<int>, s: seq<byte>)
    requires 2 <= |acc| <= 3 && Sextets(acc)
    requires s == (if |acc| == 2 then [PAD, PAD] else [PAD])
    ensures DecodeQuantum(s, acc) == Step([], DecodeGroup(acc + seq(4 - |acc|, _ => 0))[..|acc| - 1], true)
  {
    assert SkipLineBreaks([PAD]) == [PAD];
    assert DecodeQuantum(s, acc) == Final([], acc);
  }

  /** Decoding the encoding of a single final byte ("xx==") gives it back. */
  lemma DecodeEncodeOne(a: byte)
    ensures DecodeQuantum(Encode([a]), []) == Step([], [a], true)
  {
    var s := Encode([a]);
    var q := GroupValues(a, 0, 0);
    GroupValuesDecode(a, 0, 0);
    ValueOfSymbol(q[0]);
    ValueOfSymbol(q[1]);
    var s1, s2 := s[1..], s[2..];
    assert s[0] == Symbol(q[0]) && s1[0] == Symbol(q[1]);
    assert s1[1..] == s2 == [PAD, PAD];
    QuantumCollects(s, []);
    QuantumCollects(s1, q[..1]);
    assert [] + [q[0]] == q[..1] && q[..1] + [q[1]] == q[..2];
    QuantumPadding(q[..2], s2);
    assert q[..2] + seq(2, _ => 0) == q;
  }

  /** Decoding the encoding of two final bytes ("xxx=") gives them back. */
  lemma DecodeEncodeTwo(a: byte, b: byte)
    ensures DecodeQuantum(Encode([a, b]), []) == Step([], [a, b], true)
  {
    var s := Encode([a, b]);
    var q := GroupValues(a, b, 0);
    GroupValuesDecode(a, b, 0);
    ValueOfSymbol(q[0]);
    ValueOfSymbol(q[1]);
    ValueOfSymbol(q[2]);
    var s1, s2, s3 := s[1..], s[2..], s[3..];
    assert s[0] == Symbol(q[0]) && s1[0] == Symbol(q[1]) && s2[0] == Symbol(q[2]);
    assert s1[1..] == s2 && s2[1..] == s3 == [PAD];
    QuantumCollects(s, []);
    QuantumCollects(s1, q[..1]);
    QuantumCollects(s2, q[..2]);
    assert [] + [q[0]] == q[..1] && q[..1] + [q[1]] == q[..2] && q[..2] + [q[2]] == q[..3];
    QuantumPadding(q[..3], s3);
    assert q[..3] + seq(1, _ => 0) == q;
  }

  /** Decoding the encoding of d gives back d, without error: the reader
      recovers every record the writer wrote. */
  lemma {:induction false} DecodeEncode(d: seq<byte>)
    ensures Decode(Encode(d)) == Decoded(d, true)
    decreases |d|
  {
    if |d| == 1 {
      DecodeEncodeOne(d[0]);
      assert [d[0]] == d;
    } else if |d| == 2 {
      DecodeEncodeTwo(d[0], d[1]);
      assert [d[0], d[1]] == d;
    } else if |d| >= 3 {
      DecodeEncode(d[3..]);
      DecodeEncodeGroup(d[0], d[1], d[2], Encode(d[3..]));
      assert [d[0], d[1], d[2]] + d[3..] == d;
    }
  }
}
