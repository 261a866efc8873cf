/**
 * The text transport of bmp.c: base64_encode and base64_decode, using the standard
 * alphabet and '=' padding of RFC 4648 (section 4, padding per section 3.2).
 *
 * Shifts and masks of the C code are written as multiplication, division and
 * remainder by powers of two; an OR of two disjoint bit fields is written as a sum.
 */
module Base64 {
  import opened Bytes
  import opened Wrappers

  // ---------------------------------------------------------------- alphabet

  /** base64en: the symbol of the 6-bit value `v` ('A'-'Z', 'a'-'z', '0'-'9', '+', '/'). */
  function SymbolOf(v: nat): (ch: char)
    requires v < 64
  {
    if v < 26 then ('A' as int + v) as char
    else if v < 52 then ('a' as int + (v - 26)) as char
    else if v < 62 then ('0' as int + (v - 52)) as char
    else if v == 62 then '+'
    else '/'
  }

  /** base64de, indexed by a character code below 128; 255 marks a character outside the alphabet. */
  function TableEntry(code: nat): (e: nat)
    requires code < 128
    ensures e == 255 || e < 64
  {
    if 'A' as int <= code <= 'Z' as int then code - 'A' as int
    else if 'a' as int <= code <= 'z' as int then code - 'a' as int + 26
    else if '0' as int <= code <= '9' as int then code - '0' as int + 52
    else if code == '+' as int then 62
    else if code == '/' as int then 63
    else 255
  }

  /** The character test of base64_decode: inside '+'..'z' and not marked 255 in the table. */
  predicate IsSymbol(ch: char)
  {
    '+' <= ch <= 'z' && TableEntry(ch as int) != 255
  }

  function SymbolValue(ch: char): (v: nat)
    requires IsSymbol(ch)
    ensures v < 64
  {
    TableEntry(ch as int)
  }

  /** The two tables agree: every 6-bit value's symbol is accepted by the decoder and maps back to it. */
  lemma SymbolOfValue(v: nat)
    requires v < 64
    ensures IsSymbol(SymbolOf(v)) && SymbolValue(SymbolOf(v)) == v
  {
  }

  /** ... and every accepted character is the symbol of its value. */
  lemma ValueOfSymbol(ch: char)
    requires IsSymbol(ch)
    ensures SymbolOf(SymbolValue(ch)) == ch
  {
  }

  predicate AllSymbols(p: seq<char>)
  {
    forall k | 0 <= k < |p| :: IsSymbol(p[k])
  }

  lemma AllSymbolsConcat(p: seq<char>, q: seq<char>)
    requires AllSymbols(p) && AllSymbols(q)
    ensures AllSymbols(p + q)
  {
    forall k | 0 <= k < |p + q| ensures IsSymbol((p + q)[k]) {
      if k >= |p| { assert (p + q)[k] == q[k - |p|]; }
    }
  }

  // ---------------------------------------------------------------- encoding

  /** Characters produced for `n` input bytes (BASE64_ENCODE_OUT_SIZE without the NUL). */
  function EncodedLength(n: nat): nat
  {
    ((n + 2) / 3) * 4
  }

  /** The size the caller must provide to base64_encode: BASE64_ENCODE_OUT_SIZE. */
  function EncodeOutSize(n: nat): nat
  {
    EncodedLength(n) + 1
  }

  /** How many '=' end the encoding of `n` bytes. */
  function PadCount(n: nat): nat
  {
    if n % 3 == 0 then 0 else if n % 3 == 1 then 2 else 1
  }

  /** The '=' characters that end the encoding of `n` bytes. */
  function Padding(n: nat): seq<char>
  {
    seq(PadCount(n), k => '=')
  }

  /** Three bytes become four symbols. */
  function EncodeGroup(a: byte, b: byte, c: byte): seq<char>
  {
    [SymbolOf(a / 4), SymbolOf((a % 4) * 16 + b / 16), SymbolOf((b % 16) * 4 + c / 64), SymbolOf(c % 64)]
  }

  /** The symbols of a final group of zero, one or two bytes, in front of its padding. */
  function TailSymbols(q: seq<byte>): seq<char>
    requires |q| < 3
  {
    if |q| == 0 then []
    else if |q| == 1 then [SymbolOf(q[0] / 4), SymbolOf((q[0] % 4) * 16)]
    else [SymbolOf(q[0] / 4), SymbolOf((q[0] % 4) * 16 + q[1] / 16), SymbolOf((q[1] % 16) * 4)]
  }

  /** The encoding of whole groups, then of a final group of one or two bytes with its padding. */
  function Encode(s: seq<byte>): seq<char>
    decreases |s|
  {
    if |s| < 3 then TailSymbols(s) + Padding(|s|)
    else EncodeGroup(s[0], s[1], s[2]) + Encode(s[3..])
  }

  /** The symbols of an encoding, that is, everything in front of its padding. */
  function Unpadded(s: seq<byte>): (p: seq<char>)
    ensures AllSymbols(p)
    decreases |s|
  {
    if |s| < 3 then
      TailRoundTrip(s);
      TailSymbols(s)
    else
      var g, r := EncodeGroup(s[0], s[1], s[2]), Unpadded(s[3..]);
      GroupRoundTrip(s[0], s[1], s[2]);
      AllSymbolsConcat(g, r);
      g + r
  }

  /** An encoding is its symbols followed by its padding. */
  lemma {:induction false} EncodeUnpadded(s: seq<byte>)
    ensures Encode(s) == Unpadded(s) + Padding(|s|)
    decreases |s|
  {
    if |s| >= 3 {
      EncodeUnpadded(s[3..]);
      LengthStep(|s| - 3);
    }
  }

  /** Three more bytes add one group of four characters and leave the padding as it is. */
  lemma LengthStep(n: nat)
    ensures EncodedLength(n + 3) == EncodedLength(n) + 4 && PadCount(n + 3) == PadCount(n)
  {
    var q, r := (n + 2) / 3, (n + 2) % 3;
    assert n + 2 == 3 * q + r;
    assert (n + 5) / 3 == q + 1 && (n + 3) % 3 == n % 3;
  }

  /** There are EncodedLength(n) - PadCount(n) symbols in the encoding of n bytes. */
  lemma {:induction false} UnpaddedLength(s: seq<byte>)
    ensures |Unpadded(s)| + PadCount(|s|) == EncodedLength(|s|)
    decreases |s|
  {
    if |s| >= 3 {
      UnpaddedLength(s[3..]);
      assert |Unpadded(s)| == 4 + |Unpadded(s[3..])|;
      LengthStep(|s| - 3);
    }
  }

  /**
   * The shape of an encoding of `n` bytes: EncodedLength(n) characters, symbols of the
   * alphabet up to the padding, then PadCount(n) '=' characters.
   */
  predicate EncodingShape(t: seq<char>, n: nat)
  {
    && |t| == EncodedLength(n)
    && AllSymbols(t[..|t| - PadCount(n)])
    && (forall k | |t| - PadCount(n) <= k < |t| :: t[k] == '=')
  }

  lemma EncodeShape(s: seq<byte>)
    ensures EncodingShape(Encode(s), |s|)
  {
    EncodeUnpadded(s);
    UnpaddedLength(s);
    var p := Unpadded(s);
    assert Encode(s)[..|p|] == p;
  }

  /** Encoding works group by group: a prefix of whole groups encodes on its own. */
  lemma {:induction false} EncodeAppend(x: seq<byte>, y: seq<byte>)
    requires |x| % 3 == 0
    ensures Encode(x + y) == Encode(x) + Encode(y)
    decreases |x|
  {
    if |x| > 0 {
      assert (x + y)[3..] == x[3..] + y;
      EncodeAppend(x[3..], y);
    } else {
      assert x + y == y;
    }
  }

  /** The encoding of `s` has EncodedLength(|s|) characters, a multiple of 4. */
  lemma EncodeLength(s: seq<byte>)
    ensures |Encode(s)| == EncodedLength(|s|) && |Encode(s)| % 4 == 0
  {
    EncodeUnpadded(s);
    UnpaddedLength(s);
    DivModParts((|s| + 2) / 3, 4, 0);
  }

  /** Whole groups have EncodedLength(3q) = 4q characters; a final group of one or two bytes adds four. */
  lemma GroupsLength(q: nat, r: nat)
    requires r < 3
    ensures EncodedLength(3 * q + r) == 4 * q + (if r == 0 then 0 else 4)
  {
    DivModParts(q, 3, r + 2 - (if r == 0 then 0 else 3));
    if r > 0 {
      DivModParts(q + 1, 3, r - 1);
    }
  }

  /**
   * The four characters of group `q` of the text `t` for the bytes `s`, as base64_encode
   * computes them from the group's bytes: in a final group of one or two bytes, a missing
   * byte counts as zero in the last symbol it would share, and its own positions are '='.
   */
  predicate GroupDigits(s: seq<byte>, t: seq<char>, q: nat)
    requires 3 * q < |s|
  {
    && |t| >= 4 * q + 4
    && t[4 * q] == SymbolOf(s[3 * q] / 4)
    && (3 * q + 1 < |s| ==> t[4 * q + 1] == SymbolOf((s[3 * q] % 4) * 16 + s[3 * q + 1] / 16))
    && (3 * q + 1 == |s| ==> t[4 * q + 1] == SymbolOf((s[3 * q] % 4) * 16) && t[4 * q + 2] == '=' && t[4 * q + 3] == '=')
    && (3 * q + 2 < |s| ==>
          t[4 * q + 2] == SymbolOf((s[3 * q + 1] % 16) * 4 + s[3 * q + 2] / 64) && t[4 * q + 3] == SymbolOf(s[3 * q + 2] % 64))
    && (3 * q + 2 == |s| ==> t[4 * q + 2] == SymbolOf((s[3 * q + 1] % 16) * 4) && t[4 * q + 3] == '=')
  }

  /** The first group of an encoding. */
  lemma FirstGroupDigits(s: seq<byte>)
    requires |s| > 0
    ensures GroupDigits(s, Encode(s), 0)
  {
    if |s| == 1 {
      OneByteGroup(s);
    } else if |s| == 2 {
      TwoByteGroup(s);
    } else {
      assert Encode(s) == EncodeGroup(s[0], s[1], s[2]) + Encode(s[3..]);
    }
  }

  /** One byte: two symbols and two '='. */
  lemma OneByteGroup(s: seq<byte>)
    requires |s| == 1
    ensures Encode(s) == [SymbolOf(s[0] / 4), SymbolOf((s[0] % 4) * 16), '=', '=']
    ensures GroupDigits(s, Encode(s), 0)
  {
    assert Padding(1) == ['=', '='];
    assert TailSymbols(s) == [SymbolOf(s[0] / 4), SymbolOf((s[0] % 4) * 16)];
  }

  /** Two bytes: three symbols and one '='. */
  lemma TwoByteGroup(s: seq<byte>)
    requires |s| == 2
    ensures Encode(s) == [SymbolOf(s[0] / 4), SymbolOf((s[0] % 4) * 16 + s[1] / 16), SymbolOf((s[1] % 16) * 4), '=']
    ensures GroupDigits(s, Encode(s), 0)
  {
    assert Padding(2) == ['='];
    assert TailSymbols(s) == [SymbolOf(s[0] / 4), SymbolOf((s[0] % 4) * 16 + s[1] / 16), SymbolOf((s[1] % 16) * 4)];
  }

  /** Group q of `t` is group q - 1 of what follows its first group. */
  lemma ShiftGroupDigits(s: seq<byte>, t: seq<char>, q: nat)
    requires 3 <= |s| && 4 <= |t| && 0 < q && 3 * q < |s|
    requires GroupDigits(s[3..], t[4..], q - 1)
    ensures GroupDigits(s, t, q)
  {
  }

  /** Every group of Encode(s) holds the characters base64_encode computes for it. */
  lemma {:induction false} EncodeDigits(s: seq<byte>, q: nat)
    requires 3 * q < |s|
    ensures GroupDigits(s, Encode(s), q)
    decreases q
  {
    if q == 0 {
      FirstGroupDigits(s);
    } else {
      EncodeDigits(s[3..], q - 1);
      EncodeLength(s[3..]);
      assert Encode(s)[4..] == Encode(s[3..]);
      ShiftGroupDigits(s, Encode(s), q);
    }
  }

  /**
   * base64_encode: the state machine over `s` (position in the group), `l` (previous
   * byte) and `j` (output index), writing into the caller's buffer of
   * BASE64_ENCODE_OUT_SIZE characters. Returns the length, with a NUL stored there.
   */
  method EncodeInto(inp: seq<byte>, out: array<char>) returns (n: nat)
    requires out.Length >= EncodeOutSize(|inp|)
    modifies out
    ensures n == EncodedLength(|inp|)
    ensures out[..n] == Encode(inp) && out[n] == '\0'
    ensures forall k | n < k < out.Length :: out[k] == old(out[k])
  {
    ghost var t := Encode(inp);
    EncodeLength(inp);
    var s := 0;
    var l: byte := 0;
    var i := 0;
    var j := 0;
    ghost var q := 0;
    while i < |inp|
      invariant 0 <= s < 3 && i == 3 * q + s <= |inp| && j == 4 * q + s
      invariant i > 0 ==> l == inp[i - 1]
      invariant forall k | 0 <= k < j :: out[k] == t[k]
      invariant forall k | j <= k < out.Length :: out[k] == old(out[k])
    {
      var c := inp[i];
      EncodeDigits(inp, q);
      s, j, q := EncodeStep(inp, out, t, q, i, s, l, j);
      l := c;
      i := i + 1;
    }
    GroupsLength(q, s);
    if s > 0 {
      EncodeDigits(inp, q);
    }
    n := EncodeClose(inp, out, t, q, s, l, j);
    assert out[..n] == t;
  }

  /** One pass of base64_encode's loop body: the switch on `s` for byte `i`. */
  method EncodeStep(inp: seq<byte>, out: array<char>, ghost t: seq<char>, ghost q: nat, i: nat, s: nat, l: byte, j: nat)
    returns (s': nat, j': nat, ghost q': nat)
    requires i < |inp| && s < 3 && i == 3 * q + s && j == 4 * q + s && (i > 0 ==> l == inp[i - 1])
    requires GroupDigits(inp, t, q) && out.Length > |t|
    requires forall k | 0 <= k < j :: out[k] == t[k]
    modifies out
    ensures s' < 3 && i + 1 == 3 * q' + s' && j' == 4 * q' + s'
    ensures forall k | 0 <= k < j' :: out[k] == t[k]
    ensures forall k | j' <= k < out.Length :: out[k] == old(out[k])
  {
    var c := inp[i];
    s', j', q' := s, j, q;
    if s == 0 {
      s' := 1;
      out[j'] := SymbolOf(c / 4);
      j' := j' + 1;
    } else if s == 1 {
      s' := 2;
      out[j'] := SymbolOf((l % 4) * 16 + c / 16);
      j' := j' + 1;
    } else {
      s' := 0;
      out[j'] := SymbolOf((l % 16) * 4 + c / 64);
      j' := j' + 1;
      out[j'] := SymbolOf(c % 64);
      j' := j' + 1;
      q' := q + 1;
    }
  }

  /** The final switch of base64_encode: close an unfinished group with its padding, then the NUL. */
  method EncodeClose(inp: seq<byte>, out: array<char>, ghost t: seq<char>, ghost q: nat, s: nat, l: byte, j: nat)
    returns (n: nat)
    requires s < 3 && |inp| == 3 * q + s && j == 4 * q + s && (|inp| > 0 ==> l == inp[|inp| - 1])
    requires s > 0 ==> GroupDigits(inp, t, q)
    requires |t| == 4 * q + (if s == 0 then 0 else 4) && out.Length > |t|
    requires forall k | 0 <= k < j :: out[k] == t[k]
    modifies out
    ensures n == |t| && out[n] == '\0'
    ensures forall k | 0 <= k < n :: out[k] == t[k]
    ensures forall k | n < k < out.Length :: out[k] == old(out[k])
  {
    n := j;
    if s == 1 {
      out[n] := SymbolOf((l % 4) * 16);
      n := n + 1;
      out[n] := '=';
      n := n + 1;
      out[n] := '=';
      n := n + 1;
    } else if s == 2 {
      out[n] := SymbolOf((l % 16) * 4);
      n := n + 1;
      out[n] := '=';
      n := n + 1;
    }
    out[n] := '\0';
  }

  // ---------------------------------------------------------------- decoding

  /** Decoded bytes for the first `m` characters of a run of symbols. */
  function DecodedLength(m: nat): nat
  {
    (m / 4) * 3 + (if m % 4 <= 1 then 0 else m % 4 - 1)
  }

  /** The output size base64_decode needs for `n` characters: BASE64_DECODE_OUT_SIZE. */
  function DecodeOutSize(n: nat): nat
  {
    (n / 4) * 3
  }

  /** The length of the longest prefix of `t` made of alphabet symbols. */
  function SymbolRun(t: seq<char>): (m: nat)
    ensures m <= |t|
    ensures AllSymbols(t[..m])
    ensures m < |t| ==> !IsSymbol(t[m])
  {
    if t == [] || !IsSymbol(t[0]) then 0
    else
      assert t[1..][..SymbolRun(t[1..])] == t[1..1 + SymbolRun(t[1..])];
      1 + SymbolRun(t[1..])
  }

  /** The first byte of a group: all six bits of its first symbol, the top two of the second. */
  function FirstByte(a: char, b: char): byte
    requires IsSymbol(a) && IsSymbol(b)
  {
    SymbolValue(a) * 4 + SymbolValue(b) / 16
  }

  /** The second byte: the low four bits of the second symbol, the top four of the third. */
  function SecondByte(b: char, c: char): byte
    requires IsSymbol(b) && IsSymbol(c)
  {
    (SymbolValue(b) % 16) * 16 + SymbolValue(c) / 4
  }

  /** The third byte: the low two bits of the third symbol, all six of the fourth. */
  function ThirdByte(c: char, d: char): byte
    requires IsSymbol(c) && IsSymbol(d)
  {
    (SymbolValue(c) % 4) * 64 + SymbolValue(d)
  }

  /** A final run of fewer than four symbols: k > 1 symbols give k - 1 bytes. */
  function DecodeTail(p: seq<char>): seq<byte>
    requires |p| < 4 && AllSymbols(p)
  {
    if |p| < 2 then []
    else if |p| == 2 then [FirstByte(p[0], p[1])]
    else [FirstByte(p[0], p[1]), SecondByte(p[1], p[2])]
  }

  /** The bytes of a run of symbols, four symbols giving three bytes. */
  function DecodeSymbols(p: seq<char>): (b: seq<byte>)
    requires AllSymbols(p)
    ensures |b| == DecodedLength(|p|)
  {
    if |p| < 4 then DecodeTail(p)
    else
      assert AllSymbols(p[4..]);
      [FirstByte(p[0], p[1]), SecondByte(p[1], p[2]), ThirdByte(p[2], p[3])] + DecodeSymbols(p[4..])
  }

  /**
   * base64_decode as a value: `None` where the C code returns 0 for an error
   * (a length that is not a multiple of 4, or a character outside the alphabet
   * before the first '='); decoding stops at the first '=', which is not decoded.
   */
  function Decode(t: seq<char>): (r: Option<seq<byte>>)
    ensures r.Some? ==> |r.value| <= DecodeOutSize(|t|)
  {
    if |t| % 4 != 0 then None
    else
      var m := SymbolRun(t);
      if m < |t| && t[m] != '=' then None
      else Some(DecodeSymbols(t[..m]))
  }

  /**
   * base64_decode fails exactly when the length is not a multiple of 4 or some
   * character before the first '=' is outside the alphabet.
   */
  lemma {:induction false} DecodeFailsIff(t: seq<char>)
    ensures Decode(t).None? <==> |t| % 4 != 0 || exists k | 0 <= k < |t| :: t[k] != '=' && !IsSymbol(t[k]) && '=' !in t[..k]
  {
    var m := SymbolRun(t);
    assert forall k | 0 <= k < m :: t[..m][k] == t[k];
    if m < |t| && t[m] != '=' {
      assert '=' !in t[..m];
    }
  }

  /** The value base64_decode returns: the number of complete bytes, 0 on an error. */
  function DecodedCount(t: seq<char>): nat
  {
    match Decode(t)
    case None => 0
    case Some(b) => |b|
  }

  /**
   * The number of output bytes base64_decode stores into, counting the byte it
   * starts for an unfinished group.
   */
  function Touched(t: seq<char>): (n: nat)
    ensures |t| % 4 == 0 ==> DecodedCount(t) <= n <= DecodeOutSize(|t|)
  {
    if |t| % 4 != 0 then 0
    else
      var m := SymbolRun(t);
      DecodeCursor(m, |t|);
      (m / 4) * 3 + m % 4
  }

  /**
   * Where base64_decode's output index stands after `i` of `n` characters
   * (n a multiple of 4), and how one more character moves it.
   */
  lemma DecodeCursor(i: nat, n: nat)
    requires i <= n && n % 4 == 0
    ensures DecodedLength(i) <= (i / 4) * 3 + i % 4 <= DecodeOutSize(n)
    ensures i % 4 != 0 ==> DecodedLength(i) < DecodeOutSize(n)
    ensures i < n ==> (i / 4) * 3 + 2 < DecodeOutSize(n)
    ensures i < n ==> DecodedLength(i + 1) == DecodedLength(i) + (if i % 4 == 0 then 0 else 1)
    ensures i < n ==> ((i + 1) / 4) * 3 + (i + 1) % 4 == (i / 4) * 3 + i % 4 + (if i % 4 == 3 then 0 else 1)
  {
    var q, r := i / 4, i % 4;
    DivModParts(q, 4, r);
    DivModParts(n / 4, 4, 0);
    if r < 3 {
      DivModParts(q, 4, r + 1);
    } else {
      DivModParts(q + 1, 4, 0);
    }
  }

  /** Decoding splits after any whole number of groups. */
  lemma {:induction false} DecodeSymbolsAppend(p: seq<char>, q: seq<char>)
    requires |p| % 4 == 0 && AllSymbols(p) && AllSymbols(q)
    ensures AllSymbols(p + q)
    ensures DecodeSymbols(p + q) == DecodeSymbols(p) + DecodeSymbols(q)
    decreases |p|
  {
    AllSymbolsConcat(p, q);
    if |p| == 0 {
      assert p + q == q;
    } else {
      assert (p + q)[4..] == p[4..] + q;
      assert AllSymbols(p[4..]);
      DecodeSymbolsAppend(p[4..], q);
    }
  }

  /** The high bits base64_decode has stored for the byte that symbol `prev` at position r - 1 starts. */
  function Partial(r: nat, prev: char): byte
    requires 1 <= r <= 3 && IsSymbol(prev)
  {
    if r == 1 then SymbolValue(prev) * 4
    else if r == 2 then (SymbolValue(prev) % 16) * 16
    else (SymbolValue(prev) % 4) * 64
  }

  /** The run of symbols ends exactly where the loop of base64_decode stops. */
  lemma RunStop(t: seq<char>, i: nat)
    requires i <= SymbolRun(t)
    ensures i < |t| && (t[i] == '=' || !IsSymbol(t[i])) ==> SymbolRun(t) == i
    ensures i == |t| ==> SymbolRun(t) == i
  {
    assert TableEntry('=' as int) == 255;
    if i < SymbolRun(t) {
      assert t[..SymbolRun(t)][i] == t[i];
    }
  }

  /** What base64_decode returns and how far it wrote, once its run of symbols has length 4q + r. */
  lemma DecodeOutcome(t: seq<char>, q: nat, r: nat)
    requires |t| % 4 == 0 && SymbolRun(t) == 4 * q + r && r < 4
    ensures Touched(t) == 3 * q + r
    ensures DecodedCount(t) == if 4 * q + r < |t| && t[4 * q + r] != '=' then 0 else 3 * q + (if r <= 1 then 0 else r - 1)
    ensures Decode(t).Some? ==> Decode(t).value == DecodeSymbols(t[..4 * q + r])
    ensures DecodedLength(4 * q + r) == 3 * q + (if r <= 1 then 0 else r - 1)
  {
    DivModParts(q, 4, r);
  }

  /**
   * The three bytes of group `q` of the bytes `b` decoded from the symbols `p`, as
   * base64_decode assembles them from the symbols present in that group.
   */
  predicate GroupBytes(p: seq<char>, b: seq<byte>, q: nat)
    requires AllSymbols(p)
  {
    && (4 * q + 1 < |p| ==> 3 * q < |b| && b[3 * q] == FirstByte(p[4 * q], p[4 * q + 1]))
    && (4 * q + 2 < |p| ==> 3 * q + 1 < |b| && b[3 * q + 1] == SecondByte(p[4 * q + 1], p[4 * q + 2]))
    && (4 * q + 3 < |p| ==> 3 * q + 2 < |b| && b[3 * q + 2] == ThirdByte(p[4 * q + 2], p[4 * q + 3]))
  }

  /** Every group of DecodeSymbols(p) holds the bytes base64_decode assembles for it. */
  lemma {:induction false} DecodeDigits(p: seq<char>, q: nat)
    requires AllSymbols(p)
    ensures GroupBytes(p, DecodeSymbols(p), q)
    decreases q
  {
    if |p| < 4 {
      TailGroupBytes(p, q);
    } else if q == 0 {
      FirstGroupBytes(p);
    } else {
      assert AllSymbols(p[4..]);
      DecodeDigits(p[4..], q - 1);
      DecodeSymbolsRest(p);
      ShiftGroupBytes(p, DecodeSymbols(p), q);
    }
  }

  /** Group q of the bytes `b` of `p` is group q - 1 of what follows their first group. */
  lemma ShiftGroupBytes(p: seq<char>, b: seq<byte>, q: nat)
    requires AllSymbols(p) && 4 <= |p| && 3 <= |b| && 0 < q
    requires AllSymbols(p[4..]) && GroupBytes(p[4..], b[3..], q - 1)
    ensures GroupBytes(p, b, q)
  {
  }

  /** After the first four symbols, decoding goes on with the rest. */
  lemma DecodeSymbolsRest(p: seq<char>)
    requires AllSymbols(p) && 4 <= |p|
    ensures AllSymbols(p[4..]) && |DecodeSymbols(p)| >= 3 && DecodeSymbols(p)[3..] == DecodeSymbols(p[4..])
  {
    assert AllSymbols(p[4..]);
  }



  /** Fewer than four symbols form at most one partial group, read by DecodeTail. */
  lemma TailGroupBytes(p: seq<char>, q: nat)
    requires AllSymbols(p) && |p| < 4
    ensures GroupBytes(p, DecodeSymbols(p), q)
  {
    assert DecodeSymbols(p) == DecodeTail(p);
  }

  /** The first three bytes decoded from four or more symbols. */
  lemma FirstGroupBytes(p: seq<char>)
    requires AllSymbols(p) && |p| >= 4
    ensures GroupBytes(p, DecodeSymbols(p), 0)
  {
    assert AllSymbols(p[4..]);
    assert DecodeSymbols(p)[..3] == [FirstByte(p[0], p[1]), SecondByte(p[1], p[2]), ThirdByte(p[2], p[3])];
  }

  /** Character `i` of `n` (a multiple of 4) lies in group `q`, whose bytes fit a buffer of `len` >= DecodeOutSize(n). */
  lemma GroupCursor(q: nat, i: nat, n: nat, len: nat)
    requires 4 * q <= i < 4 * q + 4 && i < n && n % 4 == 0 && len >= DecodeOutSize(n)
    ensures i % 4 == i - 4 * q && 3 * q + 2 < len
  {
    DivModParts(q, 4, i - 4 * q);
    DivModParts(n / 4, 4, 0);
  }

  /** DecodeDigits at character `i` of `t`, inside its run of `m` symbols. */
  lemma DecodeDigitAt(t: seq<char>, m: nat, q: nat, i: nat)
    requires m <= |t| && AllSymbols(t[..m]) && 4 * q <= i < 4 * q + 4 && i < m
    ensures IsSymbol(t[i]) && (i > 0 ==> IsSymbol(t[i - 1]))
    ensures i - 4 * q == 1 ==> 3 * q < |DecodeSymbols(t[..m])| && DecodeSymbols(t[..m])[3 * q] == FirstByte(t[i - 1], t[i])
    ensures i - 4 * q == 2 ==> 3 * q + 1 < |DecodeSymbols(t[..m])| && DecodeSymbols(t[..m])[3 * q + 1] == SecondByte(t[i - 1], t[i])
    ensures i - 4 * q == 3 ==> 3 * q + 2 < |DecodeSymbols(t[..m])| && DecodeSymbols(t[..m])[3 * q + 2] == ThirdByte(t[i - 1], t[i])
  {
    var p := t[..m];
    assert p[i] == t[i] && (i > 0 ==> p[i - 1] == t[i - 1]);
    DecodeDigits(p, q);
  }

  /**
   * base64_decode: a loop over the characters with the group position `i & 3`,
   * OR-ing each 6-bit value into the caller's buffer of BASE64_DECODE_OUT_SIZE bytes.
   * It stores into no byte at or past Touched(inp); when its run of symbols ends inside
   * a group, the last byte it stores, at Touched(inp) - 1, holds that group's partial bits.
   */
  method DecodeInto(inp: seq<char>, out: array<byte>) returns (n: nat)
    requires out.Length >= DecodeOutSize(|inp|)
    modifies out
    ensures n == DecodedCount(inp)
    ensures Decode(inp).Some? ==> out[..n] == Decode(inp).value
    ensures forall k | Touched(inp) <= k < out.Length :: out[k] == old(out[k])
    ensures |inp| % 4 == 0 && SymbolRun(inp) % 4 != 0 ==>
              && 0 < Touched(inp) <= out.Length && IsSymbol(inp[SymbolRun(inp) - 1])
              && out[Touched(inp) - 1] == Partial(SymbolRun(inp) % 4, inp[SymbolRun(inp) - 1])
  {
    if |inp| % 4 != 0 {
      return 0;
    }
    ghost var m := SymbolRun(inp);
    ghost var b := DecodeSymbols(inp[..m]);
    var i, j, invalid, q := DecodeLoop(inp, out, m, b);
    DecodeFinish(inp, out[..], old(out[..]), q, i, j);
    n := if invalid then 0 else j;
  }

  /**
   * The state of base64_decode's loop after `i` characters, in group q: the buffer `o`,
   * which held `o0` before the loop, has the first j bytes of `b` and, inside a group,
   * the partial bits of byte j; nothing from the group's write cursor on has changed.
   */
  ghost predicate Progress(inp: seq<char>, o: seq<byte>, o0: seq<byte>, b: seq<byte>, i: nat, j: nat, q: nat)
  {
    && |o| == |o0| && i <= |inp| && 4 * q <= i < 4 * q + 4
    && j == 3 * q + (if i - 4 * q <= 1 then 0 else i - 4 * q - 1)
    && j <= |b| && j <= |o| && (forall k | 0 <= k < j :: o[k] == b[k])
    && (i - 4 * q != 0 ==> IsSymbol(inp[i - 1]) && j < |o| && o[j] == Partial(i - 4 * q, inp[i - 1]))
    && (forall k | 3 * q + (i - 4 * q) <= k < |o| :: o[k] == o0[k])
  }

  /**
   * The loop of base64_decode over an input whose length is a multiple of 4: it stops at
   * the end, at an '=' or at a character outside the alphabet (`invalid`), having stored
   * the bytes of the symbols before it and the partial bits of the group it is in.
   */
  method DecodeLoop(inp: seq<char>, out: array<byte>, ghost m: nat, ghost b: seq<byte>)
    returns (i: nat, j: nat, invalid: bool, ghost q: nat)
    requires |inp| % 4 == 0 && out.Length >= DecodeOutSize(|inp|)
    requires m == SymbolRun(inp) && b == DecodeSymbols(inp[..m])
    modifies out
    ensures i <= m
    ensures invalid ==> i < |inp| && inp[i] != '=' && !IsSymbol(inp[i])
    ensures !invalid ==> i == |inp| || inp[i] == '='
    ensures Progress(inp, out[..], old(out[..]), b, i, j, q)
  {
    ghost var o0 := out[..];
    i, j, invalid, q := 0, 0, false, 0;
    while i < |inp|
      invariant i <= m && Progress(inp, out[..], o0, b, i, j, q)
    {
      if inp[i] == '=' {
        break;
      }
      var c := Classify(inp[i]);
      if c == 255 {
        invalid := true;
        break;
      }
      j, q := DecodeStep(inp, out, o0, m, b, q, i, j, c);
      i := i + 1;
    }
  }

  /**
   * Where base64_decode's loop stops at character `i` (the end, an '=' or a character
   * outside the alphabet), the buffer `o` it has filled from `o0` holds its result.
   */
  lemma DecodeFinish(inp: seq<char>, o: seq<byte>, o0: seq<byte>, q: nat, i: nat, j: nat)
    requires |inp| % 4 == 0 && |o| == |o0|
    requires Progress(inp, o, o0, DecodeSymbols(inp[..SymbolRun(inp)]), i, j, q)
    requires i <= SymbolRun(inp) && (i == |inp| || inp[i] == '=' || !IsSymbol(inp[i]))
    ensures i < |inp| && inp[i] != '=' ==> Decode(inp).None? && DecodedCount(inp) == 0
    ensures i == |inp| || inp[i] == '=' ==> DecodedCount(inp) == j && Decode(inp) == Some(o[..j])
    ensures forall k | Touched(inp) <= k < |o| :: o[k] == o0[k]
    ensures i == SymbolRun(inp) && i % 4 == i - 4 * q && Touched(inp) == 3 * q + (i - 4 * q)
  {
    RunStop(inp, i);
    DecodeOutcome(inp, q, i - 4 * q);
    if i == |inp| || inp[i] == '=' {
      PrefixOf(o, DecodeSymbols(inp[..SymbolRun(inp)]), j);
    }
  }

  /** A sequence agreeing with `b` on its first |b| elements starts with `b`. */
  lemma PrefixOf(s: seq<byte>, b: seq<byte>, n: nat)
    requires n == |b| <= |s| && forall k | 0 <= k < n :: s[k] == b[k]
    ensures s[..n] == b
  {
  }

  /**
   * The two character tests of base64_decode's loop: a character outside '+'..'z',
   * or one the table marks 255, gives 255 (both make base64_decode return 0);
   * any other character gives its 6-bit value.
   */
  method Classify(ch: char) returns (c: nat)
    ensures c == 255 <==> !IsSymbol(ch)
    ensures c != 255 ==> c == SymbolValue(ch)
  {
    if ch < '+' || ch > 'z' {
      return 255;
    }
    c := TableEntry(ch as int);
  }

  /** One pass of base64_decode's loop body: the switch on `i & 3` for the symbol of value `c`. */
  method DecodeStep(inp: seq<char>, out: array<byte>, ghost o0: seq<byte>, ghost m: nat, ghost b: seq<byte>,
                    ghost q: nat, i: nat, j: nat, c: nat)
    returns (j': nat, ghost q': nat)
    requires |inp| % 4 == 0 && out.Length >= DecodeOutSize(|inp|)
    requires m == SymbolRun(inp) && b == DecodeSymbols(inp[..m])
    requires i < |inp| && i <= m && IsSymbol(inp[i]) && c == SymbolValue(inp[i])
    requires Progress(inp, out[..], o0, b, i, j, q)
    modifies out
    ensures Progress(inp, out[..], o0, b, i + 1, j', q')
  {
    DecodeDigitAt(inp, m, q, i);
    GroupCursor(q, i, |inp|, out.Length);
    j', q' := DecodeGroupStep(inp, out, o0, b, q, i, j, c);
  }

  /** The switch on `i & 3` for the symbol of value `c`, once its group's bytes are known. */
  method DecodeGroupStep(inp: seq<char>, out: array<byte>, ghost o0: seq<byte>, ghost b: seq<byte>, ghost q: nat, i: nat, j: nat, c: nat)
    returns (j': nat, ghost q': nat)
    requires i < |inp| && IsSymbol(inp[i]) && c == SymbolValue(inp[i])
    requires i % 4 == i - 4 * q && 3 * q + 2 < out.Length
    requires Progress(inp, out[..], o0, b, i, j, q)
    requires i - 4 * q == 1 ==> 3 * q < |b| && b[3 * q] == FirstByte(inp[i - 1], inp[i])
    requires i - 4 * q == 2 ==> 3 * q + 1 < |b| && b[3 * q + 1] == SecondByte(inp[i - 1], inp[i])
    requires i - 4 * q == 3 ==> 3 * q + 2 < |b| && b[3 * q + 2] == ThirdByte(inp[i - 1], inp[i])
    modifies out
    ensures Progress(inp, out[..], o0, b, i + 1, j', q')
  {
    j', q' := j, q;
    match i % 4 {
      case 0 =>
        out[j'] := c * 4;
      case 1 =>
        out[j'] := out[j'] + c / 16;
        j' := j' + 1;
        out[j'] := (c % 16) * 16;
      case 2 =>
        // the source writes out[j] |= (out[j] | x), which is out[j] | x
        out[j'] := out[j'] + c / 4;
        j' := j' + 1;
        out[j'] := (c % 4) * 64;
      case 3 =>
        out[j'] := out[j'] + c;
        j' := j' + 1;
        q' := q + 1;
    }
  }

  /** When every character before `i` is a symbol and `t[i]` is not, the run ends at `i`. */
  lemma {:induction false} RunEndsAt(t: seq<char>, i: nat)
    requires i <= |t| && AllSymbols(t[..i])
    requires i < |t| ==> !IsSymbol(t[i])
    ensures SymbolRun(t) == i
    decreases i
  {
    if i > 0 {
      assert IsSymbol(t[..i][0]);
      assert t[1..][..i - 1] == t[..i][1..];
      RunEndsAt(t[1..], i - 1);
    }
  }

  // ---------------------------------------------------------------- round trip

  /** Decoding the four symbols of a group gives back its three bytes. */
  lemma {:induction false} GroupRoundTrip(a: byte, b: byte, c: byte)
    ensures AllSymbols(EncodeGroup(a, b, c))
    ensures DecodeSymbols(EncodeGroup(a, b, c)) == [a, b, c]
  {
    var g := EncodeGroup(a, b, c);
    SymbolOfValue(a / 4);
    SymbolOfValue((a % 4) * 16 + b / 16);
    SymbolOfValue((b % 16) * 4 + c / 64);
    SymbolOfValue(c % 64);
    DivModParts(a % 4, 16, b / 16);
    DivModParts(b % 16, 4, c / 64);
    assert g[4..] == [];
  }

  /** A final group of one or two bytes: its symbols decode to it. */
  lemma {:induction false} TailRoundTrip(q: seq<byte>)
    requires |q| < 3
    ensures AllSymbols(TailSymbols(q))
    ensures DecodeSymbols(TailSymbols(q)) == q
  {
    if |q| == 1 {
      SymbolOfValue(q[0] / 4);
      SymbolOfValue((q[0] % 4) * 16);
      DivModParts(q[0] % 4, 16, 0);
    } else if |q| == 2 {
      SymbolOfValue(q[0] / 4);
      SymbolOfValue((q[0] % 4) * 16 + q[1] / 16);
      SymbolOfValue((q[1] % 16) * 4);
      DivModParts(q[0] % 4, 16, q[1] / 16);
      DivModParts(q[1] % 16, 4, 0);
    }
  }

  /** The symbols in front of the padding decode to exactly the encoded bytes. */
  lemma {:induction false} DecodeSymbolsOfEncode(x: seq<byte>)
    ensures DecodeSymbols(Unpadded(x)) == x
    decreases |x|
  {
    if |x| < 3 {
      TailRoundTrip(x);
    } else {
      var g, r := EncodeGroup(x[0], x[1], x[2]), Unpadded(x[3..]);
      GroupRoundTrip(x[0], x[1], x[2]);
      DecodeSymbolsOfEncode(x[3..]);
      DecodeSymbolsAppend(g, r);
      assert x == [x[0], x[1], x[2]] + x[3..];
    }
  }

  /** decode(encode(x)) == x for every byte sequence, the lengths 0, 1 and 2 included. */
  lemma {:induction false} DecodeEncode(x: seq<byte>)
    ensures Decode(Encode(x)) == Some(x)
    ensures DecodedCount(Encode(x)) == |x|
  {
    var t := Encode(x);
    var p := Unpadded(x);
    EncodeUnpadded(x);
    EncodeLength(x);
    DecodeSymbolsOfEncode(x);
    assert t[..|p|] == p;
    RunEndsAt(t, |p|);
  }

  /**
   * Decoding an encoding of `x` stores into one byte past |x| whenever the last group
   * is incomplete: base64_decode starts a byte for the last symbol before the padding.
   */
  lemma TouchedByEncoding(x: seq<byte>)
    ensures Touched(Encode(x)) == |x| + (if |x| % 3 == 0 then 0 else 1)
  {
    var t := Encode(x);
    var p := Unpadded(x);
    EncodeUnpadded(x);
    EncodeLength(x);
    UnpaddedLength(x);
    assert t[..|p|] == p;
    RunEndsAt(t, |p|);
    var q, r := |x| / 3, |x| % 3;
    GroupsLength(q, r);
    var g := if r == 0 then 0 else r + 1;
    assert |p| == 4 * q + g;
    DivModParts(q, 4, g);
  }

  /** A '=' ends decoding: whatever follows it is neither checked nor decoded. */
  lemma {:induction false} PadEndsDecoding(a: seq<char>, b: seq<char>)
    requires AllSymbols(a) && (|a| + 1 + |b|) % 4 == 0
    ensures Decode(a + ['='] + b) == Some(DecodeSymbols(a))
  {
    var t := a + ['='] + b;
    assert t[..|a|] == a;
    RunEndsAt(t, |a|);
  }

  /**
   * The composition used by the text transport: base64_decode of the output of
   * base64_encode returns |x| and fills its buffer with x.
   */
  method EncodeThenDecode(x: seq<byte>) returns (count: nat, bytes: seq<byte>)
    ensures count == |x| && bytes == x
  {
    var text := new char[EncodeOutSize(|x|)];
    var len := EncodeInto(x, text);
    var buffer := new byte[DecodeOutSize(len)];
    count := DecodeInto(text[..len], buffer);
    DecodeEncode(x);
    bytes := buffer[..count];
  }
}
