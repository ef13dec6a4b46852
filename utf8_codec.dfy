/**
 * The tokenizer's UTF-16 to UTF-8 encoder and its decoder, on UTF-16 code
 * units and bytes. UTF-8 follows section 3 of RFC 3629; a surrogate pair
 * stands for one code point as in section 2.2 of RFC 2781.
 *
 * The source builds bytes with `|`, `&`, `>>` and `>>>`; every `|` there joins
 * bit fields that do not overlap, so it is written as `+`, a mask `& (2^k - 1)`
 * as `% 2^k` and a shift right by k as `/ 2^k`, all on non-negative numbers.
 * Both specifications walk an index through their input, as the loops do.
 */
module Utf8Codec {
  import opened Wrappers

  type Byte = x: int | 0 <= x < 256
  type CodeUnit = x: int | 0 <= x < 65536

  predicate IsHighSurrogate(u: int) {
    0xD800 <= u <= 0xDBFF
  }

  predicate IsLowSurrogate(u: int) {
    0xDC00 <= u <= 0xDFFF
  }

  /** From index `i` on, every high surrogate is followed by a low one. */
  predicate PairsCompleteFrom(s: seq<CodeUnit>, i: nat) {
    forall k :: i <= k < |s| && IsHighSurrogate(s[k]) ==> k + 1 < |s| && IsLowSurrogate(s[k + 1])
  }

  predicate PairsComplete(s: seq<CodeUnit>) {
    PairsCompleteFrom(s, 0)
  }

  /** The code point of a surrogate pair. */
  function PairCodePoint(upper: CodeUnit, lower: CodeUnit): (c: nat)
    requires IsHighSurrogate(upper) && IsLowSurrogate(lower)
    ensures 0x10000 <= c <= 0x10FFFF
  {
    (upper - 0xD800) * 1024 + 0x10000 + (lower - 0xDC00)
  }

  /** The UTF-8 bytes of one code point. */
  function CodePointBytes(c: nat): (b: seq<Byte>)
    requires c < 0x110000
    ensures 1 <= |b| <= 4
  {
    if c < 0x80 then [c]
    else if c < 0x800 then [c / 64 + 0xC0, c % 64 + 0x80]
    else if c < 0x10000 then [c / 4096 + 0xE0, (c / 64) % 64 + 0x80, c % 64 + 0x80]
    else [c / 262144 + 0xF0, (c / 4096) % 64 + 0x80, (c / 64) % 64 + 0x80, c % 64 + 0x80]
  }

  function Prepend(p: seq<Byte>, r: Option<seq<Byte>>): Option<seq<Byte>> {
    match r
    case None => None
    case Some(t) => Some(p + t)
  }

  lemma ConcatAssoc<T>(a: seq<T>, b: seq<T>, c: seq<T>)
    ensures (a + b) + c == a + (b + c)
  {
  }

  lemma PrependTwice(p: seq<Byte>, q: seq<Byte>, r: Option<seq<Byte>>)
    ensures Prepend(p, Prepend(q, r)) == Prepend(p + q, r)
  {
    if r.Some? {
      ConcatAssoc(p, q, r.value);
    }
  }

  /**
   * The bytes of the code units from index `i` on; None when a high surrogate
   * lacks its low half (`charCodeAt` past the end is NaN, which is no low half).
   */
  function EncodeFrom(s: seq<CodeUnit>, i: nat): Option<seq<Byte>>
    decreases |s| - i
  {
    if i >= |s| then Some([])
    else if IsHighSurrogate(s[i]) then
      if i + 1 < |s| && IsLowSurrogate(s[i + 1]) then
        Prepend(CodePointBytes(PairCodePoint(s[i], s[i + 1])), EncodeFrom(s, i + 2))
      else None
    else Prepend(CodePointBytes(s[i]), EncodeFrom(s, i + 1))
  }

  function Encode(s: seq<CodeUnit>): Option<seq<Byte>> {
    EncodeFrom(s, 0)
  }

  /** Writes the bytes of `code` into `bytes` at `j`. */
  method PutCodePoint(bytes: array<Byte>, j: nat, code: nat) returns (j': nat)
    requires code < 0x110000 && j + 4 <= bytes.Length
    modifies bytes
    ensures j' == j + |CodePointBytes(code)|
    ensures bytes[..j'] == old(bytes[..j]) + CodePointBytes(code)
  {
    if code < 0x80 {
      bytes[j] := code;
      j' := j + 1;
    } else if code < 0x800 {
      bytes[j] := code / 64 + 0xC0;
      bytes[j + 1] := code % 64 + 0x80;
      j' := j + 2;
    } else if code < 0x10000 {
      bytes[j] := code / 4096 + 0xE0;
      bytes[j + 1] := (code / 64) % 64 + 0x80;
      bytes[j + 2] := code % 64 + 0x80;
      j' := j + 3;
    } else {
      bytes[j] := code / 262144 + 0xF0;
      bytes[j + 1] := (code / 4096) % 64 + 0x80;
      bytes[j + 2] := (code / 64) % 64 + 0x80;
      bytes[j + 3] := code % 64 + 0x80;
      j' := j + 4;
    }
  }

  /**
   * One step of `stringToUtf8Bytes`: the code point at `i` and the index after
   * it, or `ok == false` for a high surrogate without its low half.
   */
  method ReadCodeUnits(str: seq<CodeUnit>, i: nat) returns (ok: bool, code: nat, next: nat)
    requires i < |str|
    ensures ok <==> !IsHighSurrogate(str[i]) || (i + 1 < |str| && IsLowSurrogate(str[i + 1]))
    ensures !ok ==> EncodeFrom(str, i) == None
    ensures ok ==> i < next <= i + 2 && next <= |str| && code < 0x110000
    ensures ok ==> EncodeFrom(str, i) == Prepend(CodePointBytes(code), EncodeFrom(str, next))
  {
    var unit := str[i];
    next := i + 1;
    if IsHighSurrogate(unit) {
      if next < |str| && IsLowSurrogate(str[next]) {
        code := PairCodePoint(unit, str[next]);
        next := next + 1;
        ok := true;
      } else {
        ok, code := false, 0;
      }
    } else {
      code := unit;
      ok := true;
    }
  }

  /** `stringToUtf8Bytes`, writing into a buffer of four bytes per code unit. */
  method StringToUtf8Bytes(str: seq<CodeUnit>) returns (r: Option<seq<Byte>>)
    ensures r == Encode(str)
  {
    var bytes := new Byte[4 * |str|];
    var i, j := 0, 0;
    match EncodeFrom(str, 0) {
      case None =>
      case Some(t) => assert bytes[..0] + t == t;
    }
    while i < |str|
      invariant 0 <= i <= |str| && 0 <= j <= 4 * i && bytes.Length == 4 * |str|
      invariant Encode(str) == Prepend(bytes[..j], EncodeFrom(str, i))
      decreases |str| - i
    {
      var ok, code, next := ReadCodeUnits(str, i);
      if !ok {
        return None;
      }
      i := next;
      ghost var before := bytes[..j];
      j := PutCodePoint(bytes, j, code);
      PrependTwice(before, CodePointBytes(code), EncodeFrom(str, i));
    }
    assert bytes[..j] + [] == bytes[..j];
    return Some(bytes[..j]);
  }

  /** The byte at `i`, or 0 past the end (`undefined & m` is 0). */
  function ByteAt(b: seq<Byte>, i: nat): Byte {
    if i < |b| then b[i] else 0
  }

  /** The code point of a two-byte sequence: five bits of the lead byte, six of the next. */
  function Code2(b1: Byte, b2: Byte): (c: nat)
    ensures c < 0x800
  {
    (b1 % 32) * 64 + b2 % 64
  }

  /** The code point of a three-byte sequence: four bits of the lead byte, six of each other. */
  function Code3(b1: Byte, b2: Byte, b3: Byte): (c: nat)
    ensures c < 0x10000
  {
    (b1 % 16) * 4096 + (b2 % 64) * 64 + b3 % 64
  }

  /** The code point of a four-byte sequence: three bits of the lead byte, six of each other. */
  function Code4(b1: Byte, b2: Byte, b3: Byte, b4: Byte): (c: nat)
    ensures c < 0x200000
  {
    (b1 % 8) * 262144 + (b2 % 64) * 4096 + (b3 % 64) * 64 + b4 % 64
  }

  /**
   * The lead byte picks the length: below 0x80 one byte, 110xxxxx two,
   * 1110xxxx three, anything else four. For a byte, a top-three-bits value of
   * 6 is the range 0xC0..0xDF and a top-four-bits value of 14 is 0xE0..0xEF.
   */
  function SequenceLength(b1: Byte): (n: nat)
    ensures 1 <= n <= 4
  {
    if b1 < 0x80 then 1 else if 0xC0 <= b1 < 0xE0 then 2 else if 0xE0 <= b1 < 0xF0 then 3 else 4
  }

  /** The code point of the sequence whose lead byte is `b[i]`. */
  function CodeAt(b: seq<Byte>, i: nat): (c: nat)
    requires i < |b|
    ensures c < 0x200000
  {
    var n := SequenceLength(b[i]);
    if n == 1 then b[i]
    else if n == 2 then Code2(b[i], ByteAt(b, i + 1))
    else if n == 3 then Code3(b[i], ByteAt(b, i + 1), ByteAt(b, i + 2))
    else Code4(b[i], ByteAt(b, i + 1), ByteAt(b, i + 2), ByteAt(b, i + 3))
  }

  /** The surrogate pair `String.fromCharCode` is given for a code point above 0xFFFF. */
  function HighHalf(code: nat): (u: CodeUnit)
    requires 0x10000 <= code < 0x200000
  {
    0xD800 + (code - 0x10000) / 1024
  }

  function LowHalf(code: nat): (u: CodeUnit)
    requires 0x10000 <= code
    ensures IsLowSurrogate(u)
  {
    0xDC00 + (code - 0x10000) % 1024
  }

  /** The code units appended for a decoded code point. */
  function CodeUnitsOf(code: nat): (u: seq<CodeUnit>)
    requires code < 0x200000
  {
    if code < 0x10000 then [code] else [HighHalf(code), LowHalf(code)]
  }

  /** The bytes from index `i` on; none once `i` has run past the end. */
  function Rest(b: seq<Byte>, i: nat): seq<Byte> {
    if i < |b| then b[i..] else []
  }

  /** The code units `utf8BytesToString` decodes from `b`. */
  function Decode(b: seq<Byte>): seq<CodeUnit>
    decreases |b|
  {
    if b == [] then [] else CodeUnitsOf(CodeAt(b, 0)) + Decode(Rest(b, SequenceLength(b[0])))
  }

  /** One step of `utf8BytesToString`: the code point at `i` and the index after its bytes. */
  method ReadCodePoint(bytes: seq<Byte>, i: nat) returns (code: nat, next: nat)
    requires i < |bytes|
    ensures code == CodeAt(bytes, i) && next == i + SequenceLength(bytes[i])
  {
    var b1 := bytes[i];
    next := i + 1;
    if b1 < 0x80 {
      code := b1;
    } else if b1 / 32 == 6 {
      var b2 := ByteAt(bytes, next);
      next := next + 1;
      code := Code2(b1, b2);
    } else if b1 / 16 == 14 {
      var b2 := ByteAt(bytes, next);
      var b3 := ByteAt(bytes, next + 1);
      next := next + 2;
      code := Code3(b1, b2, b3);
    } else {
      var b2 := ByteAt(bytes, next);
      var b3 := ByteAt(bytes, next + 1);
      var b4 := ByteAt(bytes, next + 2);
      next := next + 3;
      code := Code4(b1, b2, b3, b4);
    }
  }

  /** `utf8BytesToString`, reading past the end as zero bytes. */
  method Utf8BytesToString(bytes: seq<Byte>) returns (str: seq<CodeUnit>)
    ensures str == Decode(bytes)
  {
    str := [];
    var i := 0;
    assert Rest(bytes, 0) == bytes || bytes == [];
    while i < |bytes|
      invariant str + Decode(Rest(bytes, i)) == Decode(bytes)
      decreases |bytes| - i
    {
      ghost var start := i;
      var code;
      code, i := ReadCodePoint(bytes, i);
      ghost var old_str := str;
      if code < 0x10000 {
        str := str + [code];
      } else {
        str := str + [HighHalf(code), LowHalf(code)];
      }
      assert str == old_str + CodeUnitsOf(code);
      DecodeRest(bytes, start);
      ConcatAssoc(old_str, CodeUnitsOf(code), Decode(Rest(bytes, i)));
    }
    assert str + [] == str;
  }

  lemma TwoBytes(c: nat, rest: seq<Byte>)
    requires 0x80 <= c < 0x800
    ensures SequenceLength(CodePointBytes(c)[0]) == 2
    ensures CodeAt(CodePointBytes(c) + rest, 0) == c
  {
    var q, r := c / 64, c % 64;
    var b := CodePointBytes(c) + rest;
    assert b[0] == q + 0xC0 && ByteAt(b, 1) == r + 0x80;
    assert (q + 0xC0) / 32 == 6 && (q + 0xC0) % 32 == q;
    assert (r + 0x80) % 64 == r;
  }

  lemma ThreeBytes(c: nat, rest: seq<Byte>)
    requires 0x800 <= c < 0x10000
    ensures SequenceLength(CodePointBytes(c)[0]) == 3
    ensures CodeAt(CodePointBytes(c) + rest, 0) == c
  {
    var a, m := c / 4096, (c / 64) % 64;
    var r := c % 64;
    assert c == a * 4096 + m * 64 + r;
    var b := CodePointBytes(c) + rest;
    assert b[0] == a + 0xE0 && ByteAt(b, 1) == m + 0x80 && ByteAt(b, 2) == r + 0x80;
    assert (a + 0xE0) / 32 == 7 && (a + 0xE0) / 16 == 14 && (a + 0xE0) % 16 == a;
    assert (m + 0x80) % 64 == m && (r + 0x80) % 64 == r;
  }

  lemma FourBytes(c: nat, rest: seq<Byte>)
    requires 0x10000 <= c < 0x110000
    ensures SequenceLength(CodePointBytes(c)[0]) == 4
    ensures CodeAt(CodePointBytes(c) + rest, 0) == c
  {
    var q1, r := c / 64, c % 64;
    var q2, m := q1 / 64, q1 % 64;
    var a, h := q2 / 64, q2 % 64;
    assert c == 4096 * q2 + (64 * m + r);
    assert c / 4096 == q2;
    assert c == 262144 * a + (4096 * h + 64 * m + r);
    assert c / 262144 == a;
    var b := CodePointBytes(c) + rest;
    assert b[0] == a + 0xF0 && ByteAt(b, 1) == h + 0x80 && ByteAt(b, 2) == m + 0x80 && ByteAt(b, 3) == r + 0x80;
    assert (a + 0xF0) / 32 == 7 && (a + 0xF0) / 16 == 15 && (a + 0xF0) % 8 == a;
    assert (h + 0x80) % 64 == h && (m + 0x80) % 64 == m && (r + 0x80) % 64 == r;
  }

  /** Decoding the bytes of one code point gives it back and moves past exactly those bytes. */
  lemma DecodeCodePoint(c: nat, rest: seq<Byte>)
    requires c < 0x110000
    ensures SequenceLength(CodePointBytes(c)[0]) == |CodePointBytes(c)|
    ensures CodeAt(CodePointBytes(c) + rest, 0) == c
  {
    if c < 0x80 {
    } else if c < 0x800 {
      TwoBytes(c, rest);
    } else if c < 0x10000 {
      ThreeBytes(c, rest);
    } else {
      FourBytes(c, rest);
    }
  }

  /** One decoding step at index `i`: the code point there, then the bytes after its sequence. */
  lemma DecodeRest(b: seq<Byte>, i: nat)
    requires i < |b|
    ensures Decode(Rest(b, i)) == CodeUnitsOf(CodeAt(b, i)) + Decode(Rest(b, i + SequenceLength(b[i])))
  {
    var t := b[i..];
    CodeAtRest(b, i);
    var n := SequenceLength(b[i]);
    if n < |t| {
      assert t[n..] == b[i + n..];
    }
  }

  /** The sequence read at index `i` of `b` is the one read at the start of `b[i..]`. */
  lemma CodeAtRest(b: seq<Byte>, i: nat)
    requires i < |b|
    ensures Rest(b, i) == b[i..] && b[i..][0] == b[i] && CodeAt(b[i..], 0) == CodeAt(b, i)
  {
    var t := b[i..];
    assert ByteAt(t, 1) == ByteAt(b, i + 1);
    assert ByteAt(t, 2) == ByteAt(b, i + 2);
    assert ByteAt(t, 3) == ByteAt(b, i + 3);
  }

  /** A code point of a surrogate pair is split back into the same pair. */
  lemma PairHalves(upper: CodeUnit, lower: CodeUnit)
    requires IsHighSurrogate(upper) && IsLowSurrogate(lower)
    ensures HighHalf(PairCodePoint(upper, lower)) == upper
    ensures LowHalf(PairCodePoint(upper, lower)) == lower
  {
    var d := (upper - 0xD800) * 1024 + (lower - 0xDC00);
    assert PairCodePoint(upper, lower) - 0x10000 == d;
    assert d / 1024 == upper - 0xD800 && d % 1024 == lower - 0xDC00;
  }

  /** Decoding the bytes of a code point followed by more bytes. */
  lemma DecodeCons(c: nat, t: seq<Byte>)
    requires c < 0x110000
    ensures Decode(CodePointBytes(c) + t) == CodeUnitsOf(c) + Decode(t)
  {
    var bs := CodePointBytes(c);
    DecodeCodePoint(c, t);
    assert (bs + t)[0] == bs[0];
    assert Rest(bs + t, |bs|) == t;
  }

  /** From index `i` on, the encoder fails exactly when a high surrogate lacks its low half. */
  lemma {:induction false} EncodeDefinedFrom(s: seq<CodeUnit>, i: nat)
    requires i <= |s|
    ensures EncodeFrom(s, i).Some? <==> PairsCompleteFrom(s, i)
    decreases |s| - i
  {
    if i < |s| {
      if IsHighSurrogate(s[i]) && !(i + 1 < |s| && IsLowSurrogate(s[i + 1])) {
        assert !PairsCompleteFrom(s, i);
      } else {
        var n := if IsHighSurrogate(s[i]) then 2 else 1;
        EncodeDefinedFrom(s, i + n);
        if n == 2 {
          assert !IsHighSurrogate(s[i + 1]);
        }
        assert PairsCompleteFrom(s, i) <==> PairsCompleteFrom(s, i + n);
      }
    }
  }

  /** From index `i` on, decoding what the encoder produced gives back the code units. */
  lemma {:induction false} DecodeEncodeFrom(s: seq<CodeUnit>, i: nat)
    requires i <= |s| && EncodeFrom(s, i).Some?
    ensures Decode(EncodeFrom(s, i).value) == s[i..]
    decreases |s| - i
  {
    if i < |s| {
      var n := EncodeStep(s, i);
      DecodeEncodeFrom(s, i + n);
      DecodeEncodeStep(s, i, n);
    }
  }

  /** The encoder's step at `i`: how many code units it reads, and that the rest encodes too. */
  lemma EncodeStep(s: seq<CodeUnit>, i: nat) returns (n: nat)
    requires i < |s| && EncodeFrom(s, i).Some?
    ensures n == (if IsHighSurrogate(s[i]) then 2 else 1) && i + n <= |s|
    ensures EncodeFrom(s, i + n).Some?
  {
    n := if IsHighSurrogate(s[i]) then 2 else 1;
  }

  /** Decoding the bytes of one step recovers the code units that step read. */
  lemma DecodeEncodeStep(s: seq<CodeUnit>, i: nat, n: nat)
    requires i < |s| && EncodeFrom(s, i).Some?
    requires n == (if IsHighSurrogate(s[i]) then 2 else 1) && i + n <= |s|
    requires EncodeFrom(s, i + n).Some? && Decode(EncodeFrom(s, i + n).value) == s[i + n..]
    ensures Decode(EncodeFrom(s, i).value) == s[i..]
  {
    var c := if n == 2 then PairCodePoint(s[i], s[i + 1]) else s[i];
    var t := EncodeFrom(s, i + n).value;
    assert EncodeFrom(s, i).value == CodePointBytes(c) + t;
    DecodeCons(c, t);
    UnitsOfStep(s, i, n);
    assert s[i..] == s[i..i + n] + s[i + n..];
  }

  /** The code point a step reads turns back into the code units it was read from. */
  lemma UnitsOfStep(s: seq<CodeUnit>, i: nat, n: nat)
    requires i < |s| && n == (if IsHighSurrogate(s[i]) then 2 else 1) && i + n <= |s|
    requires n == 2 ==> IsLowSurrogate(s[i + 1])
    ensures var c := if n == 2 then PairCodePoint(s[i], s[i + 1]) else s[i];
      c < 0x110000 && CodeUnitsOf(c) == s[i..i + n]
  {
    if n == 2 {
      PairHalves(s[i], s[i + 1]);
    }
  }

  /**
   * `stringToUtf8Bytes` returns null exactly when some high surrogate lacks its
   * low half, and `utf8BytesToString` inverts it everywhere else.
   */
  lemma RoundTrip(s: seq<CodeUnit>)
    ensures Encode(s).Some? <==> PairsComplete(s)
    ensures Encode(s).Some? ==> Decode(Encode(s).value) == s
  {
    EncodeDefinedFrom(s, 0);
    if Encode(s).Some? {
      DecodeEncodeFrom(s, 0);
      assert s[0..] == s;
    }
  }
}
