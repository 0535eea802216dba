/** Percent-encoding of attachment names for `filename*` (section 3.2.1 of RFC 5987). */
module Rfc5987 {
  import opened Bytes

  const PERCENT: byte := 37

  predicate IsAlphanumeric(b: byte) {
    48 <= b <= 57 || 65 <= b <= 90 || 97 <= b <= 122
  }

  /** `attr-char`: alphanumerics and twelve punctuation marks. */
  predicate IsAttrChar(b: byte) {
    IsAlphanumeric(b) || b in {33, 35, 36, 38, 43, 45, 46, 94, 95, 96, 124, 126}
  }

  /** The grammar's own words: ALPHA, DIGIT and the twelve marks of `attr-char`. */
  predicate InGrammar(c: char) {
    'A' <= c <= 'Z' || 'a' <= c <= 'z' || '0' <= c <= '9' || c in "!#$&+-.^_`|~"
  }

  /** Upper-case hexadecimal digit of a nibble. */
  function HexDigit(n: int): byte
    requires 0 <= n < 16
  {
    if n < 10 then (48 + n) as byte else (55 + n) as byte
  }

  function HexValue(b: byte): Option<int> {
    if 48 <= b <= 57 then Some(b as int - 48)
    else if 65 <= b <= 70 then Some(b as int - 55)
    else None
  }

  function EncodeByte(b: byte): Bytes {
    if IsAttrChar(b) then [b] else [PERCENT, HexDigit(b as int / 16), HexDigit(b as int % 16)]
  }

  function Encode(name: Bytes): Bytes {
    if name == [] then [] else EncodeByte(name[0]) + Encode(name[1..])
  }

  /** What a recipient makes of `value-chars`; none when they are malformed. */
  function Decode(s: Bytes): Option<Bytes> {
    if s == [] then Some([])
    else if s[0] == PERCENT then
      if |s| < 3 || HexValue(s[1]).None? || HexValue(s[2]).None? then None
      else
        var rest := Decode(s[3..]);
        if rest.None? then None
        else Some([(16 * HexValue(s[1]).value + HexValue(s[2]).value) as byte] + rest.value)
    else if IsAttrChar(s[0]) then
      var rest := Decode(s[1..]);
      if rest.None? then None else Some([s[0]] + rest.value)
    else None
  }

  method EncodeName(name: Bytes) returns (out: Bytes)
    ensures out == Encode(name)
  {
    out := [];
    assert name[0..] == name;
    for i := 0 to |name|
      invariant out + Encode(name[i..]) == Encode(name)
    {
      var b := name[i];
      EncodeNext(out, name, i);
      if IsAttrChar(b) {
        out := out + [b];
      } else {
        out := out + [PERCENT, HexDigit(b as int / 16), HexDigit(b as int % 16)];
      }
    }
  }

  lemma {:induction false} EncodeNext(out: Bytes, name: Bytes, i: nat)
    requires i < |name|
    ensures out + Encode(name[i..]) == (out + EncodeByte(name[i])) + Encode(name[i + 1..])
  {
    assert name[i..][0] == name[i] && name[i..][1..] == name[i + 1..];
    Reassociate(out, EncodeByte(name[i]), Encode(name[i + 1..]));
  }

  /** A byte stands for itself exactly when the grammar lists it; else its hexadecimal value stands for it. */
  lemma {:induction false} EncodeByteExactly(b: byte)
    ensures InGrammar(b as char) <==> EncodeByte(b) == [b]
    ensures !InGrammar(b as char) ==>
              |EncodeByte(b)| == 3 && EncodeByte(b)[0] as char == '%'
              && EncodeByte(b)[1] as char == "0123456789ABCDEF"[b as int / 16]
              && EncodeByte(b)[2] as char == "0123456789ABCDEF"[b as int % 16]
  {
    MarksExactly(b);
    HexDigitExactly(b as int / 16);
    HexDigitExactly(b as int % 16);
  }

  lemma {:induction false} MarksExactly(b: byte)
    ensures b as char in "!#$&+-.^_`|~" <==> b in {33, 35, 36, 38, 43, 45, 46, 94, 95, 96, 124, 126}
  {
    var marks := "!#$&+-.^_`|~";
    assert marks[0] == '!' && marks[1] == '#' && marks[2] == '$' && marks[3] == '&' && marks[4] == '+';
    assert marks[5] == '-' && marks[6] == '.' && marks[7] == '^' && marks[8] == '_' && marks[9] == '`';
    assert marks[10] == '|' && marks[11] == '~';
  }

  lemma {:induction false} HexDigitExactly(n: int)
    requires 0 <= n < 16
    ensures HexDigit(n) as char == "0123456789ABCDEF"[n]
  {
  }

  lemma ByteRoundTrip(b: byte, rest: Bytes)
    ensures Decode(EncodeByte(b) + rest)
         == if Decode(rest).None? then None else Some([b] + Decode(rest).value)
  {
    var s := EncodeByte(b) + rest;
    if IsAttrChar(b) {
      assert s[1..] == rest;
    } else {
      assert s[3..] == rest;
      var hi, lo := b as int / 16, b as int % 16;
      assert HexValue(HexDigit(hi)) == Some(hi) && HexValue(HexDigit(lo)) == Some(lo);
      assert (16 * hi + lo) as byte == b;
    }
  }

  /** Decoding gives back every byte string, so no two names encode alike. */
  lemma {:induction false} RoundTrip(name: Bytes)
    ensures Decode(Encode(name)) == Some(name)
  {
    if name != [] {
      RoundTrip(name[1..]);
      ByteRoundTrip(name[0], Encode(name[1..]));
      assert name == [name[0]] + name[1..];
    }
  }

  lemma EncodeInjective(a: Bytes, b: Bytes)
    requires Encode(a) == Encode(b)
    ensures a == b
  {
    RoundTrip(a);
    RoundTrip(b);
  }

  /** The output is `attr-char` bytes and percent triples only; quotes, controls and separators never occur. */
  lemma {:induction false} EncodedAlphabet(name: Bytes, i: nat)
    requires i < |Encode(name)|
    ensures InGrammar(Encode(name)[i] as char) || Encode(name)[i] as char == '%'
    ensures Encode(name)[i] as char == '%' ==>
              i + 2 < |Encode(name)|
              && HexValue(Encode(name)[i + 1]).Some? && HexValue(Encode(name)[i + 2]).Some?
  {
    var first := EncodeByte(name[0]);
    EncodeByteExactly(name[0]);
    if i >= |first| {
      EncodedAlphabet(name[1..], i - |first|);
    } else if !IsAttrChar(name[0]) {
      assert HexDigit(name[0] as int / 16) != PERCENT && HexDigit(name[0] as int % 16) != PERCENT;
    }
  }

  /** Number of bytes that need escaping. */
  function Escaped(name: Bytes): nat {
    if name == [] then 0 else (if IsAttrChar(name[0]) then 0 else 1) + Escaped(name[1..])
  }

  /** Each escaped byte costs two more, so the length lies between n and 3n. */
  lemma {:induction false} EncodedLength(name: Bytes)
    ensures |Encode(name)| == |name| + 2 * Escaped(name)
    ensures |name| <= |Encode(name)| <= 3 * |name|
  {
    if name != [] {
      EncodedLength(name[1..]);
    }
  }
}
