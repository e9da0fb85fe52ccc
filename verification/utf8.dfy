/**
 UTF-8 as section 3 of RFC 3629 defines it, a strict decoder that reports where the first
 ill-formed sequence starts, and cutting a string to a number of bytes without splitting a
 character.
 */
module Utf8 {
  import opened Wrappers

  type Byte = b: int | 0 <= b < 256

  predicate IsScalar(code: int) {
    0 <= code < 0xD800 || 0xE000 <= code < 0x11_0000
  }

  function EncodeChar(c: char): (r: seq<Byte>)
    ensures 1 <= |r| <= 4
  {
    var code := c as int;
    if code < 0x80 then [code]
    else if code < 0x800 then [0xC0 + code / 64, 0x80 + code % 64]
    else if code < 0x1_0000 then [0xE0 + code / 4096, 0x80 + code / 64 % 64, 0x80 + code % 64]
    else [0xF0 + code / 262144, 0x80 + code / 4096 % 64, 0x80 + code / 64 % 64, 0x80 + code % 64]
  }

  function Encode(s: string): seq<Byte> {
    if s == "" then [] else EncodeChar(s[0]) + Encode(s[1..])
  }

  function ByteLength(s: string): nat {
    |Encode(s)|
  }

  // The payload of byte k as a continuation byte.
  function Payload(bytes: seq<Byte>, k: nat): Option<int> {
    if k < |bytes| && 0x80 <= bytes[k] < 0xC0 then Some(bytes[k] - 0x80) else None
  }

  // The code point at the front and the bytes it takes; none if the front is ill-formed.
  function DecodeFront(bytes: seq<Byte>): (r: Option<(char, nat)>)
    requires bytes != []
    ensures r.Some? ==> 1 <= r.value.1 <= |bytes|
  {
    var b, p1, p2, p3 := bytes[0], Payload(bytes, 1), Payload(bytes, 2), Payload(bytes, 3);
    if b < 0x80 then Some((b as char, 1))
    else if 0xC0 <= b < 0xE0 && p1.Some? then Scalar((b - 0xC0) * 64 + p1.value, 0x80, 2)
    else if 0xE0 <= b < 0xF0 && p1.Some? && p2.Some? then Scalar((b - 0xE0) * 4096 + p1.value * 64 + p2.value, 0x800, 3)
    else if 0xF0 <= b < 0xF8 && p1.Some? && p2.Some? && p3.Some? then
      Scalar((b - 0xF0) * 262144 + p1.value * 4096 + p2.value * 64 + p3.value, 0x1_0000, 4)
    else None
  }

  // Overlong forms, surrogates and values beyond the last code point are ill-formed.
  function Scalar(code: int, least: int, size: nat): (r: Option<(char, nat)>)
    ensures r.Some? ==> r.value.1 == size && r.value.0 as int == code
  {
    if code >= least && IsScalar(code) then Some((code as char, size)) else None
  }

  datatype Decoded = Text(text: string) | IllFormed(start: nat)

  function Decode(bytes: seq<Byte>): (r: Decoded)
    ensures r.IllFormed? ==> r.start < |bytes|
  {
    if bytes == [] then Text("")
    else
      var front := DecodeFront(bytes);
      if front.None? then IllFormed(0)
      else
        match Decode(bytes[front.value.1..])
        case Text(rest) => Text([front.value.0] + rest)
        case IllFormed(start) => IllFormed(front.value.1 + start)
  }

  // The bytes of a character: as many as its range says, the first telling how many follow, the
  // others marked as continuations, and their payloads together its code point.
  lemma EncodedBytes(c: char)
    ensures var code: int, r: seq<int> := c as int, EncodeChar(c);
      && (code < 0x80 ==> r == [code])
      && (forall k {:trigger r[k]} :: 1 <= k < |r| ==> 0x80 <= r[k] < 0xC0)
      && (0x80 <= code < 0x800 ==>
            && |r| == 2 && 0xC0 <= r[0] < 0xE0
            && code == (r[0] - 0xC0) * 64 + (r[1] - 0x80))
      && (0x800 <= code < 0x1_0000 ==>
            && |r| == 3 && 0xE0 <= r[0] < 0xF0
            && code == (r[0] - 0xE0) * 4096 + (r[1] - 0x80) * 64 + (r[2] - 0x80))
      && (0x1_0000 <= code ==>
            && |r| == 4 && 0xF0 <= r[0] < 0xF8
            && code == (r[0] - 0xF0) * 262144 + (r[1] - 0x80) * 4096 + (r[2] - 0x80) * 64 + (r[3] - 0x80))
  {
    Digits64(c as int);
  }

  // ------------------------------------------------------- round trips

  lemma DecodeFrontEncoded(c: char, rest: seq<Byte>)
    ensures DecodeFront(EncodeChar(c) + rest) == Some((c, |EncodeChar(c)|))
  {
    var code := c as int;
    Digits64(code);
  }

  lemma Digits64(code: nat)
    ensures code / 64 * 64 + code % 64 == code
    ensures code / 4096 * 4096 + code / 64 % 64 * 64 + code % 64 == code
    ensures code / 262144 * 262144 + code / 4096 % 64 * 4096 + code / 64 % 64 * 64 + code % 64 == code
  {
    assert code / 64 / 64 == code / 4096;
    assert code / 4096 / 64 == code / 262144;
  }

  lemma {:induction false} DecodeEncode(s: string)
    ensures Decode(Encode(s)) == Text(s)
  {
    if s != "" {
      DecodeFrontEncoded(s[0], Encode(s[1..]));
      DecodeEncode(s[1..]);
      assert Encode(s)[|EncodeChar(s[0])|..] == Encode(s[1..]);
    }
  }

  lemma Undo64(high: nat, low: nat)
    requires low < 64
    ensures (high * 64 + low) / 64 == high && (high * 64 + low) % 64 == low
  {
  }

  lemma UndoDigits(a: nat, p1: nat, p2: nat, p3: nat)
    requires p1 < 64 && p2 < 64 && p3 < 64
    ensures var code := a * 262144 + p1 * 4096 + p2 * 64 + p3;
      code / 262144 == a && code / 4096 % 64 == p1 && code / 64 % 64 == p2 && code % 64 == p3
  {
    Undo64(a, p1);
    Undo64(a * 64 + p1, p2);
    Undo64((a * 64 + p1) * 64 + p2, p3);
    Digits64(a * 262144 + p1 * 4096 + p2 * 64 + p3);
  }

  lemma EncodeTwo(c: char, a: nat, p1: nat)
    requires c as int == a * 64 + p1 && p1 < 64 && 0x80 <= c as int && a < 32
    ensures EncodeChar(c) == [0xC0 + a, 0x80 + p1]
  {
    Undo64(a, p1);
  }

  lemma EncodeThree(c: char, a: nat, p1: nat, p2: nat)
    requires c as int == a * 4096 + p1 * 64 + p2 && p1 < 64 && p2 < 64 && 0x800 <= c as int && a < 16
    ensures EncodeChar(c) == [0xE0 + a, 0x80 + p1, 0x80 + p2]
  {
    UndoDigits(0, a, p1, p2);
    Undo64(a, p1);
    Undo64(a * 64 + p1, p2);
    Digits64(c as int);
  }

  lemma EncodeFour(c: char, a: nat, p1: nat, p2: nat, p3: nat)
    requires c as int == a * 262144 + p1 * 4096 + p2 * 64 + p3 && p1 < 64 && p2 < 64 && p3 < 64
    requires 0x1_0000 <= c as int && a < 8
    ensures EncodeChar(c) == [0xF0 + a, 0x80 + p1, 0x80 + p2, 0x80 + p3]
  {
    UndoDigits(a, p1, p2, p3);
  }

  lemma EncodeFrontDecoded(bytes: seq<Byte>)
    requires bytes != [] && DecodeFront(bytes).Some?
    ensures EncodeChar(DecodeFront(bytes).value.0) == bytes[..DecodeFront(bytes).value.1]
  {
    var (c, n) := DecodeFront(bytes).value;
    var b := bytes[0];
    if n == 2 {
      EncodeTwo(c, b - 0xC0, bytes[1] - 0x80);
    } else if n == 3 {
      EncodeThree(c, b - 0xE0, bytes[1] - 0x80, bytes[2] - 0x80);
    } else if n == 4 {
      EncodeFour(c, b - 0xF0, bytes[1] - 0x80, bytes[2] - 0x80, bytes[3] - 0x80);
    }
  }

  // The decoder accepts nothing but encodings.
  lemma {:induction false} EncodeDecode(bytes: seq<Byte>)
    requires Decode(bytes).Text?
    ensures Encode(Decode(bytes).text) == bytes
  {
    hide DecodeFront, EncodeChar;
    if bytes != [] {
      var n := DecodeFront(bytes).value.1;
      EncodeFrontDecoded(bytes);
      EncodeDecode(bytes[n..]);
      assert bytes[..n] + bytes[n..] == bytes;
      var text := Decode(bytes).text;
      assert text[1..] == Decode(bytes[n..]).text;
    }
  }

  // --------------------------------------------------------- truncation

  // How many leading characters fit k bytes.
  function WholeChars(s: string, k: nat): (n: nat)
    ensures n <= |s|
  {
    if s == "" || |EncodeChar(s[0])| > k then 0 else 1 + WholeChars(s[1..], k - |EncodeChar(s[0])|)
  }

  lemma {:induction false} EncodeAppend(a: string, b: string)
    ensures Encode(a + b) == Encode(a) + Encode(b)
  {
    if a == "" {
      assert a + b == b;
    } else {
      assert (a + b)[1..] == a[1..] + b;
      EncodeAppend(a[1..], b);
    }
  }

  // The longest prefix made of whole characters that fits.
  lemma {:induction false} WholeCharsLongest(s: string, k: nat, n: nat)
    requires n <= |s|
    ensures ByteLength(s[..n]) <= k <==> n <= WholeChars(s, k)
  {
    if n == 0 {
      assert s[..0] == "";
    } else {
      assert s[..n][1..] == s[1..][..n - 1];
      if |EncodeChar(s[0])| <= k {
        WholeCharsLongest(s[1..], k - |EncodeChar(s[0])|, n - 1);
      }
    }
  }

  lemma PartialChar(c: char, k: nat)
    requires 0 < k < |EncodeChar(c)|
    ensures DecodeFront(EncodeChar(c)[..k]).None?
  {
  }

  // Cutting an encoding at any byte: it decodes to the whole characters before the cut, or
  // is ill-formed where the cut one starts.
  lemma {:induction false} DecodeCut(s: string, k: nat)
    requires k <= ByteLength(s)
    ensures var n := WholeChars(s, k);
      && ByteLength(s[..n]) <= k
      && Decode(Encode(s)[..k]) == if ByteLength(s[..n]) == k then Text(s[..n]) else IllFormed(ByteLength(s[..n]))
  {
    hide EncodeChar, DecodeFront;
    var n := WholeChars(s, k);
    if k == 0 {
      assert s[..n] == "";
    } else {
      var front, cut := EncodeChar(s[0]), Encode(s)[..k];
      if |front| > k {
        assert s[..n] == "" && cut == front[..k];
        PartialChar(s[0], k);
      } else {
        var rest := Encode(s[1..])[..k - |front|];
        assert cut == front + rest;
        DecodeFrontEncoded(s[0], rest);
        DecodeCut(s[1..], k - |front|);
        assert cut[|front|..] == rest;
        assert s[..n] == [s[0]] + s[1..][..n - 1];
        assert s[..n][1..] == s[1..][..n - 1];
      }
    }
  }

  function Truncated(value: string, maxBytes: int): string {
    if maxBytes <= 0 then "" else value[..WholeChars(value, maxBytes)]
  }

  method TruncateToUtf8Bytes(value: string, maxBytes: int) returns (r: string)
    ensures r == Truncated(value, maxBytes)
  {
    hide Encode, Decode, WholeChars;
    if maxBytes <= 0 {
      return "";
    }
    var encoded := Encode(value);
    WholeCharsLongest(value, maxBytes, |value|);
    assert value[..|value|] == value;
    if |encoded| <= maxBytes {
      return value;
    }
    var truncated := encoded[..maxBytes];
    ghost var n := WholeChars(value, maxBytes);
    while truncated != []
      invariant truncated == encoded[..|truncated|]
      invariant WholeChars(value, |truncated|) == n
      decreases |truncated|
    {
      DecodeCut(value, |truncated|);
      match Decode(truncated) {
        case Text(text) => return text;
        case IllFormed(start) =>
          WholeCharsAgain(value, |truncated|);
          truncated := truncated[..start];
      }
    }
    NoBytesNoChars(value);
    return "";
  }

  lemma NoBytesNoChars(s: string)
    ensures WholeChars(s, 0) == 0
  {
  }

  // Cutting once more at the end of the last whole character keeps the characters.
  lemma {:induction false} WholeCharsAgain(s: string, k: nat)
    ensures WholeChars(s, ByteLength(s[..WholeChars(s, k)])) == WholeChars(s, k)
  {
    var n := WholeChars(s, k);
    if n == 0 {
      assert s[..0] == "";
    } else {
      assert s[..n][1..] == s[1..][..n - 1];
      WholeCharsAgain(s[1..], k - |EncodeChar(s[0])|);
    }
  }
}
