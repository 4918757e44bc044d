/**
  UTF-8 as used by `std::str::from_utf8` and by the bytes of a Rust `String`.

  Well-formedness is the `UTF8-octets` grammar of section 4 of RFC 3629;
  `Decode` is the checking decoder and `Encode` the encoder of Unicode scalar
  values (Dafny's `char`), and the lemmas at the end relate the three.
 */
module Utf8Encoding {
  import opened BoundedInts
  import opened Wrappers

  /** UTF8-tail = %x80-BF */
  predicate IsTail(b: uint8) {
    0x80 <= b <= 0xBF
  }

  /** One `UTF8-char` of RFC 3629, section 4: UTF8-1 / UTF8-2 / UTF8-3 / UTF8-4. */
  predicate IsUtf8Char(s: seq<uint8>) {
    if |s| == 1 then
      s[0] <= 0x7F
    else if |s| == 2 then
      0xC2 <= s[0] <= 0xDF && IsTail(s[1])
    else if |s| == 3 then
      ((s[0] == 0xE0 && 0xA0 <= s[1] <= 0xBF) ||
       (0xE1 <= s[0] <= 0xEC && IsTail(s[1])) ||
       (s[0] == 0xED && 0x80 <= s[1] <= 0x9F) ||
       (0xEE <= s[0] <= 0xEF && IsTail(s[1]))) &&
      IsTail(s[2])
    else if |s| == 4 then
      ((s[0] == 0xF0 && 0x90 <= s[1] <= 0xBF) ||
       (0xF1 <= s[0] <= 0xF3 && IsTail(s[1])) ||
       (s[0] == 0xF4 && 0x80 <= s[1] <= 0x8F)) &&
      IsTail(s[2]) && IsTail(s[3])
    else
      false
  }

  /** `UTF8-octets = *( UTF8-char )`: the bytes split into well-formed characters. */
  ghost predicate IsUtf8(s: seq<uint8>)
    decreases |s|
  {
    s == [] ||
    exists k :: 1 <= k <= |s| && k <= 4 && IsUtf8Char(s[..k]) && IsUtf8(s[k..])
  }

  /** The length of the character a lead byte starts, or 0 if no character starts with it. */
  function LeadLength(b: uint8): nat
  {
    if b <= 0x7F then 1
    else if 0xC2 <= b <= 0xDF then 2
    else if 0xE0 <= b <= 0xEF then 3
    else if 0xF0 <= b <= 0xF4 then 4
    else 0
  }

  /** The UTF-8 encoding of one Unicode scalar value. */
  function EncodeChar(c: char): (s: seq<uint8>)
    ensures IsUtf8Char(s)
  {
    var n := c as int;
    if n < 0x80 then
      [n]
    else if n < 0x800 then
      [0xC0 + n / 0x40, 0x80 + n % 0x40]
    else if n < 0x1_0000 then
      ShiftTwelve(n);
      [0xE0 + n / 0x1000, 0x80 + (n / 0x40) % 0x40, 0x80 + n % 0x40]
    else
      ShiftTwelve(n);
      ShiftEighteen(n);
      [0xF0 + n / 0x4_0000, 0x80 + (n / 0x1000) % 0x40, 0x80 + (n / 0x40) % 0x40, 0x80 + n % 0x40]
  }

  /** The scalar value a well-formed character encodes; encoding it again gives back the bytes. */
  function DecodeChar(s: seq<uint8>): (c: char)
    requires IsUtf8Char(s)
    ensures EncodeChar(c) == s
  {
    if |s| == 1 then s[0] as char
    else if |s| == 2 then DecodeTwo(s)
    else if |s| == 3 then DecodeThree(s)
    else DecodeFour(s)
  }

  /** A two-byte character: five payload bits in the lead byte, six in the tail. */
  function DecodeTwo(s: seq<uint8>): (c: char)
    requires |s| == 2 && IsUtf8Char(s)
    ensures EncodeChar(c) == s
  {
    var n := (s[0] as int - 0xC0) * 0x40 + (s[1] as int - 0x80);
    Digits(s[0] as int - 0xC0, s[1] as int - 0x80);
    n as char
  }

  /** A three-byte character: four payload bits in the lead byte, six in each tail. */
  function DecodeThree(s: seq<uint8>): (c: char)
    requires |s| == 3 && IsUtf8Char(s)
    ensures EncodeChar(c) == s
  {
    var hi := (s[0] as int - 0xE0) * 0x40 + (s[1] as int - 0x80);
    var n := hi * 0x40 + (s[2] as int - 0x80);
    Digits(hi, s[2] as int - 0x80);
    Digits(s[0] as int - 0xE0, s[1] as int - 0x80);
    ShiftTwelve(n);
    n as char
  }

  /** A four-byte character: three payload bits in the lead byte, six in each tail. */
  function DecodeFour(s: seq<uint8>): (c: char)
    requires |s| == 4 && IsUtf8Char(s)
    ensures EncodeChar(c) == s
  {
    var top := (s[0] as int - 0xF0) * 0x40 + (s[1] as int - 0x80);
    var hi := top * 0x40 + (s[2] as int - 0x80);
    var n := hi * 0x40 + (s[3] as int - 0x80);
    Digits(hi, s[3] as int - 0x80);
    Digits(top, s[2] as int - 0x80);
    Digits(s[0] as int - 0xF0, s[1] as int - 0x80);
    ShiftTwelve(n);
    ShiftEighteen(n);
    n as char
  }

  /** Base-64 digits: the quotient and remainder of `q * 64 + r` are `q` and `r`. */
  lemma Digits(q: nat, r: int)
    requires 0 <= r < 0x40
    ensures (q * 0x40 + r) / 0x40 == q && (q * 0x40 + r) % 0x40 == r
  {
  }

  /** Shifting right by 12 bits is shifting right by 6 twice. */
  lemma ShiftTwelve(n: nat)
    ensures n / 0x1000 == (n / 0x40) / 0x40
  {
  }

  /** Shifting right by 18 bits is shifting right by 6 three times. */
  lemma ShiftEighteen(n: nat)
    ensures n / 0x4_0000 == ((n / 0x40) / 0x40) / 0x40
  {
  }

  /** The bytes of a string: the encodings of its characters, in order. */
  function Encode(cs: string): seq<uint8>
  {
    if cs == [] then [] else EncodeChar(cs[0]) + Encode(cs[1..])
  }

  /**
    `std::str::from_utf8`: the string the bytes encode, or `None` when they are
    not well-formed. Whatever it returns encodes back to exactly its input.
   */
  function Decode(s: seq<uint8>): (r: Option<string>)
    ensures r.Some? ==> Encode(r.value) == s
    decreases |s|
  {
    if s == [] then
      Some([])
    else
      var k := LeadLength(s[0]);
      if k == 0 || |s| < k || !IsUtf8Char(s[..k]) then
        None
      else
        match Decode(s[k..])
        case None => None
        case Some(rest) =>
          var c := DecodeChar(s[..k]);
          EncodeSplit(s, k, c, rest);
          Some([c] + rest)
  }

  /** Decoding a single encoded character gives the character back. */
  lemma DecodeEncodeChar(c: char)
    ensures DecodeChar(EncodeChar(c)) == c
  {
    var n := c as int;
    if 0x800 <= n {
      ShiftTwelve(n);
      ShiftEighteen(n);
    }
  }

  /** Bytes that split into one character's encoding and a string's encoding encode their concatenation. */
  lemma EncodeSplit(s: seq<uint8>, k: nat, c: char, rest: string)
    requires k <= |s| && EncodeChar(c) == s[..k] && Encode(rest) == s[k..]
    ensures Encode([c] + rest) == s
  {
  }

  /** Round trip: every string's encoding decodes back to that string. */
  lemma {:induction false} DecodeEncode(cs: string)
    ensures Decode(Encode(cs)) == Some(cs)
  {
    if cs != [] {
      var e := EncodeChar(cs[0]);
      var s := Encode(cs);
      DecodeEncode(cs[1..]);
      assert s == e + Encode(cs[1..]);
      assert s[..|e|] == e && s[|e|..] == Encode(cs[1..]);
      DecodeEncodeChar(cs[0]);
      assert [cs[0]] + cs[1..] == cs;
    }
  }

  /** `from_utf8` succeeds exactly on the byte strings the RFC 3629 grammar accepts. */
  lemma {:induction false} DecodeAcceptsGrammar(s: seq<uint8>)
    ensures Decode(s).Some? <==> IsUtf8(s)
    decreases |s|
  {
    if s != [] {
      var k := LeadLength(s[0]);
      if IsUtf8(s) {
        var j :| 1 <= j <= |s| && j <= 4 && IsUtf8Char(s[..j]) && IsUtf8(s[j..]);
        assert s[..j][0] == s[0];
        DecodeAcceptsGrammar(s[j..]);
      } else if k != 0 && k <= |s| && IsUtf8Char(s[..k]) {
        DecodeAcceptsGrammar(s[k..]);
        assert !IsUtf8(s[k..]);
      }
    }
  }

  /** The bytes of every string are well-formed UTF-8. */
  lemma EncodeIsUtf8(cs: string)
    ensures IsUtf8(Encode(cs))
  {
    DecodeEncode(cs);
    DecodeAcceptsGrammar(Encode(cs));
  }

  /** Two strings with the same bytes are the same string. */
  lemma EncodeInjective(cs: string, ds: string)
    requires Encode(cs) == Encode(ds)
    ensures cs == ds
  {
    DecodeEncode(cs);
    DecodeEncode(ds);
  }
}
