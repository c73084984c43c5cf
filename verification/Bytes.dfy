/** Bytes, zero runs, byte sums and UTF-8 well-formedness, shared by the archive models. */
module Bytes {
  type Byte = b: int | 0 <= b < 256

  function Zeros(n: nat): (z: seq<Byte>)
    ensures |z| == n && AllZero(z)
  {
    seq(n, _ => 0)
  }

  /** Python's `not any(block)`. */
  predicate AllZero(s: seq<Byte>) {
    forall i :: 0 <= i < |s| ==> s[i] == 0
  }

  lemma AllZeroIsZeros(s: seq<Byte>)
    requires AllZero(s)
    ensures s == Zeros(|s|)
  {
  }

  /** Python's `sum(block)`. */
  function Sum(s: seq<Byte>): (n: nat)
    ensures n <= 255 * |s|
  {
    if s == [] then 0 else Sum(s[..|s| - 1]) + s[|s| - 1]
  }

  predicate Continuation(b: Byte) {
    0x80 <= b <= 0xBF
  }

  /** Length of the well-formed UTF-8 sequence at the front of s, 0 when there is none
      (RFC 3629, section 4). */
  function Utf8Lead(s: seq<Byte>): (n: nat)
    requires s != []
    ensures n <= |s|
  {
    if s[0] < 0x80 then 1
    else if |s| >= 2 && 0xC2 <= s[0] <= 0xDF && Continuation(s[1]) then 2
    else if |s| >= 3 && 0xE0 <= s[0] <= 0xEF && Continuation(s[1]) && Continuation(s[2])
            && (s[0] == 0xE0 ==> 0xA0 <= s[1]) && (s[0] == 0xED ==> s[1] <= 0x9F) then 3
    else if |s| >= 4 && 0xF0 <= s[0] <= 0xF4
            && Continuation(s[1]) && Continuation(s[2]) && Continuation(s[3])
            && (s[0] == 0xF0 ==> 0x90 <= s[1]) && (s[0] == 0xF4 ==> s[1] <= 0x8F) then 4
    else 0
  }

  predicate IsUtf8(s: seq<Byte>)
    decreases |s|
  {
    s == [] || (Utf8Lead(s) > 0 && IsUtf8(s[Utf8Lead(s)..]))
  }

  lemma AsciiIsUtf8(s: seq<Byte>)
    requires forall i :: 0 <= i < |s| ==> s[i] < 0x80
    ensures IsUtf8(s)
  {
    if s != [] {
      AsciiIsUtf8(s[1..]);
    }
  }

  // ---- UTF-8 is what encoding writes ----

  predicate IsScalar(c: int) {
    0 <= c <= 0xD7FF || 0xE000 <= c <= 0x10FFFF
  }

  /** The bits of a code point, six to a continuation byte. */
  function EncodeOne(c: int): (s: seq<Byte>)
    requires IsScalar(c)
    ensures s != []
  {
    if c < 0x80 then [c]
    else if c < 0x800 then [192 + c / 64, 128 + c % 64]
    else if c < 0x10000 then [224 + c / 4096, 128 + c / 64 % 64, 128 + c % 64]
    else [240 + c / 262144, 128 + c / 4096 % 64, 128 + c / 64 % 64, 128 + c % 64]
  }

  ghost predicate AllScalars(text: seq<int>) {
    forall i :: 0 <= i < |text| ==> IsScalar(text[i])
  }

  function EncodeText(text: seq<int>): seq<Byte>
    requires AllScalars(text)
  {
    if text == [] then [] else EncodeOne(text[0]) + EncodeText(text[1..])
  }

  lemma EncodedLead(c: int, rest: seq<Byte>)
    requires IsScalar(c)
    ensures Utf8Lead(EncodeOne(c) + rest) == |EncodeOne(c)|
  {
    var s := EncodeOne(c) + rest;
    assert forall i :: 0 <= i < |EncodeOne(c)| ==> s[i] == EncodeOne(c)[i];
  }

  /** Base-64 digits. */
  lemma TwoDigits(a: int, d: int)
    requires 0 <= a && 0 <= d < 64
    ensures (64 * a + d) / 64 == a && (64 * a + d) % 64 == d
  {
  }

  lemma ThreeDigits(a: int, b: int, d: int)
    requires 0 <= a && 0 <= b < 64 && 0 <= d < 64
    ensures var n := 4096 * a + 64 * b + d; n / 4096 == a && n / 64 % 64 == b && n % 64 == d
  {
    var n := 4096 * a + 64 * b + d;
    TwoDigits(64 * a + b, d);
    TwoDigits(a, b);
    assert n == 64 * (64 * a + b) + d;
  }

  lemma FourDigits(a: int, b: int, c: int, d: int)
    requires 0 <= a && 0 <= b < 64 && 0 <= c < 64 && 0 <= d < 64
    ensures var n := 262144 * a + 4096 * b + 64 * c + d;
            n / 262144 == a && n / 4096 % 64 == b && n / 64 % 64 == c && n % 64 == d
  {
    var n := 262144 * a + 4096 * b + 64 * c + d;
    ThreeDigits(64 * a + b, c, d);
    TwoDigits(4096 * a + 64 * b + c, d);
    ThreeDigits(a, b, c);
    assert n == 4096 * (64 * a + b) + 64 * c + d && n == 64 * (4096 * a + 64 * b + c) + d;
    TwoDigits(a, b);
  }

  lemma LeadIsEncoded(s: seq<Byte>) returns (c: int)
    requires s != [] && Utf8Lead(s) > 0
    ensures IsScalar(c) && EncodeOne(c) == s[..Utf8Lead(s)]
  {
    var n := Utf8Lead(s);
    if n == 1 {
      c := s[0];
    } else if n == 2 {
      var a, d: int := s[0] as int - 192, s[1] as int - 128;
      c := 64 * a + d;
      TwoDigits(a, d);
    } else if n == 3 {
      c := ThreeBytes(s);
    } else {
      c := FourBytes(s);
    }
  }

  lemma ThreeBytes(s: seq<Byte>) returns (c: int)
    requires s != [] && Utf8Lead(s) == 3
    ensures IsScalar(c) && EncodeOne(c) == s[..3]
  {
    var a, b: int, d: int := s[0] as int - 224, s[1] as int - 128, s[2] as int - 128;
    c := 4096 * a + 64 * b + d;
    ThreeDigits(a, b, d);
  }

  lemma FourBytes(s: seq<Byte>) returns (c: int)
    requires s != [] && Utf8Lead(s) == 4
    ensures IsScalar(c) && EncodeOne(c) == s[..4]
  {
    var a, b: int, e: int, d: int := s[0] as int - 240, s[1] as int - 128, s[2] as int - 128, s[3] as int - 128;
    c := 262144 * a + 4096 * b + 64 * e + d;
    FourDigits(a, b, e, d);
  }

  /** Main result: the well-formed byte strings are exactly the encodings of texts. */
  lemma {:induction false} Utf8Iff(s: seq<Byte>)
    ensures IsUtf8(s) <==> exists text :: AllScalars(text) && EncodeText(text) == s
    decreases |s|
  {
    hide Utf8Lead, EncodeOne, IsScalar;
    if s == [] {
      assert AllScalars([]) && EncodeText([]) == [];
    } else {
      if Utf8Lead(s) > 0 {
        Utf8Iff(s[Utf8Lead(s)..]);
      }
      if IsUtf8(s) {
        var c := LeadIsEncoded(s);
        var rest :| AllScalars(rest) && EncodeText(rest) == s[Utf8Lead(s)..];
        var text := [c] + rest;
        assert text[1..] == rest && AllScalars(text);
        assert EncodeText(text) == s;
      }
      if text :| AllScalars(text) && EncodeText(text) == s {
        EncodedLead(text[0], EncodeText(text[1..]));
        assert s[|EncodeOne(text[0])|..] == EncodeText(text[1..]);
        assert AllScalars(text[1..]);
      }
    }
  }
}
