/** Bytes and text. A Rust `String` is a byte vector that holds well-formed
    UTF-8; the model keeps exactly that representation: text is a sequence of
    bytes together with the well-formedness check of section 4 of RFC 3629.
    No decoding to code points is modelled. */
module Bytes {

  newtype byte = b: int | 0 <= b < 0x100

  const LF: byte := 0x0A
  const CR: byte := 0x0D

  predicate IsAscii(s: seq<byte>) {
    forall i | 0 <= i < |s| :: s[i] < 0x80
  }

  predicate IsAsciiText(s: string) {
    forall i | 0 <= i < |s| :: s[i] < 128 as char
  }

  /** The bytes of an ASCII literal (what `"...".as_bytes()` gives for it). */
  function Ascii(s: string): (b: seq<byte>)
    requires IsAsciiText(s)
    ensures |b| == |s|
    ensures forall i | 0 <= i < |s| :: b[i] as int == s[i] as int
    ensures IsAscii(b)
  {
    seq(|s|, i requires 0 <= i < |s| && s[i] < 128 as char => s[i] as int as byte)
  }

  predicate IsCont(b: byte) {
    0x80 <= b < 0xC0
  }

  /** How many bytes the character that starts with byte `b` takes: 1 to 4,
      or 0 for a byte no well-formed character starts with (a continuation
      byte, an overlong lead 0xC0 or 0xC1, or 0xF5 and above). */
  function Width(b: byte): nat {
    if b < 0x80 then 1
    else if b < 0xC2 then 0
    else if b < 0xE0 then 2
    else if b < 0xF0 then 3
    else if b < 0xF5 then 4
    else 0
  }

  /** The range the second byte of a character that starts with `b` must
      lie in: narrower than the continuation range after 0xE0 and 0xF0
      (no overlong forms), 0xED (no surrogates) and 0xF4 (nothing above
      U+10FFFF). */
  function SecondLow(b: byte): byte {
    if b == 0xE0 then 0xA0 else if b == 0xF0 then 0x90 else 0x80
  }

  function SecondHigh(b: byte): byte {
    if b == 0xED then 0x9F else if b == 0xF4 then 0x8F else 0xBF
  }

  /** The length of the well-formed UTF-8 sequence that starts `s`
      (section 4 of RFC 3629), or 0 when `s` does not start with one. */
  function LeadLength(s: seq<byte>): (n: nat)
    ensures n <= |s| && n <= 4
    ensures n == 1 <==> |s| > 0 && s[0] < 0x80
    ensures forall j | 1 <= j < n :: IsCont(s[j])
  {
    if |s| == 0 then 0
    else
      var w := Width(s[0]);
      if w == 0 || |s| < w then 0
      else if w >= 2 && !(SecondLow(s[0]) <= s[1] <= SecondHigh(s[0])) then 0
      else if w >= 3 && !IsCont(s[2]) then 0
      else if w == 4 && !IsCont(s[3]) then 0
      else w
  }

  /** `s` is a sequence of well-formed UTF-8 characters. */
  predicate ValidUtf8(s: seq<byte>)
    decreases |s|
  {
    s == [] || (LeadLength(s) > 0 && ValidUtf8(s[LeadLength(s)..]))
  }

  /** Text: what a Rust `String` holds. */
  type Str = s: seq<byte> | ValidUtf8(s)

  /** The first character only depends on its own bytes. */
  lemma LeadLengthPrefix(s: seq<byte>, t: seq<byte>)
    requires 0 < LeadLength(s) <= |t|
    requires s[..LeadLength(s)] == t[..LeadLength(s)]
    ensures LeadLength(t) == LeadLength(s)
  {
    var n := LeadLength(s);
    assert forall j | 0 <= j < n :: s[j] == t[j] by {
      forall j | 0 <= j < n ensures s[j] == t[j] {
        assert s[..n][j] == t[..n][j];
      }
    }
  }

  lemma ValidConcatStep(a: seq<byte>, b: seq<byte>)
    requires LeadLength(a) > 0 && ValidUtf8(a[LeadLength(a)..] + b)
    ensures ValidUtf8(a + b)
  {
    var n := LeadLength(a);
    assert (a + b)[..n] == a[..n];
    LeadLengthPrefix(a, a + b);
    assert (a + b)[n..] == a[n..] + b;
  }

  /** Well-formed text is closed under concatenation. */
  lemma {:induction false} ValidConcat(a: seq<byte>, b: seq<byte>)
    requires ValidUtf8(a) && ValidUtf8(b)
    ensures ValidUtf8(a + b)
  {
    if a == [] {
      assert a + b == b;
    } else {
      ValidConcat(a[LeadLength(a)..], b);
      ValidConcatStep(a, b);
    }
  }

  /** ASCII is well-formed UTF-8. */
  lemma {:induction false} AsciiValid(s: seq<byte>)
    requires IsAscii(s)
    ensures ValidUtf8(s)
  {
    if s != [] {
      assert LeadLength(s) == 1;
      AsciiValid(s[1..]);
    }
  }

  /** Cutting well-formed text at an ASCII byte (never part of a multi-byte
      character) leaves well-formed text on both sides: before it ... */
  lemma {:induction false} ValidBeforeAscii(s: seq<byte>, i: nat)
    requires ValidUtf8(s) && i < |s| && s[i] < 0x80
    ensures ValidUtf8(s[..i])
    decreases |s|
  {
    if i == 0 {
      assert s[..0] == [];
    } else {
      var n := LeadLength(s);
      assert n <= i by {
        assert !IsCont(s[i]);
      }
      ValidBeforeAscii(s[n..], i - n);
      assert s[n..][..i - n] == s[n..i];
      ValidPrefixStep(s, i);
    }
  }

  /** ... and after it. */
  lemma {:induction false} ValidAfterAscii(s: seq<byte>, i: nat)
    requires ValidUtf8(s) && i < |s| && s[i] < 0x80
    ensures ValidUtf8(s[i + 1..])
    decreases |s|
  {
    var n := LeadLength(s);
    if i == 0 {
      assert n == 1 && ValidUtf8(s[n..]);
    } else {
      assert n <= i by {
        assert !IsCont(s[i]);
      }
      ValidAfterAscii(s[n..], i - n);
      assert s[n..][i - n + 1..] == s[i + 1..];
    }
  }

  /** A prefix made of the first character and well-formed text after it
      is well-formed. */
  lemma ValidPrefixStep(s: seq<byte>, i: nat)
    requires 0 < LeadLength(s) <= i <= |s| && ValidUtf8(s[LeadLength(s)..i])
    ensures ValidUtf8(s[..i])
  {
    var n := LeadLength(s);
    var p := s[..i];
    assert p[..n] == s[..n];
    LeadLengthPrefix(s, p);
    assert p[n..] == s[n..i];
  }

  /** Text made of an ASCII literal. */
  function Text(s: string): (t: Str)
    requires IsAsciiText(s)
    ensures t == Ascii(s)
  {
    AsciiValid(Ascii(s));
    Ascii(s)
  }

  /** Text given by its ASCII bytes. */
  function AsciiText(b: seq<byte>): Str
    requires IsAscii(b)
  {
    AsciiValid(b);
    b
  }

  /** The concatenation of several texts, in order. */
  function Concat(parts: seq<Str>): Str {
    if parts == [] then []
    else
      var init := Concat(parts[..|parts| - 1]);
      ValidConcat(init, parts[|parts| - 1]);
      init + parts[|parts| - 1]
  }
}
