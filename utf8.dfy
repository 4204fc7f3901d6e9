/**
 * The bytes of a Rust `&str`. A `&str` is a sequence of Unicode scalar values
 * stored as its UTF-8 encoding; `str::len` counts those bytes and `str::as_bytes`
 * exposes them. `Encode` is that byte view.
 */
module Utf8 {
  import opened RustTypes

  /** Number of bytes in the encoding of a scalar value whose first byte is `lead`. */
  function LeadLength(lead: u8): nat {
    if lead < 0x80 then 1
    else if lead < 0xE0 then 2
    else if lead < 0xF0 then 3
    else 4
  }

  predicate IsAscii(c: char) {
    c as int < 0x80
  }

  /** The UTF-8 encoding of one Unicode scalar value (RFC 3629, section 3). */
  function EncodeChar(c: char): (r: seq<u8>)
    ensures 1 <= |r| <= 4
    ensures |r| == 1 <==> IsAscii(c)
    ensures LeadLength(r[0]) == |r| && !(0x80 <= r[0] < 0xC0)
    ensures forall i :: 1 <= i < |r| ==> 0x80 <= r[i] < 0xC0
  {
    var cp := c as int;
    if cp < 0x80 then
      [cp as u8]
    else if cp < 0x800 then
      [(0xC0 + cp / 64) as u8, (0x80 + cp % 64) as u8]
    else if cp < 0x1_0000 then
      [(0xE0 + cp / 64 / 64) as u8, (0x80 + cp / 64 % 64) as u8, (0x80 + cp % 64) as u8]
    else
      [(0xF0 + cp / 64 / 64 / 64) as u8, (0x80 + cp / 64 / 64 % 64) as u8,
       (0x80 + cp / 64 % 64) as u8, (0x80 + cp % 64) as u8]
  }

  /** The UTF-8 encoding of a text: what `str::as_bytes` returns. */
  function Encode(s: string): (r: seq<u8>)
    ensures |s| <= |r| <= 4 * |s|
  {
    if s == [] then [] else EncodeChar(s[0]) + Encode(s[1..])
  }

  /** A text is empty exactly when its byte view is: `str::len() == 0` tests for the empty text. */
  lemma EncodeEmpty(s: string)
    ensures Encode(s) == [] <==> s == []
  {
  }

  /**
   * The byte count equals the character count exactly when every character is ASCII;
   * any other character makes the byte count strictly larger.
   */
  lemma {:induction false} ByteCountIsCharCountIffAscii(s: string)
    ensures |Encode(s)| == |s| <==> forall i :: 0 <= i < |s| ==> IsAscii(s[i])
    ensures (exists i :: 0 <= i < |s| && !IsAscii(s[i])) ==> |Encode(s)| > |s|
  {
    if s != [] {
      ByteCountIsCharCountIffAscii(s[1..]);
      assert forall i :: 1 <= i < |s| ==> s[i] == s[1..][i - 1];
      if !IsAscii(s[0]) {
        assert |EncodeChar(s[0])| > 1;
      } else if exists i :: 0 <= i < |s| && !IsAscii(s[i]) {
        var i :| 0 <= i < |s| && !IsAscii(s[i]);
        assert !IsAscii(s[1..][i - 1]);
      } else {
        assert forall i :: 0 <= i < |s[1..]| ==> IsAscii(s[1..][i]) by {
          forall i | 0 <= i < |s[1..]| ensures IsAscii(s[1..][i]) {
            assert s[1..][i] == s[i + 1];
          }
        }
      }
    }
  }

  /** Distinct scalar values have distinct encodings. */
  lemma EncodeCharInjective(a: char, b: char)
    requires EncodeChar(a) == EncodeChar(b)
    ensures a == b
  {
  }

  /** The byte view of a text determines the text: no two texts share their bytes. */
  lemma {:induction false} EncodeInjective(s: string, t: string)
    requires Encode(s) == Encode(t)
    ensures s == t
  {
    if s != [] && t != [] {
      var es, et := EncodeChar(s[0]), EncodeChar(t[0]);
      var n := |es|;
      assert Encode(s)[0] == es[0] && Encode(t)[0] == et[0];
      assert |et| == n;
      assert es == Encode(s)[..n] && et == Encode(t)[..n];
      EncodeCharInjective(s[0], t[0]);
      assert Encode(s[1..]) == Encode(s)[n..] == Encode(t)[n..] == Encode(t[1..]);
      EncodeInjective(s[1..], t[1..]);
      assert s == [s[0]] + s[1..] && t == [t[0]] + t[1..];
    }
  }
}
