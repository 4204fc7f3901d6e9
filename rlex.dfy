/**
 * The lexer record of the `rlex` crate and its constructor `Rlex::new`.
 * The record is a cursor over the bytes of the source text: `position` is a byte
 * index, `length` the byte count and `max_position` the last valid byte index.
 */
module Rlex {
  import opened RustTypes
  import Utf8

  /** The message `Rlex::new` returns for an empty source. */
  const EMPTY_INPUT_ERROR: string := "MALFORMED INPUT: rlex does not accept empty strings"

  datatype Rlex = Rlex(bytes: seq<u8>, position: usize, length: usize, max_position: usize)

  /**
   * The record's structural invariant: `length` counts `bytes`, `max_position` is the
   * last index, and `0 <= position <= max_position < length`, so `bytes` is non-empty
   * and `position` always indexes one of its bytes. Like every `Vec<u8>`, `bytes` holds
   * at most `isize::MAX` bytes.
   */
  predicate Valid(r: Rlex) {
    && |r.bytes| == r.length as int <= ISIZE_MAX
    && r.max_position as int == r.length as int - 1
    && r.position <= r.max_position
  }

  /** Texts whose bytes fit in one Rust allocation: every `&str` is one. */
  predicate IsStr(source: string) {
    |Utf8.Encode(source)| <= ISIZE_MAX
  }

  /**
   * `Rlex::new`: rejects the empty text with EMPTY_INPUT_ERROR; otherwise copies the
   * text's bytes and starts the cursor at byte 0 with `max_position == length - 1`.
   * The subtraction is on `usize`; it cannot underflow because the guard has already
   * rejected `length == 0`.
   */
  function New(source: string): (r: Result<Rlex, string>)
    requires IsStr(source)
    ensures r.Err? <==> source == []
    ensures r.Err? ==> r.error == EMPTY_INPUT_ERROR
    ensures r.Ok? ==> Valid(r.value) && r.value.position == 0
    ensures r.Ok? ==> r.value.bytes == Utf8.Encode(source)
  {
    Utf8.EncodeEmpty(source);
    if |Utf8.Encode(source)| == 0 then
      Err(EMPTY_INPUT_ERROR)
    else
      var bytes := Utf8.Encode(source);
      var length := |bytes| as usize;
      Ok(Rlex(bytes, 0, length, length - 1))
  }

  /** The crate's test `test_empty_rlex_throws_error`: the empty text is an error, never a record. */
  lemma EmptyInputFails()
    ensures IsStr("") && New("").Err? && !New("").Ok?
    ensures New("").error == EMPTY_INPUT_ERROR
  {
  }

  /**
   * Every non-empty text is accepted, and the fields of the result are exact functions
   * of its bytes: `bytes` is the byte view, the cursor starts at byte 0, `length` is the
   * byte count (never below the character count) and `max_position` is `length - 1`,
   * so `0 <= position <= max_position < length` and `position` indexes `bytes`.
   */
  lemma NonEmptyInputSucceeds(source: string)
    requires IsStr(source) && source != []
    ensures New(source).Ok?
    ensures var r := New(source).value;
      && r.bytes == Utf8.Encode(source)
      && r.position == 0
      && r.length as int == |Utf8.Encode(source)| >= |source| >= 1
      && r.max_position as int == r.length as int - 1
      && 0 <= r.position as int <= r.max_position as int < r.length as int == |r.bytes|
  {
  }

  /** `length` equals the character count exactly when the source is all ASCII. */
  lemma {:induction false} LengthCountsBytes(source: string)
    requires IsStr(source) && source != []
    ensures New(source).Ok?
    ensures New(source).value.length as int == |source| <==>
            forall i :: 0 <= i < |source| ==> Utf8.IsAscii(source[i])
  {
    Utf8.ByteCountIsCharCountIffAscii(source);
  }

  /**
   * `New` builds every fresh cursor and nothing else: each valid record at position 0
   * whose bytes are those of some text is what `New` returns for that text.
   */
  lemma {:induction false} NewBuildsEveryFreshCursor(r: Rlex, source: string)
    requires Valid(r) && r.position == 0 && r.bytes == Utf8.Encode(source)
    ensures IsStr(source)
    ensures New(source) == Ok(r)
  {
  }

  /** The result depends on the source and on nothing else, and loses none of it. */
  lemma {:induction false} NewDeterminedBySource(s: string, t: string)
    requires IsStr(s) && IsStr(t)
    ensures New(s) == New(t) <==> s == t
  {
    if New(s) == New(t) && s != [] {
      Utf8.EncodeInjective(s, t);
    }
  }

  /** A two-byte character: the cursor's length is 2 although the text holds one character. */
  lemma MultiByteExample()
    ensures IsStr("\U{E9}")
    ensures New("\U{E9}") == Ok(Rlex([0xC3, 0xA9], 0, 2, 1))
  {
    assert Utf8.EncodeChar('\U{E9}') == [0xC3, 0xA9];
    assert Utf8.Encode("\U{E9}") == [0xC3, 0xA9];
  }
}
