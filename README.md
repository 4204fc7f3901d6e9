# rlex: the lexer cursor and its constructor

`rlex` is a Rust crate for a lexer that can traverse, peek, and stash characters
from a string source (src/lib.rs:1). In this version of the crate the code holds one record, `Rlex` (`bytes`, `position`, `length`,
`max_position`), and its constructor `Rlex::new(source: &str) -> Result<Rlex, String>`.
The constructor rejects the empty text with a fixed message; any other text
yields a record whose bytes are the text's UTF-8 bytes, whose `position` is 0, whose
`length` is the byte count and whose `max_position` is `length - 1`.

Files:

- `rust_types.dfy` (module `RustTypes`): Rust's `u8`, 64-bit `usize`, `isize::MAX`
  (the largest allocation, hence the largest `&str` or `Vec<u8>`) and `Result`.
- `utf8.dfy` (module `Utf8`): the byte view of a `&str`. A Rust `&str` is a text of
  Unicode scalar values stored as UTF-8; `str::len` counts its bytes and `str::as_bytes`
  returns them. The source text is a Dafny `string` (a sequence of scalar values) and
  `Encode` is its UTF-8 encoding (RFC 3629, section 3), so the model keeps the crate's
  byte semantics while its input has the type the crate takes.
- `rlex.dfy` (module `Rlex`): the record as a datatype, its invariant `Valid`
  (`0 <= position <= max_position < length == |bytes|`), `New` for `Rlex::new`, and
  lemmas about the result.

The record is built once and never updated in this version of the crate, so it is a value
(a datatype) and `new` is a function returning `Result<Rlex, string>`.

The positions are byte indices, not character indices: `Rlex::new` stores
`source.as_bytes()` and counts its bytes.

## Model

| member | source | states |
|---|---|---|
| Utf8.EncodeChar | src/lib.rs:16 | the bytes of one character of the `&str`: 1 to 4 bytes, exactly 1 for ASCII, the first byte is never a continuation byte and announces the count, the others are continuation bytes |
| Utf8.Encode | src/lib.rs:16-17 | `as_bytes` of a text has between one and four bytes per character, so `len()` is at least the character count |
| Utf8.EncodeEmpty | src/lib.rs:13 | `source.len() == 0` holds exactly for the empty text; `New` uses it to relate its guard to the empty text |
| Utf8.ByteCountIsCharCountIffAscii | src/lib.rs:17 | the byte count equals the character count if and only if every character is ASCII, and is strictly larger otherwise |
| Utf8.EncodeCharInjective | src/lib.rs:16 | two characters with the same bytes are the same character |
| Utf8.EncodeInjective | src/lib.rs:16 | the byte vector copied into the record determines the source text |
| Rlex.New | src/lib.rs:12-25 | fails if and only if the source is empty, with exactly the message "MALFORMED INPUT: rlex does not accept empty strings"; on success the record satisfies the invariant, starts at position 0 and holds the source's bytes |
| Rlex.EmptyInputFails | src/lib.rs:37-44 | the crate's test: `new("")` is an error and not a record, and the error is the fixed message |
| Rlex.NonEmptyInputSucceeds | src/lib.rs:16-24 | every non-empty text gives `Ok`; `bytes` is the text's byte sequence, `position` is 0, `length` its byte count (at least the character count and at least 1), `max_position` is `length - 1` with no `usize` underflow, and `0 <= position <= max_position < length` with `length` the number of bytes, so `position` indexes `bytes` |
| Rlex.LengthCountsBytes | src/lib.rs:17-21 | `length` equals the number of characters if and only if the text is all ASCII |
| Rlex.NewBuildsEveryFreshCursor | src/lib.rs:12-25 | every valid record at position 0 over the bytes of a text is exactly what `new` returns for that text |
| Rlex.NewDeterminedBySource | src/lib.rs:12-25 | `new` is deterministic and loses nothing: two texts give equal results if and only if they are equal |
| Rlex.MultiByteExample | src/lib.rs:16-22 | the one-character text "é" gives bytes `[0xC3, 0xA9]`, length 2 and `max_position` 1 |

The absence of underflow in `length - 1` (src/lib.rs:22) is checked where `New`
computes it: the subtraction is on the `usize` newtype and the verifier proves the
result stays in range because the guard has rejected `length == 0`.

## Left out

- `#[derive(Debug)]` (src/lib.rs:2): formatting only, no behaviour.
- Ownership and allocation (`to_vec`, `to_owned`, `String`): the record holds an immutable `seq<u8>` and the error a `string`.
- The test harness (`#[cfg(test)]`, `panic!`, `assert!`): the test's claim is the lemma `Rlex.EmptyInputFails`.
- Texts larger than `isize::MAX` bytes: Rust cannot allocate them, so `New` requires `IsStr`, which every `&str` satisfies.
- Decoding bytes back to characters: the crate never decodes; the model only encodes, to give `len()` and `as_bytes()` their meaning.
- Traversal, peeking and stashing, which the comment at src/lib.rs:1 names, have no code in this version of the crate.
