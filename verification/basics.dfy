/** Small shared vocabulary: failure-compatible wrappers, the Rust integer
    widths the engine uses, and the ASCII helpers of Rust's `str` that the
    engine calls (`eq_ignore_ascii_case`, `split_ascii_whitespace`). */
module Basics {

  datatype Option<+T> = None | Some(value: T)

  datatype Result<+T, +E> = Ok(value: T) | Err(error: E)

  const I32_MIN: int := -0x8000_0000
  const I32_MAX: int := 0x7FFF_FFFF
  const I64_MIN: int := -0x8000_0000_0000_0000
  const I64_MAX: int := 0x7FFF_FFFF_FFFF_FFFF

  type i32 = x: int | I32_MIN <= x <= I32_MAX
  type i64 = x: int | I64_MIN <= x <= I64_MAX

  /** Rust's `u8::is_ascii_whitespace`: space, tab, line feed, form feed and
      carriage return (vertical tab is NOT included). */
  predicate IsAsciiWhitespace(c: char) {
    c == ' ' || c == '\t' || c == '\n' || c == '\U{000C}' || c == '\r'
  }

  /** Rust's `to_ascii_lowercase` on one character: only `A`..`Z` change. */
  function AsciiLower(c: char): (r: char)
    ensures 'A' <= c <= 'Z' ==> 'a' <= r <= 'z'
    ensures !('A' <= c <= 'Z') ==> r == c
  {
    if 'A' <= c <= 'Z' then (c as int + 32) as char else c
  }

  /** Rust's `str::eq_ignore_ascii_case`. */
  predicate EqIgnoreAsciiCase(a: string, b: string) {
    |a| == |b| && forall i :: 0 <= i < |a| ==> AsciiLower(a[i]) == AsciiLower(b[i])
  }

  /** Case-insensitive equality is an equivalence: it is what makes "first
      match" in a list of names well defined whichever side is the query. */
  lemma EqIgnoreAsciiCaseEquivalence(a: string, b: string, c: string)
    ensures EqIgnoreAsciiCase(a, a)
    ensures EqIgnoreAsciiCase(a, b) ==> EqIgnoreAsciiCase(b, a)
    ensures EqIgnoreAsciiCase(a, b) && EqIgnoreAsciiCase(b, c) ==> EqIgnoreAsciiCase(a, c)
  {
  }

  /** Two characters agree ignoring ASCII case exactly when they are equal or
      are the upper- and lower-case forms of one ASCII letter. */
  lemma AsciiLowerAgreement(x: char, y: char)
    ensures AsciiLower(x) == AsciiLower(y) <==>
      (x == y
       || ('A' <= x <= 'Z' && y as int == x as int + 32)
       || ('A' <= y <= 'Z' && x as int == y as int + 32))
  {
  }
}
