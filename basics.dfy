/**
 * Values shared by the authentication handlers: optional values and
 * results, bytes, user identifiers, the clock constants, and the two
 * JavaScript string notions the handlers rely on (a truthy request field,
 * toLowerCase).
 */
module Basics {

  datatype Option<+T> = None | Some(value: T)

  datatype Result<+T, +E> = Ok(value: T) | Err(error: E)

  /** One byte of crypto.randomBytes output or of a digest. */
  newtype byte = x: int | 0 <= x < 256

  /** A MongoDB ObjectId, abstracted to a natural number. */
  type UserId = nat

  /** Date.now() counts milliseconds. */
  const HourMs: int := 3600000
  const DayMs: int := 86400000

  /**
   * A request-body string is truthy iff it is neither absent nor empty;
   * the model writes an absent field as "".
   */
  predicate Present(s: string) {
    s != ""
  }

  function LowerChar(c: char): char {
    if 'A' <= c <= 'Z' then (c as int + 32) as char else c
  }

  /** String.prototype.toLowerCase, on the ASCII letters. */
  function Lower(s: string): (r: string)
    ensures |r| == |s|
  {
    if s == [] then [] else [LowerChar(s[0])] + Lower(s[1..])
  }

  /** Folding twice is folding once: a stored (folded) email is found by its own folded form. */
  lemma {:induction false} LowerIdempotent(s: string)
    ensures Lower(Lower(s)) == Lower(s)
  {
    if s != [] {
      var l := Lower(s);
      assert l[0] == LowerChar(s[0]) && l[1..] == Lower(s[1..]);
      LowerIdempotent(s[1..]);
      assert Lower(l) == [LowerChar(l[0])] + Lower(l[1..]);
    }
  }
}
