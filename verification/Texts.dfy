/** Strings as JavaScript sees them: sequences of UTF-16 code units, ordered by `<`. */
module Texts {

  type CodeUnit = u: int | 0 <= u < 0x1_0000

  type Text = seq<CodeUnit>

  /** The first half of a surrogate pair. */
  predicate IsHigh(u: int) { 0xD800 <= u <= 0xDBFF }

  /** The second half. */
  predicate IsLow(u: int) { 0xDC00 <= u <= 0xDFFF }

  /** A literal of the source, as code units. */
  function Literal(s: string): Text
    requires forall i :: 0 <= i < |s| ==> s[i] < '\U{007F}'
  {
    seq(|s|, i requires 0 <= i < |s| => s[i] as int)
  }

  datatype Option<+T> = None | Some(value: T)

  datatype Result<+T, +E> = Ok(value: T) | Err(error: E)

  /** The relational operator `<` on strings: lexicographic by code unit. */
  predicate Less(a: Text, b: Text) {
    if b == [] then false
    else if a == [] then true
    else a[0] < b[0] || (a[0] == b[0] && Less(a[1..], b[1..]))
  }

  /** `a <= b`, the order every comparator of the repository sorts strings by. */
  predicate AtMost(a: Text, b: Text) {
    !Less(b, a)
  }

  lemma {:induction false} LessIsTotal(a: Text, b: Text)
    ensures Less(a, b) || Less(b, a) || a == b
    ensures !(Less(a, b) && Less(b, a))
  {
    if a != [] && b != [] {
      LessIsTotal(a[1..], b[1..]);
      assert a == [a[0]] + a[1..] && b == [b[0]] + b[1..];
    }
  }

  lemma {:induction false} AtMostIsTransitive(a: Text, b: Text, c: Text)
    requires AtMost(a, b) && AtMost(b, c)
    ensures AtMost(a, c)
  {
    if a != [] && b != [] && c != [] && a[0] == b[0] == c[0] {
      AtMostIsTransitive(a[1..], b[1..], c[1..]);
    }
  }

  /** The string order as a comparator value. */
  function TextOrder(): (Text, Text) -> bool {
    (a: Text, b: Text) => AtMost(a, b)
  }
}
