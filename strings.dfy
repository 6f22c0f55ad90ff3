/** Joining a list of strings, as Ruby's `Array#join` without a separator does, and
    two facts about concatenation that the proofs use on their own. */
module Strings {
  /** The parts concatenated in order. */
  function Join(parts: seq<string>): string {
    if parts == [] then "" else Join(parts[..|parts| - 1]) + parts[|parts| - 1]
  }

  lemma Assoc(a: string, b: string, c: string)
    ensures a + b + c == a + (b + c)
  {
  }

  /** The last character of `a + b`, for a non-empty `b`, is that of `b`. */
  lemma SplitLast(a: string, b: string)
    requires b != []
    ensures (a + b)[..|a + b| - 1] == a + b[..|b| - 1]
    ensures (a + b)[|a + b| - 1] == b[|b| - 1]
  {
    assert (a + b)[..|a + b| - 1] == a + b[..|b| - 1];
  }
}
