/**
 * The Markdown line-break rule (`Formatter_Markdown#formatted` in
 * app/lib/formatter_markdown.rb): two ASCII spaces or two ideographic spaces
 * (U+3000) right before a line terminator (`\r\n`, `\r` or `\n`) become
 * `<br />` and a newline. The rewrite is the left-to-right, non-overlapping
 * replacement that `gsub` performs; `\r\n` is tried before `\r`, so it is consumed
 * as one terminator.
 */
module MarkdownLineBreak {
  const Ideographic: char := '　'
  const LineBreak: string := "<br />\n"

  /** Two spaces of the same kind. */
  predicate SpacePair(a: char, b: char) {
    (a == ' ' && b == ' ') || (a == Ideographic && b == Ideographic)
  }

  predicate Terminator(c: char) {
    c == '\r' || c == '\n'
  }

  /** The pattern occurs at offset `i`. */
  predicate BreakAt(s: string, i: int) {
    0 <= i && i + 3 <= |s| && SpacePair(s[i], s[i + 1]) && Terminator(s[i + 2])
  }

  /** How many characters the match at the front of `s` covers. */
  function MatchLength(s: string): (n: nat)
    requires BreakAt(s, 0)
    ensures n == 3 || n == 4
    ensures n <= |s|
    ensures n == 4 <==> s[2] == '\r' && |s| >= 4 && s[3] == '\n'
  {
    if s[2] == '\r' && |s| >= 4 && s[3] == '\n' then 4 else 3
  }

  /** The `gsub`: a match at the front is replaced and the scan goes on after it;
      otherwise one character is copied. */
  function Formatted(s: string): string
    decreases |s|
  {
    if s == [] then []
    else if BreakAt(s, 0) then LineBreak + Formatted(s[MatchLength(s)..])
    else [s[0]] + Formatted(s[1..])
  }

  predicate NoBreak(s: string) {
    forall i :: 0 <= i < |s| ==> !BreakAt(s, i)
  }

  /** A pair of spaces and a terminator at the front become one line break; after
      `\r` a following `\n` is part of the terminator. */
  lemma BreakReplaced(pair: string, t: string, rest: string)
    requires pair == "  " || pair == "　　"
    requires t == "\n" || t == "\r\n" || (t == "\r" && (rest == [] || rest[0] != '\n'))
    ensures Formatted(pair + t + rest) == LineBreak + Formatted(rest)
  {
    var s := pair + t + rest;
    assert BreakAt(s, 0);
    assert s[MatchLength(s)..] == rest;
  }

  /** Text in which no space of either kind occurs is passed through, whatever
      follows it. */
  lemma {:induction false} PlainPrefix(a: string, rest: string)
    requires forall i :: 0 <= i < |a| ==> a[i] != ' ' && a[i] != Ideographic
    ensures Formatted(a + rest) == a + Formatted(rest)
    decreases |a|
  {
    if a == [] {
      assert a + rest == rest;
    } else {
      assert (a + rest)[1..] == a[1..] + rest;
      PlainPrefix(a[1..], rest);
      assert [a[0]] + (a[1..] + Formatted(rest)) == a + Formatted(rest);
    }
  }

  /** The expected pair of `Formatter_MarkdownTester#testBR`. */
  lemma TestBR()
    ensures Formatted("半角改行  \n全角改行　　\n") == "半角改行<br />\n全角改行<br />\n"
  {
    TwoLines("半角改行", "全角改行");
    TestBRSpelled();
  }

  /** The shape of the test: a line ending in two ASCII spaces, then one ending in
      two ideographic spaces. */
  lemma TwoLines(a: string, b: string)
    requires forall i :: 0 <= i < |a| ==> a[i] != ' ' && a[i] != Ideographic
    requires forall i :: 0 <= i < |b| ==> b[i] != ' ' && b[i] != Ideographic
    ensures Formatted(a + "  \n" + b + "　　\n") == a + LineBreak + b + LineBreak
  {
    var second := b + ("　　" + "\n" + "");
    assert a + "  \n" + b + "　　\n" == a + ("  " + "\n" + second);
    PlainPrefix(a, "  " + "\n" + second);
    BreakReplaced("  ", "\n", second);
    PlainPrefix(b, "　　" + "\n" + "");
    BreakReplaced("　　", "\n", "");
  }

  lemma TestBRSpelled()
    ensures "半角改行  \n全角改行　　\n" == "半角改行" + "  \n" + "全角改行" + "　　\n"
    ensures "半角改行<br />\n全角改行<br />\n" == "半角改行" + LineBreak + "全角改行" + LineBreak
  {
  }

  /** `\r\n` after the spaces is one terminator, not two. */
  lemma CrLfIsOneTerminator()
    ensures Formatted("a  \r\nb") == "a<br />\nb"
  {
  }

  /** A single space, or an ASCII space paired with an ideographic one, before the
      newline is not a break. */
  lemma NearMissesUnchanged()
    ensures Formatted("a \n") == "a \n"
    ensures Formatted("a 　\n") == "a 　\n"
    ensures Formatted("a　 \n") == "a　 \n"
  {
  }

  /** The rewrite never shortens the text, and lengthens it when the pattern occurs. */
  lemma {:induction false} Lengthens(s: string)
    ensures |Formatted(s)| >= |s|
    ensures !NoBreak(s) ==> |Formatted(s)| > |s|
    decreases |s|
  {
    if s != [] {
      if BreakAt(s, 0) {
        Lengthens(s[MatchLength(s)..]);
      } else {
        Lengthens(s[1..]);
        if !NoBreak(s) {
          var i :| 0 <= i < |s| && BreakAt(s, i);
          assert s[1..][i - 1] == s[i] && s[1..][i] == s[i + 1] && s[1..][i + 1] == s[i + 2];
          assert !NoBreak(s[1..]) by { assert BreakAt(s[1..], i - 1); }
        }
      }
    }
  }

  /** Text without the pattern is copied. */
  lemma {:induction false} NoBreakCopied(s: string)
    requires NoBreak(s)
    ensures Formatted(s) == s
    decreases |s|
  {
    if s != [] {
      assert !BreakAt(s, 0);
      assert NoBreak(s[1..]) by {
        forall i ensures !BreakAt(s[1..], i) {
          if BreakAt(s[1..], i) { assert BreakAt(s, i + 1); }
        }
      }
      NoBreakCopied(s[1..]);
    }
  }

  /** The text comes back unchanged exactly when the pattern does not occur in it. */
  lemma UnchangedIffNoBreak(s: string)
    ensures Formatted(s) == s <==> NoBreak(s)
  {
    Lengthens(s);
    if NoBreak(s) {
      NoBreakCopied(s);
    }
  }

  /** What the output begins with. */
  lemma FirstChar(s: string)
    requires s != []
    ensures Formatted(s) != [] && Formatted(s)[0] == if BreakAt(s, 0) then '<' else s[0]
  {
  }

  /** No pattern is left in, or created by, the output. */
  lemma {:induction false} OutputHasNoBreak(s: string)
    ensures NoBreak(Formatted(s))
    decreases |s|
  {
    if s != [] {
      var out := Formatted(s);
      if BreakAt(s, 0) {
        var rest := s[MatchLength(s)..];
        OutputHasNoBreak(rest);
        forall i | 0 <= i < |out| ensures !BreakAt(out, i) {
          if i >= |LineBreak| {
            assert BreakAt(out, i) == BreakAt(Formatted(rest), i - |LineBreak|);
          }
        }
      } else {
        var tail := Formatted(s[1..]);
        OutputHasNoBreak(s[1..]);
        forall i | 0 <= i < |out| ensures !BreakAt(out, i) {
          if i == 0 {
            NoBreakAtFront(s);
          } else {
            assert BreakAt(out, i) == BreakAt(tail, i - 1);
          }
        }
      }
    }
  }

  /** When the front of `s` is not a match, the output does not begin with one. */
  lemma NoBreakAtFront(s: string)
    requires s != [] && !BreakAt(s, 0)
    ensures !BreakAt(Formatted(s), 0)
  {
    var out := Formatted(s);
    FirstChar(s);
    if |s| >= 2 {
      FirstChar(s[1..]);
      assert out == [s[0]] + Formatted(s[1..]);
      if !BreakAt(s[1..], 0) {
        assert Formatted(s[1..]) == [s[1]] + Formatted(s[2..]);
        if |s| >= 3 {
          FirstChar(s[2..]);
        } else {
          assert s[2..] == [];
        }
      }
    }
  }

  /** Applying the rule twice is applying it once. */
  lemma Idempotent(s: string)
    ensures Formatted(Formatted(s)) == Formatted(s)
  {
    OutputHasNoBreak(s);
    NoBreakCopied(Formatted(s));
  }
}
