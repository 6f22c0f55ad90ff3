/**
 * What the custom-emoji substitution promises, stated about the transducer that
 * `CustomEmoji.EncodeCustomEmojis` is proved to compute. The scan-level lemmas hold
 * for any table of image tags; the document-level ones are about `Encode`.
 */
module CustomEmojiLaws {
  import opened CustomEmoji

  /** A scan that never meets a `:` copies its input and never holds anything back. */
  lemma {:induction false} NoColonCopied(s: string, st: Scanner, images: map<string, string>)
    requires ':' !in s && !st.mode.InShortcode?
    ensures Run(s, st, images).out == s && !Run(s, st, images).last.mode.InShortcode?
    decreases |s|
  {
    if s != [] {
      var s', c := s[..|s| - 1], s[|s| - 1];
      assert s == s' + [c];
      assert ':' !in s' by { assert forall ch :: ch in s' ==> ch in s; }
      assert c in s;
      NoColonCopied(s', st, images);
    }
  }

  /** `Encode` with a non-empty emoji list, unfolded. */
  lemma EncodeRun(html: string, emojis: map<string, string>)
    requires emojis != map[]
    ensures Encode(html, emojis)
         == Run(html, Start, Images(emojis)).out + Pending(Run(html, Start, Images(emojis)).last.mode)
  {
  }

  /** Markup without any colon is returned unchanged: only a `:` can start a shortcode. */
  lemma NoColonUnchanged(html: string, emojis: map<string, string>)
    requires ':' !in html
    ensures Encode(html, emojis) == html
  {
    if emojis != map[] {
      EncodeRun(html, emojis);
      NoColonCopied(html, Start, Images(emojis));
    }
  }

  /** With no image tags every candidate is written out again (as a miss), so the
      scan loses and invents nothing: output plus held-back text is what was held
      back before plus the input. */
  lemma {:induction false} EmptyTableConserves(s: string, st: Scanner)
    ensures Run(s, st, map[]).out + Pending(Run(s, st, map[]).last.mode) == Pending(st.mode) + s
    decreases |s|
  {
    if s != [] {
      var s', c := s[..|s| - 1], s[|s| - 1];
      assert s == s' + [c];
      EmptyTableConserves(s', st);
      var r := Run(s', st, map[]);
      var t := Step(r.last, c, map[]);
      EmptyStep(r.last, c);
      ConserveGlue(r.out, t.emitted, Pending(r.last.mode), Pending(t.next.mode), Pending(st.mode), s', c);
    } else {
      assert Pending(st.mode) + s == Pending(st.mode);
    }
  }

  /** One step with no image tags conserves output plus held-back text. */
  lemma EmptyStep(st: Scanner, c: char)
    ensures var t := Step(st, c, map[]);
            t.emitted + Pending(t.next.mode) == Pending(st.mode) + [c]
  {
  }

  /** Sequence glue for the conservation proofs, kept apart from the scan facts. */
  lemma ConserveGlue(out: string, emitted: string, held: string, held': string, head: string, s: string, c: char)
    requires out + held == head + s
    requires emitted + held' == held + [c]
    ensures out + emitted + held' == head + (s + [c])
  {
    calc {
      out + emitted + held';
      out + (emitted + held');
      (out + held) + [c];
      head + s + [c];
    }
  }

  /** The early return for an empty emoji list is only a shortcut: the scan would
      have produced the input anyway. */
  lemma EarlyReturnAgrees(html: string)
    ensures Run(html, Start, Images(map[])).out + Pending(Run(html, Start, Images(map[])).last.mode) == html
  {
    assert Images(map[]) == map[];
    EmptyTableConserves(html, Start);
  }

  /** Text without `<` or `:` is copied and leaves the scanner in plain text. */
  lemma {:induction false} PlainTextCopied(s: string, depth: nat, images: map<string, string>)
    requires '<' !in s && ':' !in s
    ensures Run(s, Scanner(Text, depth), images) == Ran(s, Scanner(Text, depth))
    decreases |s|
  {
    if s != [] {
      var s', c := s[..|s| - 1], s[|s| - 1];
      assert s == s' + [c];
      assert '<' !in s' && ':' !in s' by { assert forall ch :: ch in s' ==> ch in s; }
      assert c in s;
      PlainTextCopied(s', depth, images);
    }
  }

  /** The characters of a candidate are collected and nothing is written. */
  lemma {:induction false} CodeCollected(code: string, p: string, depth: nat, images: map<string, string>)
    requires '<' !in code && ':' !in code
    ensures Run(code, Scanner(InShortcode(p), depth), images) == Ran("", Scanner(InShortcode(p + code), depth))
    decreases |code|
  {
    if code != [] {
      var s', c := code[..|code| - 1], code[|code| - 1];
      assert code == s' + [c];
      assert '<' !in s' && ':' !in s' by { assert forall ch :: ch in s' ==> ch in code; }
      assert c in code;
      CodeCollected(s', p, depth, images);
      assert Step(Scanner(InShortcode(p + s'), depth), c, images)
          == Stepped(Scanner(InShortcode(p + s' + [c]), depth), "");
      assert p + s' + [c] == p + code;
    } else {
      assert p + code == p;
    }
  }

  /** The scan of `:code:` from the start state: the tag if `code` is known; otherwise
      `:code` written out and the closing colon kept as the opening of a new candidate. */
  lemma ShortcodeRun(code: string, images: map<string, string>)
    requires '<' !in code && ':' !in code
    ensures code in images ==> Run(":" + code + ":", Start, images) == Ran(images[code], Start)
    ensures code !in images ==>
              Run(":" + code + ":", Start, images) == Ran(":" + code, Scanner(InShortcode(""), 0))
  {
    RunOne(':', Start, images);
    RunConcat(":", code, Start, images);
    CodeCollected(code, "", 0, images);
    assert "" + code == code;
    RunConcat(":" + code, ":", Start, images);
    RunOne(':', Scanner(InShortcode(code), 0), images);
  }

  lemma RunAfterRest(a: string, b: string, images: map<string, string>)
    requires Run(a, Start, images).last == Start
    ensures Run(a + b, Start, images).out + Pending(Run(a + b, Start, images).last.mode)
         == Run(a, Start, images).out + (Run(b, Start, images).out + Pending(Run(b, Start, images).last.mode))
  {
    RunConcat(a, b, Start, images);
  }

  /** After a prefix that leaves the scanner at rest, the rest of the document is
      substituted on its own. */
  lemma EncodeAfterRest(a: string, b: string, emojis: map<string, string>)
    requires emojis != map[] && Run(a, Start, Images(emojis)).last == Start
    ensures Encode(a + b, emojis) == Run(a, Start, Images(emojis)).out + Encode(b, emojis)
  {
    RunAfterRest(a, b, Images(emojis));
    EncodeRun(a + b, emojis);
    EncodeRun(b, emojis);
  }

  /** A known shortcode met at depth zero, in plain text, becomes its image tag, and
      the scan goes on afterwards as if from the beginning. */
  lemma ShortcodeReplaced(pre: string, code: string, post: string, emojis: map<string, string>)
    requires '<' !in code && ':' !in code && code in emojis
    requires Run(pre, Start, Images(emojis)).last == Start
    ensures Encode(pre + ":" + code + ":" + post, emojis)
         == Run(pre, Start, Images(emojis)).out + Replacement(code, emojis[code]) + Encode(post, emojis)
  {
    var sc := ":" + code + ":";
    ShortcodeRun(code, Images(emojis));
    EncodeAfterRest(pre, sc + post, emojis);
    EncodeAfterRest(sc, post, emojis);
    ShortcodeGlue(pre, code, post, Run(pre, Start, Images(emojis)).out, Images(emojis)[code], Encode(post, emojis));
  }

  /** Sequence glue for `ShortcodeReplaced`. */
  lemma ShortcodeGlue(pre: string, code: string, post: string, out: string, img: string, rest: string)
    ensures pre + ":" + code + ":" + post == pre + ((":" + code + ":") + post)
    ensures out + (img + rest) == out + img + rest
  {
  }

  /** In particular after plain text. */
  lemma ShortcodeAfterPlainText(pre: string, code: string, post: string, emojis: map<string, string>)
    requires '<' !in pre && ':' !in pre
    requires '<' !in code && ':' !in code && code in emojis
    ensures Encode(pre + ":" + code + ":" + post, emojis)
         == pre + Replacement(code, emojis[code]) + Encode(post, emojis)
  {
    PlainTextCopied(pre, 0, Images(emojis));
    ShortcodeReplaced(pre, code, post, emojis);
  }

  /** The closing colon of an unknown shortcode opens the next candidate: in
      `:x:y:` with `x` unknown and `y` known, `:y:` is replaced. */
  lemma MissReopens(x: string, y: string, images: map<string, string>)
    requires '<' !in x && ':' !in x && x !in images
    requires '<' !in y && ':' !in y && y in images
    ensures Run(":" + x + ":" + y + ":", Start, images) == Ran(":" + x + images[y], Start)
  {
    ShortcodeRun(x, images);
    CandidateClosed(y, images);
    RunCompose(":" + x + ":", y + ":", Start, images,
               Ran(":" + x, Scanner(InShortcode(""), 0)), Ran(images[y], Start));
    assert ":" + x + ":" + y + ":" == (":" + x + ":") + (y + ":");
  }

  /** A known code and its closing colon, read after an opening colon. */
  lemma CandidateClosed(y: string, images: map<string, string>)
    requires '<' !in y && ':' !in y && y in images
    ensures Run(y + ":", Scanner(InShortcode(""), 0), images) == Ran(images[y], Start)
  {
    CodeCollected(y, "", 0, images);
    assert "" + y == y;
    RunCompose(y, ":", Scanner(InShortcode(""), 0), images,
               Ran("", Scanner(InShortcode(y), 0)), Ran(images[y], Start));
  }

  /** The same on a concrete document. */
  lemma ClosingColonReused(url: string)
    ensures Encode(":x:y:", map["y" := url]) == ":x" + Replacement("y", url)
  {
    var emojis := map["y" := url];
    assert "x" !in Images(emojis) && "y" in Images(emojis);
    MissReopens("x", "y", Images(emojis));
    assert ":x:y:" == ":" + "x" + ":" + "y" + ":";
    EncodeRun(":x:y:", emojis);
  }

  /** The characters inside a tag are copied, `:` included. */
  lemma {:induction false} TagBodyCopied(body: string, tag: string, depth: nat, images: map<string, string>)
    requires '<' !in body && '>' !in body
    ensures Run(body, Scanner(InTag(tag), depth), images) == Ran(body, Scanner(InTag(tag + body), depth))
    decreases |body|
  {
    if body != [] {
      var s', c := body[..|body| - 1], body[|body| - 1];
      assert body == s' + [c];
      assert '<' !in s' && '>' !in s' by { assert forall ch :: ch in s' ==> ch in body; }
      assert c in body;
      TagBodyCopied(s', tag, depth, images);
      assert Step(Scanner(InTag(tag + s'), depth), c, images)
          == Stepped(Scanner(InTag(tag + s' + [c]), depth), [c]);
      assert tag + s' + [c] == tag + body;
    } else {
      assert tag + body == tag;
    }
  }

  /** A whole tag is copied, after whatever was held back, and updates the depth. */
  lemma TagCopied(body: string, st: Scanner, images: map<string, string>)
    requires '<' !in body && '>' !in body
    ensures Run("<" + body + ">", st, images)
         == Ran(Pending(st.mode) + "<" + body + ">", Scanner(Text, AfterTag(st.depth, "<" + body + ">")))
  {
    var st1 := Scanner(InTag("<"), st.depth);
    RunOne('<', st, images);
    assert Step(st, '<', images) == Stepped(st1, Pending(st.mode) + "<");
    RunConcat("<", body, st, images);
    TagBodyCopied(body, "<", st.depth, images);
    RunConcat("<" + body, ">", st, images);
    RunOne('>', Scanner(InTag("<" + body), st.depth), images);
  }

  /** One character other than `<` below an invisible span: nothing is replaced. */
  lemma DeepStep(st: Scanner, c: char, images: map<string, string>)
    requires st.depth > 0 && !st.mode.InTag? && c != '<'
    ensures var t := Step(st, c, images);
            && t.emitted + Pending(t.next.mode) == Pending(st.mode) + [c]
            && t.next.depth == st.depth && !t.next.mode.InTag?
  {
  }

  /** Any character at positive depth, tags included: what is written plus what is
      held back grows by exactly that character. */
  lemma DeepStepConserves(st: Scanner, c: char, images: map<string, string>)
    requires st.depth > 0
    ensures var t := Step(st, c, images);
            t.emitted + Pending(t.next.mode) == Pending(st.mode) + [c]
  {
  }

  /** The depth is positive before each character of `s` is read. */
  ghost predicate StaysDeep(s: string, st: Scanner, images: map<string, string>) {
    forall k :: 0 <= k < |s| ==> Run(s[..k], st, images).last.depth > 0
  }

  /** No replacement happens while the depth is positive, whatever tags the text
      holds: the scan gives back its input. */
  lemma {:induction false} DeepRunConserves(s: string, st: Scanner, images: map<string, string>)
    requires StaysDeep(s, st, images)
    ensures var r := Run(s, st, images);
            r.out + Pending(r.last.mode) == Pending(st.mode) + s
    decreases |s|
  {
    if s != [] {
      var s', c := s[..|s| - 1], s[|s| - 1];
      assert s == s' + [c];
      assert StaysDeep(s', st, images) by {
        forall k | 0 <= k < |s'| ensures Run(s'[..k], st, images).last.depth > 0 {
          assert s'[..k] == s[..k];
        }
      }
      DeepRunConserves(s', st, images);
      var r := Run(s', st, images);
      assert s[..|s| - 1] == s';
      DeepStepConserves(r.last, c, images);
      var t := Step(r.last, c, images);
      ConserveGlue(r.out, t.emitted, Pending(r.last.mode), Pending(t.next.mode), Pending(st.mode), s', c);
    } else {
      assert Pending(st.mode) + s == Pending(st.mode);
    }
  }

  /** Inside an invisible span no candidate is ever replaced: text without `<` is
      conserved there, and the depth is kept. */
  lemma {:induction false} DeepTextConserved(s: string, st: Scanner, images: map<string, string>)
    requires st.depth > 0 && !st.mode.InTag? && '<' !in s
    ensures var r := Run(s, st, images);
            && r.out + Pending(r.last.mode) == Pending(st.mode) + s
            && r.last.depth == st.depth && !r.last.mode.InTag?
    decreases |s|
  {
    if s != [] {
      var s', c := s[..|s| - 1], s[|s| - 1];
      assert s == s' + [c];
      assert '<' !in s' by { assert forall ch :: ch in s' ==> ch in s; }
      assert c in s;
      DeepTextConserved(s', st, images);
      var r := Run(s', st, images);
      DeepStep(r.last, c, images);
      var t := Step(r.last, c, images);
      ConserveGlue(r.out, t.emitted, Pending(r.last.mode), Pending(t.next.mode), Pending(st.mode), s', c);
    } else {
      assert Pending(st.mode) + s == Pending(st.mode);
    }
  }

  /** A scan followed by a whole tag. */
  lemma RunThenTag(a: string, body: string, st: Scanner, images: map<string, string>)
    requires '<' !in body && '>' !in body
    ensures var r := Run(a, st, images);
            Run(a + ("<" + body + ">"), st, images)
              == Ran(r.out + (Pending(r.last.mode) + "<" + body + ">"),
                     Scanner(Text, AfterTag(r.last.depth, "<" + body + ">")))
  {
    RunConcat(a, "<" + body + ">", st, images);
    TagCopied(body, Run(a, st, images).last, images);
  }

  /** Text without tags after a prefix that left the scanner in plain text below an
      invisible span is conserved. */
  lemma DeepAfter(a: string, x: string, d: nat, images: map<string, string>)
    requires d > 0 && '<' !in x && Run(a, Start, images) == Ran(a, Scanner(Text, d))
    ensures var r := Run(a + x, Start, images);
            && r.out + Pending(r.last.mode) == a + x
            && r.last.depth == d && !r.last.mode.InTag?
  {
    var rx := Run(x, Scanner(Text, d), images);
    DeepTextConserved(x, Scanner(Text, d), images);
    RunCompose(a, x, Start, images, Ran(a, Scanner(Text, d)), rx);
    PrefixGlue(a, rx.out, Pending(rx.last.mode), x);
  }

  /** Sequence glue kept apart from the scan facts. */
  lemma PrefixGlue(a: string, out: string, rest: string, x: string)
    requires out + rest == x
    ensures a + out + rest == a + x
  {
  }

  /** `<span class="invisible">` from the start state enters depth one. */
  lemma InvisibleSpanOpens(images: map<string, string>)
    ensures Run(InvisibleSpanOpen, Start, images) == Ran(InvisibleSpanOpen, Scanner(Text, 1))
  {
    TagCopied("span class=\"invisible\"", Start, images);
    InvisibleSpanSpelled();
  }

  /** `<span class="invisible">` as a tag body between angle brackets. */
  lemma InvisibleSpanSpelled()
    ensures Pending(Start.mode) + "<" + "span class=\"invisible\"" + ">" == InvisibleSpanOpen
    ensures "<" + "span class=\"invisible\"" + ">" == InvisibleSpanOpen
  {
  }

  /** The text of a `<span class="invisible">…</span>` (with no tag inside) is left as
      it is, shortcodes included, and the scan is back at depth zero after it. */
  lemma InvisibleSpanUntouched(x: string, images: map<string, string>)
    requires '<' !in x
    ensures Run(InvisibleSpanOpen + x + "</span>", Start, images)
         == Ran(InvisibleSpanOpen + x + "</span>", Start)
  {
    InvisibleSpanOpens(images);
    DepthOneClosed(InvisibleSpanOpen, x, images);
  }

  /** After a prefix copied into depth one, text without tags and a closing `</span>`
      are copied and bring the scan back to rest. */
  lemma DepthOneClosed(a: string, x: string, images: map<string, string>)
    requires '<' !in x && Run(a, Start, images) == Ran(a, Scanner(Text, 1))
    ensures Run(a + x + "</span>", Start, images) == Ran(a + x + "</span>", Start)
  {
    DeepAfter(a, x, 1, images);
    var r := Run(a + x, Start, images);
    SpanCloseAtDepthOne(r.last, images);
    RunCompose(a + x, "</span>", Start, images, r, Ran(Pending(r.last.mode) + "</span>", Start));
    SuffixGlue(r.out, Pending(r.last.mode), a + x, "</span>");
  }

  /** `</span>` at depth one writes out what was held back and the tag, and the scan
      is back at rest. */
  lemma SpanCloseAtDepthOne(st: Scanner, images: map<string, string>)
    requires st.depth == 1 && !st.mode.InTag?
    ensures Run("</span>", st, images) == Ran(Pending(st.mode) + "</span>", Start)
  {
    TagCopied("/span", st, images);
    SpanClose();
    assert Pending(st.mode) + "<" + "/span" + ">" == Pending(st.mode) + "</span>";
  }

  /** The closing tag of an invisible span, spelled out, and the depth it leaves. */
  lemma SpanClose()
    ensures "<" + "/span" + ">" == "</span>" && AfterTag(1, "</span>") == 0
  {
    assert "</span>"[..2] == "</";
  }

  /** Sequence glue kept apart from the scan facts. */
  lemma SuffixGlue(out: string, held: string, a: string, t: string)
    requires out + held == a
    ensures out + (held + t) == a + t
  {
  }

  /** The same inside a document, after text that leaves the scanner at rest. */
  lemma InvisibleSpanInContext(pre: string, x: string, post: string, emojis: map<string, string>)
    requires '<' !in x && emojis != map[] && Run(pre, Start, Images(emojis)).last == Start
    ensures Encode(pre + InvisibleSpanOpen + x + "</span>" + post, emojis)
         == Run(pre, Start, Images(emojis)).out + InvisibleSpanOpen + x + "</span>" + Encode(post, emojis)
  {
    var span := InvisibleSpanOpen + x + "</span>";
    InvisibleSpanUntouched(x, Images(emojis));
    EncodeAfterRest(pre, span + post, emojis);
    EncodeAfterRest(span, post, emojis);
    SpanGlue(pre, x, post, Run(pre, Start, Images(emojis)).out, Encode(post, emojis));
  }

  /** Sequence glue for `InvisibleSpanInContext`. */
  lemma SpanGlue(pre: string, x: string, post: string, out: string, rest: string)
    ensures pre + InvisibleSpanOpen + x + "</span>" + post == pre + (InvisibleSpanOpen + x + "</span>" + post)
    ensures out + InvisibleSpanOpen + x + "</span>" + rest == out + (InvisibleSpanOpen + x + "</span>" + rest)
  {
  }
}
