/**
 * Custom-emoji shortcode substitution (`Formatter#encode_custom_emojis` and
 * `Formatter#count_tag_nesting` in app/lib/formatter.rb).
 *
 * The specification is a character transducer: `Step` reads one character of the
 * input and says what it writes to a fresh output buffer, `Run` folds it over a
 * string. The method `EncodeCustomEmojis` keeps the Ruby algorithm as written: it
 * splices the image tag into the string it is scanning and moves its cursor with
 * index arithmetic; its postcondition says it computes exactly what the transducer
 * computes.
 */
module CustomEmoji {
  import opened Wrappers
  import opened Strings

  /** The exact opening tag that starts a region the scanner must not touch. */
  const InvisibleSpanOpen: string := "<span class=\"invisible\">"

  /** Net change of the invisible-span nesting depth caused by a completed tag:
      -1 for a closing tag (`</…>`), 0 for a self-closing one (`<…/>`), +1 otherwise.
      The closing test is made first. */
  function CountTagNesting(tag: string): (n: int)
    ensures -1 <= n <= 1
  {
    if |tag| >= 2 && tag[1] == '/' then -1
    else if |tag| >= 2 && tag[|tag| - 2] == '/' then 0
    else 1
  }

  /** The three kinds of tag: a closing tag counts -1 even when it also ends in `/>`,
      a self-closing tag 0, and any other tag +1. */
  lemma TagNestingKinds(body: string)
    ensures CountTagNesting("</" + body + ">") == -1
    ensures CountTagNesting("</" + body + "/>") == -1
    ensures body != [] && body[0] != '/' ==> CountTagNesting("<" + body + "/>") == 0
    ensures body != [] && body[0] != '/' && body[|body| - 1] != '/' ==> CountTagNesting("<" + body + ">") == 1
  {
    assert ("</" + body + ">")[1] == '/';
    assert ("</" + body + "/>")[1] == '/';
    if body != [] {
      assert ("<" + body + "/>")[1] == body[0];
      assert ("<" + body + "/>")[|body| + 1] == '/';
      assert ("<" + body + ">")[1] == body[0];
      assert ("<" + body + ">")[|body| - 1 + 1] == body[|body| - 1];
    }
  }

  /** The image tag that replaces `:code:`, as the concatenation of its pieces:
      `<img draggable="false" class="emojione" alt=":code:" title=":code:" src="url" />`. */
  function Replacement(code: string, url: string): string {
    Join([ImgHead, code, ImgTitle, code, ImgSrc, url, ImgTail])
  }

  const ImgHead: string := "<img draggable=\"false\" class=\"emojione\" alt=\":"
  const ImgTitle: string := ":\" title=\":"
  const ImgSrc: string := ":\" src=\""
  const ImgTail: string := "\" />"

  /** The image tag spelled out as one literal around the shortcode and the URL. It
      is 69 characters longer than two shortcodes and the URL, and it ends in `>`:
      the cursor arithmetic after a replacement lands on that character. */
  lemma ReplacementSpelled(code: string, url: string)
    ensures Replacement(code, url)
         == "<img draggable=\"false\" class=\"emojione\" alt=\":" + code + ":\" title=\":" + code
            + ":\" src=\"" + url + "\" />"
    ensures |Replacement(code, url)| == 2 * |code| + |url| + 69
    ensures Replacement(code, url)[|Replacement(code, url)| - 1] == '>'
  {
    var p := [ImgHead, code, ImgTitle, code, ImgSrc, url, ImgTail];
    assert p[..6][..5][..4][..3][..2][..1][..0] == [];
    assert Join(p[..1]) == ImgHead;
    assert Join(p[..2]) == ImgHead + code by { assert p[..2][..1] == p[..1]; }
    assert Join(p[..3]) == ImgHead + code + ImgTitle by { assert p[..3][..2] == p[..2]; }
    assert Join(p[..4]) == ImgHead + code + ImgTitle + code by { assert p[..4][..3] == p[..3]; }
    assert Join(p[..5]) == ImgHead + code + ImgTitle + code + ImgSrc by { assert p[..5][..4] == p[..4]; }
    assert Join(p[..6]) == ImgHead + code + ImgTitle + code + ImgSrc + url by { assert p[..6][..5] == p[..5]; }
    assert Join(p) == ImgHead + code + ImgTitle + code + ImgSrc + url + ImgTail;
  }

  /** What the scanner is in the middle of: plain text, an HTML tag whose characters
      so far are `tag`, or a shortcode candidate `:code` that is not written out yet. */
  datatype Mode = Text | InTag(tag: string) | InShortcode(code: string)

  /** The scanner state: the mode and the `<span class="invisible">` nesting depth. */
  datatype Scanner = Scanner(mode: Mode, depth: nat)

  const Start: Scanner := Scanner(Text, 0)

  /** The input held back by the scanner, not yet written to the output. */
  function Pending(mode: Mode): string {
    if mode.InShortcode? then ":" + mode.code else ""
  }

  /** The depth after the tag `tag` has been completed at depth `depth`. */
  function AfterTag(depth: nat, tag: string): nat {
    if depth > 0 then depth + CountTagNesting(tag)
    else if tag == InvisibleSpanOpen then 1
    else depth
  }

  /** The image tag for each known shortcode. */
  function Images(emojis: map<string, string>): (images: map<string, string>)
    ensures images.Keys == emojis.Keys
    ensures forall code :: code in images ==> images[code] == Replacement(code, emojis[code])
  {
    map code | code in emojis :: Replacement(code, emojis[code])
  }

  datatype Stepped = Stepped(next: Scanner, emitted: string)

  /** One character of the scan, in the order of the four branches of the Ruby loop:
      closing a candidate at depth zero, closing a tag, opening a tag, opening a candidate. */
  function Step(st: Scanner, c: char, images: map<string, string>): Stepped {
    match st.mode
    case InShortcode(code) =>
      if st.depth == 0 && c == ':' then
        if code in images then Stepped(Scanner(Text, 0), images[code])
        // an unknown shortcode is written out and its closing colon opens a new candidate
        else Stepped(Scanner(InShortcode(""), 0), ":" + code)
      else if c == '<' then Stepped(Scanner(InTag("<"), st.depth), ":" + code + "<")
      else if c == ':' then Stepped(Scanner(InShortcode(""), st.depth), ":" + code)
      else Stepped(Scanner(InShortcode(code + [c]), st.depth), "")
    case InTag(tag) =>
      if c == '>' then Stepped(Scanner(Text, AfterTag(st.depth, tag + ">")), ">")
      else if c == '<' then Stepped(Scanner(InTag("<"), st.depth), "<")
      else Stepped(Scanner(InTag(tag + [c]), st.depth), [c])
    case Text =>
      if c == '<' then Stepped(Scanner(InTag("<"), st.depth), "<")
      else if c == ':' then Stepped(Scanner(InShortcode(""), st.depth), "")
      else Stepped(st, [c])
  }

  /** The output written and the state reached after scanning all of `s`. */
  datatype Ran = Ran(out: string, last: Scanner)

  function Run(s: string, st: Scanner, images: map<string, string>): Ran
    decreases |s|
  {
    if s == [] then Ran("", st)
    else
      var r := Run(s[..|s| - 1], st, images);
      var t := Step(r.last, s[|s| - 1], images);
      Ran(r.out + t.emitted, t.next)
  }

  /** Continues a finished scan `r` over `s`. */
  function Then(r: Ran, s: string, images: map<string, string>): Ran {
    var r2 := Run(s, r.last, images);
    Ran(r.out + r2.out, r2.last)
  }

  /** The whole substitution: nothing to do without emojis, otherwise the scan's output
      followed by whatever it still holds back at the end. */
  function Encode(html: string, emojis: map<string, string>): string {
    if emojis == map[] then html
    else
      var r := Run(html, Start, Images(emojis));
      r.out + Pending(r.last.mode)
  }

  /** Scanning `a + b` is scanning `a` and then `b` from where `a` left off. */
  lemma {:induction false} RunConcat(a: string, b: string, st: Scanner, images: map<string, string>)
    ensures Run(a + b, st, images) == Then(Run(a, st, images), b, images)
    decreases |b|
  {
    if b == [] {
      assert a + b == a;
    } else {
      var b', c := b[..|b| - 1], b[|b| - 1];
      SplitLast(a, b);
      RunConcat(a, b', st, images);
      var ra := Run(a, st, images);
      var rb' := Run(b', ra.last, images);
      var t := Step(rb'.last, c, images);
      Assoc(ra.out, rb'.out, t.emitted);
    }
  }

  /** `RunConcat` for scans whose results are already known. */
  lemma RunCompose(a: string, b: string, st: Scanner, images: map<string, string>, ra: Ran, rb: Ran)
    requires Run(a, st, images) == ra && Run(b, ra.last, images) == rb
    ensures Run(a + b, st, images) == Ran(ra.out + rb.out, rb.last)
  {
    RunConcat(a, b, st, images);
  }

  /** A single-character scan is a single step. */
  lemma RunOne(c: char, st: Scanner, images: map<string, string>)
    ensures Run([c], st, images) == Ran(Step(st, c, images).emitted, Step(st, c, images).next)
  {
    assert [c][..0] == [];
  }

  /** Scanning one more character of `s` is one more step. */
  lemma RunSnoc(s: string, k: nat, st: Scanner, images: map<string, string>)
    requires k < |s|
    ensures Run(s[..k + 1], st, images)
         == Ran(Run(s[..k], st, images).out + Step(Run(s[..k], st, images).last, s[k], images).emitted,
                Step(Run(s[..k], st, images).last, s[k], images).next)
  {
    assert s[..k + 1][..k] == s[..k];
  }

  /** The local variables of the Ruby loop, gathered for the proof. */
  datatype Cursor = Cursor(html: string, i: int, tagOpenIndex: Option<nat>, inside: bool,
                           start: int, depth: int)

  /** The transducer's view of the same moment: `j` characters of the original input
      read, `out` written, state `st`, and the two in-between situations of the loop. */
  datatype Mirror = Mirror(j: nat, out: string, st: Scanner, landing: bool, reexam: bool)

  /** How the spliced string and the Ruby cursor correspond to the transducer. */
  ghost predicate Mirrors(html0: string, emojis: map<string, string>, c: Cursor, m: Mirror) {
    && m.j <= |html0|
    && (!m.reexam ==> Run(html0[..m.j], Start, Images(emojis)) == Ran(m.out, m.st))
    && (m.reexam ==>
          && !m.landing && m.j < |html0| && html0[m.j] == ':' && m.st == Start
          && Run(html0[..m.j + 1], Start, Images(emojis)) == Ran(m.out, Scanner(InShortcode(""), 0)))
    && c.html == m.out + Pending(m.st.mode) + html0[m.j..]
    && (m.landing ==> m.st == Start && |m.out| >= 1 && m.out[|m.out| - 1] == '>' && c.i + 2 == |m.out|)
    && (!m.landing ==> c.i + 1 == |m.out| + |Pending(m.st.mode)|)
    && (c.inside <==> m.st.mode.InShortcode?)
    && (c.inside ==> c.start == |m.out|)
    && (c.tagOpenIndex.Some? <==> m.st.mode.InTag?)
    && (m.st.mode.InTag? ==>
          && |m.st.mode.tag| <= |m.out| && c.tagOpenIndex.value == |m.out| - |m.st.mode.tag|
          && m.out[|m.out| - |m.st.mode.tag|..] == m.st.mode.tag)
    && c.depth == m.st.depth
  }

  /** Facts shared by the branches: the character under the cursor is the next input
      character, and the transducer's step on it extends its run by one. */
  lemma MirrorsNext(html0: string, emojis: map<string, string>, c: Cursor, m: Mirror)
    requires Mirrors(html0, emojis, c, m) && c.i + 1 < |c.html| && !m.landing
    ensures m.j < |html0| && c.html[c.i + 1] == html0[m.j]
    ensures html0[m.j..] == [html0[m.j]] + html0[m.j + 1..]
    ensures !m.reexam ==>
              var t := Step(m.st, html0[m.j], Images(emojis));
              Run(html0[..m.j + 1], Start, Images(emojis)) == Ran(m.out + t.emitted, t.next)
  {
    assert html0[m.j..] == [html0[m.j]] + html0[m.j + 1..];
    if !m.reexam {
      RunSnoc(html0, m.j, Start, Images(emojis));
    }
  }

  /** Branch one, known shortcode: the image tag is spliced in and the cursor is put
      one before the tag's final `>`. */
  lemma HitKeepsMirror(html0: string, emojis: map<string, string>, c: Cursor, m: Mirror, code: string,
                       c2: Cursor)
    returns (m2: Mirror)
    requires Mirrors(html0, emojis, c, m) && c.i + 1 < |c.html|
    requires c.depth == 0 && c.inside && c.html[c.i + 1] == ':'
    requires code == c.html[c.start + 1 .. c.i + 1] && code in emojis
    requires
      var r := Replacement(code, emojis[code]);
      var before := if c.start > 0 then c.html[..c.start] else "";
      c2 == c.(html := before + r + c.html[c.i + 2..], i := c.i + 1 + |r| - (|code| + 2) - 1,
               inside := false)
    ensures m2 == Mirror(m.j + 1, m.out + Replacement(code, emojis[code]), Start, true, false)
    ensures Mirrors(html0, emojis, c2, m2)
  {
    m2 := Mirror(m.j + 1, m.out + Replacement(code, emojis[code]), Start, true, false);
    MirrorsNext(html0, emojis, c, m);
    assert code == m.st.mode.code;
    var r := Replacement(code, emojis[code]);
    assert Step(m.st, html0[m.j], Images(emojis)) == Stepped(Start, r);
    assert c.html[c.i + 2..] == html0[m.j + 1..];
    var before := if c.start > 0 then c.html[..c.start] else "";
    assert before == m.out;
    assert before + r + c.html[c.i + 2..] == (m.out + r) + Pending(Text) + html0[m.j + 1..];
  }

  /** Branch one, unknown shortcode: the cursor steps back so that the closing colon is
      read again. */
  lemma MissKeepsMirror(html0: string, emojis: map<string, string>, c: Cursor, m: Mirror, code: string,
                        c2: Cursor)
    returns (m2: Mirror)
    requires Mirrors(html0, emojis, c, m) && c.i + 1 < |c.html|
    requires c.depth == 0 && c.inside && c.html[c.i + 1] == ':'
    requires code == c.html[c.start + 1 .. c.i + 1] && code !in emojis
    requires c2 == c.(inside := false)
    ensures m2 == Mirror(m.j, m.out + ":" + code, Start, false, true)
    ensures Mirrors(html0, emojis, c2, m2)
  {
    m2 := Mirror(m.j, m.out + ":" + code, Start, false, true);
    MirrorsNext(html0, emojis, c, m);
    assert code == m.st.mode.code;
    assert Step(m.st, html0[m.j], Images(emojis)) == Stepped(Scanner(InShortcode(""), 0), ":" + code);
  }

  /** Branch two: a `>` completes the open tag and adjusts the depth. */
  lemma TagCloseKeepsMirror(html0: string, emojis: map<string, string>, c: Cursor, m: Mirror,
                            c2: Cursor)
    returns (m2: Mirror)
    requires Mirrors(html0, emojis, c, m) && c.i + 1 < |c.html|
    requires !(c.depth == 0 && c.inside && c.html[c.i + 1] == ':')
    requires c.tagOpenIndex.Some? && c.html[c.i + 1] == '>'
    requires c.tagOpenIndex.value <= c.i + 2
    requires
      var tag := c.html[c.tagOpenIndex.value .. c.i + 2];
      var depth := if c.depth > 0 then c.depth + CountTagNesting(tag)
                   else if tag == InvisibleSpanOpen then 1 else c.depth;
      c2 == c.(i := c.i + 1, tagOpenIndex := None, depth := depth)
    ensures m2.j == m.j + 1 && !m2.landing && !m2.reexam
    ensures Mirrors(html0, emojis, c2, m2)
  {
    var t := Step(m.st, '>', Images(emojis));
    m2 := Mirror(m.j + 1, m.out + t.emitted, t.next, false, false);
    MirrorsNext(html0, emojis, c, m);
    var tag := c.html[c.tagOpenIndex.value .. c.i + 2];
    assert tag == m.st.mode.tag + ">";
    assert t == Stepped(Scanner(Text, AfterTag(m.st.depth, tag)), ">");
    assert c.html == (m.out + ">") + Pending(Text) + html0[m.j + 1..];
  }

  /** Branch three: a `<` opens a tag and cancels an open candidate. */
  lemma TagOpenKeepsMirror(html0: string, emojis: map<string, string>, c: Cursor, m: Mirror,
                           c2: Cursor)
    returns (m2: Mirror)
    requires Mirrors(html0, emojis, c, m) && c.i + 1 < |c.html|
    requires !(c.depth == 0 && c.inside && c.html[c.i + 1] == ':')
    requires !(c.tagOpenIndex.Some? && c.html[c.i + 1] == '>')
    requires c.html[c.i + 1] == '<'
    requires c2 == c.(i := c.i + 1, tagOpenIndex := Some(c.i + 1), inside := false)
    ensures m2.j == m.j + 1 && !m2.landing && !m2.reexam
    ensures Mirrors(html0, emojis, c2, m2)
  {
    MirrorsNext(html0, emojis, c, m);
    var out2 := m.out + Pending(m.st.mode) + "<";
    m2 := Mirror(m.j + 1, out2, Scanner(InTag("<"), m.st.depth), false, false);
    assert Step(m.st, '<', Images(emojis)) == Stepped(m2.st, Pending(m.st.mode) + "<");
    TagOpenKeepsMirrorText(html0, emojis, c, m, c2, m2);
  }

  lemma TagOpenKeepsMirrorText(html0: string, emojis: map<string, string>, c: Cursor, m: Mirror,
                               c2: Cursor, m2: Mirror)
    requires Mirrors(html0, emojis, c, m) && !m.landing && !m.reexam
    requires m.j < |html0| && html0[m.j] == '<'
    requires html0[m.j..] == [html0[m.j]] + html0[m.j + 1..]
    requires m2 == Mirror(m.j + 1, m.out + Pending(m.st.mode) + "<", Scanner(InTag("<"), m.st.depth), false, false)
    requires Run(html0[..m.j + 1], Start, Images(emojis)) == Ran(m2.out, m2.st)
    requires c2 == c.(i := c.i + 1, tagOpenIndex := Some(c.i + 1), inside := false)
    ensures Mirrors(html0, emojis, c2, m2)
  {
    assert c2.html == m2.out + "" + html0[m.j + 1..];
    assert m2.out[|m2.out| - 1..] == "<";
  }

  /** Branch four: a `:` outside any tag opens a candidate; after a miss this is the
      second reading of the closing colon. */
  lemma ColonKeepsMirror(html0: string, emojis: map<string, string>, c: Cursor, m: Mirror,
                         c2: Cursor)
    returns (m2: Mirror)
    requires Mirrors(html0, emojis, c, m) && c.i + 1 < |c.html|
    requires !(c.depth == 0 && c.inside && c.html[c.i + 1] == ':')
    requires c.tagOpenIndex.None? && c.html[c.i + 1] == ':'
    requires c2 == c.(i := c.i + 1, inside := true, start := c.i + 1)
    ensures m2.j == m.j + 1 && !m2.landing && !m2.reexam
    ensures Mirrors(html0, emojis, c2, m2)
  {
    MirrorsNext(html0, emojis, c, m);
    if m.reexam {
      m2 := Mirror(m.j + 1, m.out, Scanner(InShortcode(""), 0), false, false);
      ColonReexamined(html0, emojis, c, m, c2, m2);
    } else {
      m2 := Mirror(m.j + 1, m.out + Pending(m.st.mode), Scanner(InShortcode(""), m.st.depth), false, false);
      assert Step(m.st, ':', Images(emojis)) == Stepped(m2.st, Pending(m.st.mode));
      ColonFirstRead(html0, emojis, c, m, c2, m2);
    }
  }

  lemma ColonReexamined(html0: string, emojis: map<string, string>, c: Cursor, m: Mirror,
                        c2: Cursor, m2: Mirror)
    requires Mirrors(html0, emojis, c, m) && m.reexam
    requires c.html[c.i + 1] == ':'
    requires m2 == Mirror(m.j + 1, m.out, Scanner(InShortcode(""), 0), false, false)
    requires c2 == c.(i := c.i + 1, inside := true, start := c.i + 1)
    ensures Mirrors(html0, emojis, c2, m2)
  {
    assert html0[m.j..] == ":" + html0[m.j + 1..];
  }

  lemma ColonFirstRead(html0: string, emojis: map<string, string>, c: Cursor, m: Mirror,
                       c2: Cursor, m2: Mirror)
    requires Mirrors(html0, emojis, c, m) && !m.landing && !m.reexam && !m.st.mode.InTag?
    requires m.j < |html0| && html0[m.j] == ':'
    requires html0[m.j..] == [html0[m.j]] + html0[m.j + 1..]
    requires m2 == Mirror(m.j + 1, m.out + Pending(m.st.mode), Scanner(InShortcode(""), m.st.depth), false, false)
    requires Run(html0[..m.j + 1], Start, Images(emojis)) == Ran(m2.out, m2.st)
    requires c2 == c.(i := c.i + 1, inside := true, start := c.i + 1)
    ensures Mirrors(html0, emojis, c2, m2)
  {
    assert c2.html == m2.out + ":" + html0[m.j + 1..];
  }

  /** The step onto the final `>` of an inserted image tag changes nothing. */
  lemma LandingKeepsMirror(html0: string, emojis: map<string, string>, c: Cursor, m: Mirror,
                           c2: Cursor)
    returns (m2: Mirror)
    requires Mirrors(html0, emojis, c, m) && c.i + 1 < |c.html| && m.landing
    requires c2 == c.(i := c.i + 1)
    ensures c.html[c.i + 1] == '>' && !c.inside && c.tagOpenIndex.None?
    ensures m2 == m.(landing := false)
    ensures Mirrors(html0, emojis, c2, m2)
  {
    m2 := m.(landing := false);
  }

  /** Any other character is copied: into the open tag, the candidate, or the text. */
  lemma OtherKeepsMirror(html0: string, emojis: map<string, string>, c: Cursor, m: Mirror,
                         c2: Cursor)
    returns (m2: Mirror)
    requires Mirrors(html0, emojis, c, m) && c.i + 1 < |c.html| && !m.landing
    requires !(c.depth == 0 && c.inside && c.html[c.i + 1] == ':')
    requires !(c.tagOpenIndex.Some? && c.html[c.i + 1] == '>')
    requires c.html[c.i + 1] != '<'
    requires !(c.tagOpenIndex.None? && c.html[c.i + 1] == ':')
    requires c2 == c.(i := c.i + 1)
    ensures Mirrors(html0, emojis, c2, m2)
  {
    MirrorsNext(html0, emojis, c, m);
    var t := Step(m.st, html0[m.j], Images(emojis));
    m2 := Mirror(m.j + 1, m.out + t.emitted, t.next, false, false);
    match m.st.mode {
      case InTag(tag) => OtherInTag(html0, emojis, c, m, c2, m2);
      case InShortcode(code) => OtherInShortcode(html0, emojis, c, m, c2, m2);
      case Text => OtherInText(html0, emojis, c, m, c2, m2);
    }
  }

  lemma OtherInTag(html0: string, emojis: map<string, string>, c: Cursor, m: Mirror, c2: Cursor, m2: Mirror)
    requires Mirrors(html0, emojis, c, m) && !m.landing && !m.reexam && m.st.mode.InTag?
    requires m.j < |html0| && html0[m.j] != '>' && html0[m.j] != '<'
    requires html0[m.j..] == [html0[m.j]] + html0[m.j + 1..]
    requires Run(html0[..m.j + 1], Start, Images(emojis))
          == Ran(m.out + [html0[m.j]], Scanner(InTag(m.st.mode.tag + [html0[m.j]]), m.st.depth))
    requires c2 == c.(i := c.i + 1)
    requires m2 == Mirror(m.j + 1, m.out + [html0[m.j]], Scanner(InTag(m.st.mode.tag + [html0[m.j]]), m.st.depth), false, false)
    ensures Mirrors(html0, emojis, c2, m2)
  {
    InTagGlue(m.out, m.st.mode.tag, html0[m.j], html0[m.j + 1..]);
  }

  /** Sequence glue for `OtherInTag`, kept apart from the scan facts. */
  lemma InTagGlue(out: string, tag: string, ch: char, rest: string)
    requires |tag| <= |out| && out[|out| - |tag|..] == tag
    ensures (out + [ch])[|out + [ch]| - |tag + [ch]|..] == tag + [ch]
    ensures out + "" + ([ch] + rest) == out + [ch] + "" + rest
  {
    assert (out + [ch])[|out + [ch]| - |tag + [ch]|..] == out[|out| - |tag|..] + [ch];
  }

  lemma OtherInShortcode(html0: string, emojis: map<string, string>, c: Cursor, m: Mirror, c2: Cursor, m2: Mirror)
    requires Mirrors(html0, emojis, c, m) && !m.landing && !m.reexam && m.st.mode.InShortcode?
    requires m.j < |html0| && html0[m.j] != ':' && html0[m.j] != '<'
    requires html0[m.j..] == [html0[m.j]] + html0[m.j + 1..]
    requires Run(html0[..m.j + 1], Start, Images(emojis))
          == Ran(m.out, Scanner(InShortcode(m.st.mode.code + [html0[m.j]]), m.st.depth))
    requires c2 == c.(i := c.i + 1)
    requires m2 == Mirror(m.j + 1, m.out, Scanner(InShortcode(m.st.mode.code + [html0[m.j]]), m.st.depth), false, false)
    ensures Mirrors(html0, emojis, c2, m2)
  {
    assert c.html == m.out + (":" + m.st.mode.code + [html0[m.j]]) + html0[m.j + 1..];
  }

  lemma OtherInText(html0: string, emojis: map<string, string>, c: Cursor, m: Mirror, c2: Cursor, m2: Mirror)
    requires Mirrors(html0, emojis, c, m) && !m.landing && !m.reexam && m.st.mode.Text?
    requires m.j < |html0| && html0[m.j] != ':' && html0[m.j] != '<'
    requires html0[m.j..] == [html0[m.j]] + html0[m.j + 1..]
    requires Run(html0[..m.j + 1], Start, Images(emojis)) == Ran(m.out + [html0[m.j]], m.st)
    requires c2 == c.(i := c.i + 1)
    requires m2 == Mirror(m.j + 1, m.out + [html0[m.j]], m.st, false, false)
    ensures Mirrors(html0, emojis, c2, m2)
  {
    assert c.html == (m.out + [html0[m.j]]) + "" + html0[m.j + 1..];
  }

  /** When the loop stops, the whole input has been read and `html` is the result. */
  lemma MirrorsDone(html0: string, emojis: map<string, string>, c: Cursor, m: Mirror)
    requires Mirrors(html0, emojis, c, m) && c.i + 1 >= |c.html| && emojis != map[]
    ensures c.html == Encode(html0, emojis)
  {
    assert m.j == |html0| && !m.reexam && !m.landing;
    assert html0[..m.j] == html0;
  }

  /** What the loop variables always satisfy, whatever the input. */
  ghost predicate Sane(c: Cursor) {
    && -1 <= c.i
    && (c.inside ==> 0 <= c.start <= c.i && c.tagOpenIndex.None?)
    && (c.tagOpenIndex.Some? ==> c.tagOpenIndex.value <= c.i + 1)
  }

  /** One pass of the Ruby loop body, as a function of the loop variables. */
  ghost function Iterate(c: Cursor, emojis: map<string, string>): (c2: Cursor)
    requires Sane(c) && c.i + 1 < |c.html|
    ensures Sane(c2)
    ensures || |c2.html| - c2.i < |c.html| - c.i
            || (|c2.html| - c2.i == |c.html| - c.i && c.inside && !c2.inside)
  {
    var i := c.i + 1;
    if c.depth == 0 && c.inside && c.html[i] == ':' then
      var code := c.html[c.start + 1 .. i];
      if code in emojis then
        var r := Replacement(code, emojis[code]);
        var before := if c.start > 0 then c.html[..c.start] else "";
        c.(html := before + r + c.html[i + 1..], i := i + |r| - (|code| + 2) - 1, inside := false)
      else
        c.(i := i - 1, inside := false)
    else if c.tagOpenIndex.Some? && c.html[i] == '>' then
      var tag := c.html[c.tagOpenIndex.value .. i + 1];
      var depth := if c.depth > 0 then c.depth + CountTagNesting(tag)
                   else if tag == InvisibleSpanOpen then 1 else c.depth;
      c.(i := i, tagOpenIndex := None, depth := depth)
    else if c.html[i] == '<' then
      c.(i := i, tagOpenIndex := Some(i), inside := false)
    else if c.tagOpenIndex.None? && c.html[i] == ':' then
      c.(i := i, inside := true, start := i)
    else
      c.(i := i)
  }

  /** The rest of the Ruby loop from the loop variables `c`: the string it returns. */
  ghost function Loop(c: Cursor, emojis: map<string, string>): string
    requires Sane(c)
    decreases |c.html| - c.i, if c.inside then 1 else 0
  {
    if c.i + 1 < |c.html| then Loop(Iterate(c, emojis), emojis) else c.html
  }

  lemma LoopUnfold(c: Cursor, emojis: map<string, string>)
    requires Sane(c) && c.i + 1 < |c.html|
    ensures Loop(c, emojis) == Loop(Iterate(c, emojis), emojis)
  {
  }

  /** One pass of the loop body keeps the correspondence with the transducer. */
  lemma IterateKeepsMirror(html0: string, emojis: map<string, string>, c: Cursor, m: Mirror)
    returns (m2: Mirror)
    requires Mirrors(html0, emojis, c, m) && Sane(c) && c.i + 1 < |c.html|
    ensures Mirrors(html0, emojis, Iterate(c, emojis), m2)
  {
    var c2 := Iterate(c, emojis);
    var i := c.i + 1;
    if c.depth == 0 && c.inside && c.html[i] == ':' {
      var code := c.html[c.start + 1 .. i];
      if code in emojis {
        m2 := HitKeepsMirror(html0, emojis, c, m, code, c2);
      } else {
        m2 := MissKeepsMirror(html0, emojis, c, m, code, c2);
      }
    } else if c.tagOpenIndex.Some? && c.html[i] == '>' {
      m2 := TagCloseKeepsMirror(html0, emojis, c, m, c2);
    } else if c.html[i] == '<' {
      m2 := TagOpenKeepsMirror(html0, emojis, c, m, c2);
    } else if c.tagOpenIndex.None? && c.html[i] == ':' {
      m2 := ColonKeepsMirror(html0, emojis, c, m, c2);
    } else if m.landing {
      m2 := LandingKeepsMirror(html0, emojis, c, m, c2);
    } else {
      m2 := OtherKeepsMirror(html0, emojis, c, m, c2);
    }
  }

  /** Running the Ruby loop to the end from a state that corresponds to the transducer
      gives the transducer's result. */
  lemma {:induction false} LoopMatchesEncode(html0: string, emojis: map<string, string>, c: Cursor, m: Mirror)
    requires Mirrors(html0, emojis, c, m) && Sane(c) && emojis != map[]
    ensures Loop(c, emojis) == Encode(html0, emojis)
    decreases |c.html| - c.i, if c.inside then 1 else 0
  {
    if c.i + 1 < |c.html| {
      var m2 := IterateKeepsMirror(html0, emojis, c, m);
      LoopMatchesEncode(html0, emojis, Iterate(c, emojis), m2);
      LoopUnfold(c, emojis);
    } else {
      MirrorsDone(html0, emojis, c, m);
    }
  }

  /** `Formatter#encode_custom_emojis`: the Ruby loop, splicing the image tag into the
      string it scans and moving the cursor past it. */
  method EncodeCustomEmojis(html0: string, emojis: map<string, string>) returns (html: string)
    ensures html == Encode(html0, emojis)
  {
    html := html0;
    if emojis == map[] {
      return;
    }
    var i: int := -1;
    var tagOpenIndex: Option<nat> := None;
    var insideShortname := false;
    var shortnameStartIndex: int := -1;
    var invisibleDepth: int := 0;
    ghost var start := Cursor(html, i, tagOpenIndex, insideShortname, shortnameStartIndex, invisibleDepth);
    LoopMatchesEncode(html0, emojis, start, Mirror(0, "", Start, false, false));

    while i + 1 < |html|
      invariant Sane(Cursor(html, i, tagOpenIndex, insideShortname, shortnameStartIndex, invisibleDepth))
      invariant Loop(Cursor(html, i, tagOpenIndex, insideShortname, shortnameStartIndex, invisibleDepth), emojis) == Loop(start, emojis)
      decreases |html| - i, if insideShortname then 1 else 0
    {
      ghost var before := Cursor(html, i, tagOpenIndex, insideShortname, shortnameStartIndex, invisibleDepth);
      html, i, tagOpenIndex, insideShortname, shortnameStartIndex, invisibleDepth :=
        LoopPass(html, i, tagOpenIndex, insideShortname, shortnameStartIndex, invisibleDepth, emojis);
      LoopUnfold(before, emojis);
    }
  }

  /** One pass of the loop body of `Formatter#encode_custom_emojis`. */
  method LoopPass(html0: string, i0: int, tagOpenIndex0: Option<nat>, insideShortname0: bool,
                  shortnameStartIndex0: int, invisibleDepth0: int, emojis: map<string, string>)
    returns (html: string, i: int, tagOpenIndex: Option<nat>, insideShortname: bool,
             shortnameStartIndex: int, invisibleDepth: int)
    requires Sane(Cursor(html0, i0, tagOpenIndex0, insideShortname0, shortnameStartIndex0, invisibleDepth0))
    requires i0 + 1 < |html0|
    ensures Cursor(html, i, tagOpenIndex, insideShortname, shortnameStartIndex, invisibleDepth)
         == Iterate(Cursor(html0, i0, tagOpenIndex0, insideShortname0, shortnameStartIndex0, invisibleDepth0), emojis)
  {
    html, i, tagOpenIndex, insideShortname, shortnameStartIndex, invisibleDepth :=
      html0, i0, tagOpenIndex0, insideShortname0, shortnameStartIndex0, invisibleDepth0;
    i := i + 1;
    if invisibleDepth == 0 && insideShortname && html[i] == ':' {
      var shortcode := html[shortnameStartIndex + 1 .. i];
      if shortcode in emojis {
        var replacement := Replacement(shortcode, emojis[shortcode]);
        var beforeHtml := if shortnameStartIndex > 0 then html[..shortnameStartIndex] else "";
        html := beforeHtml + replacement + html[i + 1..];
        i := i + |replacement| - (|shortcode| + 2) - 1;
      } else {
        i := i - 1;
      }
      insideShortname := false;
    } else if tagOpenIndex.Some? && html[i] == '>' {
      var tag := html[tagOpenIndex.value .. i + 1];
      tagOpenIndex := None;
      if invisibleDepth > 0 {
        invisibleDepth := invisibleDepth + CountTagNesting(tag);
      } else if tag == InvisibleSpanOpen {
        invisibleDepth := 1;
      }
    } else if html[i] == '<' {
      tagOpenIndex := Some(i);
      insideShortname := false;
    } else if tagOpenIndex.None? && html[i] == ':' {
      insideShortname := true;
      shortnameStartIndex := i;
    }
  }
}
