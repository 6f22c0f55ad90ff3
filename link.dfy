/**
 * The label of an autolinked URL (`Formatter#link_html` in app/lib/formatter.rb):
 * the URL, padded with one space, is split into a prefix and a suffix that are
 * rendered invisible and a visible middle of at most 30 characters, which gets the
 * class `ellipsis` when something follows it.
 *
 * URL normalisation (`Addressable::URI.parse(url).to_s`) and HTML escaping
 * (`HTMLEntities#encode`) are parameters.
 */
module LinkLabel {
  import opened Wrappers

  /** Longest visible part of a label. */
  const VisibleLength: nat := 30

  /** Characters that the bracket expression `[^<>"\[\]  ]` accepts. */
  predicate Allowed(c: char) {
    c != '<' && c != '>' && c != '"' && c != '[' && c != ']' && c != ' '
  }

  /** What follows the scheme in the pattern: `(www\.)?+` then one allowed character
      and the end of the string. The quantifier is possessive, so a leading `www.`
      is always taken by the group. */
  predicate AfterScheme(r: string) {
    if |r| >= 4 && r[..4] == "www." then |r| == 5 && Allowed(r[4])
    else |r| == 1 && Allowed(r[0])
  }

  /** The whole string matches `\Ahttps?:\/\/(www\.)?+[^<>"\[\]  ]\z`. */
  predicate PrefixPattern(s: string) {
    || (|s| >= 8 && s[..8] == "https://" && AfterScheme(s[8..]))
    || (|s| >= 7 && s[..7] == "http://" && AfterScheme(s[7..]))
  }

  /** `s.match(pattern).to_s`: the matched text, which for a pattern anchored at both
      ends is all of `s` or nothing. */
  function MatchPrefix(s: string): (p: string)
    ensures p == s || p == ""
    ensures p == s && s != [] <==> PrefixPattern(s)
  {
    if PrefixPattern(s) then s else ""
  }

  /** `s[start, len]`: `nil` past the end, otherwise at most `len` characters. */
  function Substr(s: string, start: nat, len: nat): (r: Option<string>)
    ensures r.None? <==> start > |s|
    ensures r.Some? ==> |r.value| == if |s| - start < len then |s| - start else len
    ensures r.Some? ==> r.value == s[start..start + |r.value|]
  {
    if start > |s| then None
    else if |s| - start < len then Some(s[start..])
    else Some(s[start..start + len])
  }

  /** `s[start..-1]`: `nil` past the end, otherwise the rest of `s`. */
  function From(s: string, start: nat): (r: Option<string>)
    ensures r.None? <==> start > |s|
    ensures r.Some? ==> start + |r.value| == |s| && s[start..] == r.value
  {
    if start > |s| then None else Some(s[start..])
  }

  /** The four values `link_html` computes before it writes the markup. */
  datatype Label = Label(prefix: string, text: string, suffix: Option<string>, cutoff: bool)

  /** `nil.to_s` is the empty string. */
  function OrEmpty(o: Option<string>): string {
    if o.None? then "" else o.value
  }

  /** Splits an (already padded) URL. The three parts put back together give the
      URL, the visible text is at most 30 characters, the text is cut exactly when
      more than 30 characters follow the prefix, and the suffix is `nil` exactly when
      fewer than 30 do. */
  function Split(url: string): (l: Label)
    ensures |l.text| <= VisibleLength
    ensures l.prefix + l.text + OrEmpty(l.suffix) == url
    ensures l.cutoff <==> |url| - |l.prefix| > VisibleLength
    ensures l.cutoff <==> l.suffix.Some? && l.suffix.value != ""
    ensures l.suffix.None? <==> |url| < |l.prefix| + VisibleLength
    ensures !l.cutoff ==> l.prefix + l.text == url
  {
    var prefix := MatchPrefix(url);
    var text := Substr(url, |prefix|, VisibleLength);
    var suffix := From(url, |prefix| + VisibleLength);
    var l := Label(prefix, text.value, suffix, |url| - |prefix| > VisibleLength);
    assert url == prefix + url[|prefix|..];
    assert if suffix.Some? then url[|prefix|..] == text.value + suffix.value else text.value == url[|prefix|..];
    l
  }

  /** The markup: an invisible span, the visible span, another invisible span. */
  function Markup(prefix: string, cutoff: bool, text: string, suffix: string): string {
    "<span class=\"invisible\">" + prefix + "</span><span class=\""
      + (if cutoff then "ellipsis" else "") + "\">" + text
      + "</span><span class=\"invisible\">" + suffix + "</span>"
  }

  /** `Formatter#link_html`: normalise, pad with a space, split and escape. The
      invisible prefix is always empty; a padded URL longer than 30 characters
      shows its first 30 with the class `ellipsis` and hides the rest. */
  function LinkHtml(url: string, normalize: string -> string, encode: string -> string): (html: string)
    ensures var u := normalize(url) + " ";
            html == if |u| > VisibleLength
                    then Markup(encode(""), true, encode(u[..VisibleLength]), encode(u[VisibleLength..]))
                    else Markup(encode(""), false, encode(u), encode(""))
  {
    var padded := normalize(url) + " ";
    var l := Split(padded);
    SplitPadded(normalize(url));
    Markup(encode(l.prefix), l.cutoff, encode(l.text), encode(OrEmpty(l.suffix)))
  }

  /** The label of a padded URL in closed form. */
  lemma SplitPadded(u: string)
    ensures var s := u + " ";
            Split(s) == if |s| > VisibleLength then Label("", s[..VisibleLength], Some(s[VisibleLength..]), true)
                        else Label("", s, if |s| < VisibleLength then None else Some(""), false)
  {
    PaddedNeverMatches(u);
  }

  /** A URL of exactly 30 characters is marked as cut although all of it is visible:
      only the padding space is hidden. */
  lemma ExactlyThirtyMarkedCut(u: string)
    requires |u| == VisibleLength
    ensures Split(u + " ") == Label("", u, Some(" "), true)
  {
    SplitPadded(u);
    assert (u + " ")[..VisibleLength] == u;
  }

  /** The pattern is anchored at the end and its last character cannot be a space, so
      a padded URL never matches and the prefix is always empty. */
  lemma PaddedNeverMatches(u: string)
    ensures !PrefixPattern(u + " ")
    ensures MatchPrefix(u + " ") == ""
  {
    var s := u + " ";
    assert s[|s| - 1] == ' ';
    if |s| >= 8 && s[..8] == "https://" {
      assert s[8..][|s[8..]| - 1] == ' ';
    }
    if |s| >= 7 && s[..7] == "http://" {
      assert s[7..][|s[7..]| - 1] == ' ';
    }
  }
}
