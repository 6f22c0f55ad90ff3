/**
 * The entity splicer `Formatter#rewrite` (app/lib/formatter.rb). The entities found
 * in a text (links, hashtags, mentions, Markdown spans) are sorted by their start
 * offset; the text between them is copied as it is (it is not escaped here) and
 * each entity is replaced by what the caller's block returns for it.
 *
 * `RewriteFrom` is the specification, read left to right as the Ruby `reduce`
 * threads `last_index`; the method `Rewrite` keeps the loop that pushes the pieces
 * onto `result` and is proved to compute it. `ApplyRightToLeft` is an independent
 * reference (replace the ranges one by one, starting with the last) that the
 * specification is proved to agree with on entities that do not overlap.
 */
module EntityRewrite {
  import opened Wrappers
  import opened Strings

  /** What kind of entity the text extractor found; only the caller's block looks
      at it. */
  datatype Kind = Url(url: string) | Hashtag(name: string) | Mention(screenName: string) | Markdown

  /** An entity covering the characters `[start, stop)` of the text. */
  datatype Entity = Entity(start: nat, stop: nat, kind: Kind)

  /** `chars[from...to]` followed by `.join`: `nil` (so the `join` raises) when `from`
      is past the end, otherwise the characters from `from` up to `to`, cut at the
      end of the text and empty when `to <= from`. */
  function Slice(chars: string, from: nat, to: nat): (r: Option<string>)
    ensures r.None? <==> from > |chars|
    ensures r.Some? ==> |r.value| <= |chars| - from
    ensures r.Some? && from <= to <= |chars| ==> r.value == chars[from..to]
    ensures r.Some? && from <= |chars| < to ==> r.value == chars[from..]
    ensures r.Some? && to <= from ==> r.value == ""
  {
    if from > |chars| then None
    else if to <= from then Some("")
    else if to >= |chars| then Some(chars[from..])
    else Some(chars[from..to])
  }

  /** Ordered by start offset. */
  predicate SortedByStart(es: seq<Entity>) {
    forall i, j :: 0 <= i < j < |es| ==> es[i].start <= es[j].start
  }

  /** `e` put before the first entity that does not start before it. */
  function Insert(e: Entity, es: seq<Entity>): (r: seq<Entity>)
    requires SortedByStart(es)
    ensures SortedByStart(r)
    ensures multiset(r) == multiset(es) + multiset{e}
    ensures |r| == |es| + 1
    ensures r != [] && (r[0] == e || (es != [] && r[0] == es[0]))
  {
    if es == [] || e.start <= es[0].start then
      ConsSorted(e, es);
      [e] + es
    else
      var rest := Insert(e, es[1..]);
      assert es == [es[0]] + es[1..];
      ConsSorted(es[0], rest);
      [es[0]] + rest
  }

  /** An entity that starts no later than the first of a sorted sequence can go in
      front of it. */
  lemma ConsSorted(x: Entity, es: seq<Entity>)
    requires SortedByStart(es) && (es != [] ==> x.start <= es[0].start)
    ensures SortedByStart([x] + es)
  {
    var r := [x] + es;
    forall i, j | 0 <= i < j < |r| ensures r[i].start <= r[j].start {
      if i > 0 {
        assert r[i] == es[i - 1] && r[j] == es[j - 1];
      } else {
        assert r[j] == es[j - 1];
      }
    }
  }

  /** `entities.sort_by { |entity| entity.indices.first }`, as an insertion sort. */
  function SortByStart(es: seq<Entity>): (r: seq<Entity>)
    ensures SortedByStart(r)
    ensures multiset(r) == multiset(es)
    ensures |r| == |es|
  {
    if es == [] then []
    else
      assert es == [es[0]] + es[1..];
      Insert(es[0], SortByStart(es[1..]))
  }

  /** The pieces from offset `index` on: the text up to the first entity, its
      replacement, and so on, then the rest of the text; `None` when a slice starts
      past the end of the text. */
  function RewriteFrom(chars: string, es: seq<Entity>, index: nat, replace: Entity -> string): Option<string>
    decreases |es|
  {
    var before := Slice(chars, index, if es == [] then |chars| else es[0].start);
    if before.None? then None
    else if es == [] then before
    else
      var rest := RewriteFrom(chars, es[1..], es[0].stop, replace);
      if rest.None? then None else Some(before.value + replace(es[0]) + rest.value)
  }

  /** The whole rewrite: sort, then splice from offset zero. */
  function RewriteAll(text: string, es: seq<Entity>, replace: Entity -> string): Option<string> {
    RewriteFrom(text, SortByStart(es), 0, replace)
  }

  /** `p` put in front of an outcome that is not an error. */
  function Prefixed(p: string, r: Option<string>): Option<string> {
    if r.None? then None else Some(p + r.value)
  }

  /** `Formatter#rewrite`: `None` stands for the `NoMethodError` raised when a slice
      starts past the end of the text. */
  method Rewrite(text: string, entities: seq<Entity>, replace: Entity -> string) returns (r: Option<string>)
    ensures r == RewriteAll(text, entities, replace)
  {
    var sorted := SortByStart(entities);
    var result: seq<string> := [];
    var lastIndex: nat := 0;
    PrefixedEmpty(RewriteFrom(text, sorted, 0, replace));
    for k := 0 to |sorted|
      invariant RewriteAll(text, entities, replace)
             == Prefixed(Join(result), RewriteFrom(text, sorted[k..], lastIndex, replace))
    {
      var e := sorted[k];
      var before := Slice(text, lastIndex, e.start);
      if before.None? {
        return None;
      }
      ghost var done := result;
      RewriteStep(text, sorted, k, lastIndex, replace, Join(done));
      result := result + [before.value];
      result := result + [replace(e)];
      lastIndex := e.stop;
      JoinTwo(done, before.value, replace(e));
    }
    var tail := Slice(text, lastIndex, |text|);
    if tail.None? {
      return None;
    }
    result := result + [tail.value];
    r := Some(Join(result));
  }

  lemma PrefixedEmpty(r: Option<string>)
    ensures Prefixed(Join([]), r) == r
  {
    if r.Some? {
      assert "" + r.value == r.value;
    }
  }

  /** One turn of the loop: the slice before the next entity and its replacement
      move from the rest of the rewrite to the pieces already pushed. */
  lemma RewriteStep(text: string, sorted: seq<Entity>, k: nat, index: nat, replace: Entity -> string, done: string)
    requires k < |sorted| && Slice(text, index, sorted[k].start).Some?
    ensures Prefixed(done, RewriteFrom(text, sorted[k..], index, replace))
         == Prefixed(done + Slice(text, index, sorted[k].start).value + replace(sorted[k]),
                     RewriteFrom(text, sorted[k + 1..], sorted[k].stop, replace))
  {
    assert sorted[k..][1..] == sorted[k + 1..];
    var before := Slice(text, index, sorted[k].start).value;
    var rest := RewriteFrom(text, sorted[k + 1..], sorted[k].stop, replace);
    if rest.Some? {
      assert done + (before + replace(sorted[k]) + rest.value) == done + before + replace(sorted[k]) + rest.value;
    }
  }

  lemma JoinTwo(parts: seq<string>, a: string, b: string)
    ensures Join(parts + [a] + [b]) == Join(parts) + a + b
  {
    assert (parts + [a] + [b])[..|parts| + 1] == parts + [a];
    assert (parts + [a])[..|parts|] == parts;
  }

  /** Well-formed entities for a text of length `n`: each range is ordered, each
      starts where or after the previous one stops, and the last one ends inside
      the text. */
  predicate Disjoint(n: nat, es: seq<Entity>) {
    && (forall k :: 0 <= k < |es| ==> es[k].start <= es[k].stop <= n)
    && (forall k :: 0 <= k < |es| - 1 ==> es[k].stop <= es[k + 1].start)
  }

  /** The range of `e` replaced. */
  function Splice(text: string, e: Entity, replace: Entity -> string): (r: string)
    requires e.start <= e.stop <= |text|
    ensures |r| == |text| - (e.stop - e.start) + |replace(e)|
    ensures r[..e.start] == text[..e.start]
    ensures r[e.start..][..|replace(e)|] == replace(e)
    ensures r[e.start + |replace(e)|..] == text[e.stop..]
  {
    text[..e.start] + replace(e) + text[e.stop..]
  }

  /** Reference definition: the ranges replaced one by one, the last first, so that
      the offsets of the earlier ones still hold. */
  function ApplyRightToLeft(text: string, es: seq<Entity>, replace: Entity -> string): string
    requires Disjoint(|text|, es)
    decreases |es|
  {
    if es == [] then text
    else
      var e := es[|es| - 1];
      var init := es[..|es| - 1];
      var spliced := Splice(text, e, replace);
      assert Disjoint(|spliced|, init) by {
        assert forall k :: 0 <= k < |init| ==> init[k].stop <= e.start by {
          forall k | 0 <= k < |init| { StopsBeforeLast(|text|, es, k); }
        }
      }
      ApplyRightToLeft(spliced, init, replace)
  }

  lemma {:induction false} StopsBeforeLast(n: nat, es: seq<Entity>, k: nat)
    requires Disjoint(n, es) && k < |es| - 1
    ensures es[k].stop <= es[|es| - 1].start
    decreases |es| - k
  {
    if k < |es| - 2 {
      StopsBeforeLast(n, es, k + 1);
    }
  }
}
