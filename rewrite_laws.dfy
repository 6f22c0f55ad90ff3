/**
 * What `Formatter#rewrite` promises, stated about `EntityRewrite.RewriteAll`, which
 * the method `EntityRewrite.Rewrite` is proved to compute.
 */
module EntityRewriteLaws {
  import opened Wrappers
  import opened Strings
  import opened EntityRewrite

  /** Adjacent slices put together give the slice that covers both, also when the
      second one runs past the end of the text and is cut there. */
  lemma SliceConcat(chars: string, a: nat, b: nat, c: nat)
    requires a <= b <= c && b <= |chars|
    ensures Slice(chars, a, b).Some? && Slice(chars, b, c).Some? && Slice(chars, a, c).Some?
    ensures Slice(chars, a, b).value + Slice(chars, b, c).value == Slice(chars, a, c).value
  {
    var hi := if c <= |chars| then c else |chars|;
    assert Slice(chars, a, c).value == chars[a..hi];
    assert Slice(chars, b, c).value == chars[b..hi];
    assert chars[a..b] + chars[b..hi] == chars[a..hi];
  }

  /** Without entities the text comes back as it is. */
  lemma NoEntitiesUnchanged(text: string, replace: Entity -> string)
    ensures RewriteAll(text, [], replace) == Some(text)
  {
    assert text[0..] == text;
  }

  /** The rewrite fails exactly when some entity ends past the end of the text: every
      end offset is where a later slice starts. */
  lemma FailsIffStopPastEnd(text: string, es: seq<Entity>, replace: Entity -> string)
    ensures RewriteAll(text, es, replace).None? <==> exists e :: e in es && e.stop > |text|
  {
    var sorted := SortByStart(es);
    RewriteFromFails(text, sorted, 0, replace);
    if exists e :: e in es && e.stop > |text| {
      var e :| e in es && e.stop > |text|;
      assert e in multiset(es);
      assert e in multiset(sorted);
      var k :| 0 <= k < |sorted| && sorted[k] == e;
    }
    if exists k :: 0 <= k < |sorted| && sorted[k].stop > |text| {
      var k :| 0 <= k < |sorted| && sorted[k].stop > |text|;
      assert sorted[k] in multiset(sorted);
      assert sorted[k] in multiset(es);
    }
  }

  lemma {:induction false} RewriteFromFails(chars: string, es: seq<Entity>, index: nat, replace: Entity -> string)
    ensures RewriteFrom(chars, es, index, replace).None?
        <==> index > |chars| || exists k :: 0 <= k < |es| && es[k].stop > |chars|
    decreases |es|
  {
    if es != [] && index <= |chars| {
      RewriteFromFails(chars, es[1..], es[0].stop, replace);
      if exists k :: 0 <= k < |es| && es[k].stop > |chars| {
        var k :| 0 <= k < |es| && es[k].stop > |chars|;
        if k > 0 {
          assert es[1..][k - 1] == es[k];
        }
      }
      if exists k :: 0 <= k < |es[1..]| && es[1..][k].stop > |chars| {
        var k :| 0 <= k < |es[1..]| && es[1..][k].stop > |chars|;
        assert es[k + 1] == es[1..][k];
      }
    }
  }

  /** The last entity can be peeled off: the rewrite of the text before it, then its
      replacement, then the rest of the text. */
  lemma {:induction false} RewriteFromSnoc(text: string, es: seq<Entity>, e: Entity, index: nat, replace: Entity -> string)
    requires e.start <= e.stop <= |text| && Disjoint(|text|, es + [e])
    requires index <= (if es == [] then e.start else es[0].start)
    ensures RewriteFrom(text[..e.start], es, index, replace).Some?
    ensures RewriteFrom(text, es + [e], index, replace)
         == Some(RewriteFrom(text[..e.start], es, index, replace).value + replace(e) + text[e.stop..])
    decreases |es|
  {
    if es == [] {
      SnocLast(text, e, index, replace);
    } else {
      var h, t := es[0], es[1..];
      SnocSplit(text, es, e);
      RewriteFromSnoc(text, t, e, h.stop, replace);
      SnocFirst(text, es, e, index, replace);
    }
  }

  /** `RewriteFromSnoc` for a single entity. */
  lemma SnocLast(text: string, e: Entity, index: nat, replace: Entity -> string)
    requires index <= e.start <= e.stop <= |text|
    ensures RewriteFrom(text[..e.start], [], index, replace) == Some(text[index..e.start])
    ensures RewriteFrom(text, [e], index, replace) == Some(text[index..e.start] + replace(e) + text[e.stop..])
  {
    assert [e][1..] == [];
    assert text[..e.start][index..e.start] == text[index..e.start];
    assert text[e.stop..|text|] == text[e.stop..];
  }

  /** The facts about `es + [e]` that the induction step of `RewriteFromSnoc` uses. */
  lemma SnocSplit(text: string, es: seq<Entity>, e: Entity)
    requires es != [] && Disjoint(|text|, es + [e])
    ensures (es + [e])[0] == es[0] && (es + [e])[1..] == es[1..] + [e]
    ensures Disjoint(|text|, es[1..] + [e])
    ensures es[0].stop <= (if es[1..] == [] then e.start else es[1..][0].start)
    ensures es[0].start <= es[0].stop <= e.start
  {
    var all := es + [e];
    assert all[1..] == es[1..] + [e];
    assert all[1] == if es[1..] == [] then e else es[1..][0];
    assert forall k :: 0 <= k < |es[1..] + [e]| ==> (es[1..] + [e])[k] == all[k + 1];
    StopsBeforeLast(|text|, all, 0);
  }

  /** The induction step of `RewriteFromSnoc`: the first entity and the slice before
      it are the same in the whole text and in the text before `e`. */
  lemma SnocFirst(text: string, es: seq<Entity>, e: Entity, index: nat, replace: Entity -> string)
    requires es != [] && index <= es[0].start <= es[0].stop <= e.start <= e.stop <= |text|
    requires (es + [e])[1..] == es[1..] + [e]
    requires RewriteFrom(text[..e.start], es[1..], es[0].stop, replace).Some?
    requires RewriteFrom(text, es[1..] + [e], es[0].stop, replace)
          == Some(RewriteFrom(text[..e.start], es[1..], es[0].stop, replace).value + replace(e) + text[e.stop..])
    ensures RewriteFrom(text[..e.start], es, index, replace).Some?
    ensures RewriteFrom(text, es + [e], index, replace)
         == Some(RewriteFrom(text[..e.start], es, index, replace).value + replace(e) + text[e.stop..])
  {
    var h := es[0];
    var p := text[..e.start];
    PrefixSlice(text, e.start, index, h.start);
    var r := RewriteFrom(p, es[1..], h.stop, replace).value;
    SnocGlue(text[index..h.start], replace(h), r, replace(e), text[e.stop..]);
  }

  /** A slice of a prefix is the same slice of the whole text. */
  lemma PrefixSlice(text: string, n: nat, i: nat, j: nat)
    requires i <= j <= n <= |text|
    ensures text[..n][i..j] == text[i..j]
  {
  }

  lemma SnocGlue(before: string, x: string, r: string, y: string, rest: string)
    ensures before + x + (r + y + rest) == before + x + r + y + rest
  {
  }

  /** Replacing ranges inside `p` does not touch what follows `p`. */
  lemma {:induction false} ApplyPrefixLocal(p: string, q: string, es: seq<Entity>, replace: Entity -> string)
    requires Disjoint(|p|, es)
    ensures Disjoint(|p + q|, es)
    ensures ApplyRightToLeft(p + q, es, replace) == ApplyRightToLeft(p, es, replace) + q
    decreases |es|
  {
    if es != [] {
      var e := es[|es| - 1];
      var init := es[..|es| - 1];
      assert (p + q)[..e.start] == p[..e.start];
      assert (p + q)[e.stop..] == p[e.stop..] + q;
      var sp := Splice(p, e, replace);
      assert Splice(p + q, e, replace) == sp + q;
      assert Disjoint(|sp|, init) by {
        forall k | 0 <= k < |init| { StopsBeforeLast(|p|, es, k); }
      }
      ApplyPrefixLocal(sp, q, init, replace);
    }
  }

  /** On entities in order that do not overlap, the splice agrees with the reference
      that replaces one range at a time. */
  lemma {:induction false} MatchesReference(text: string, es: seq<Entity>, replace: Entity -> string)
    requires Disjoint(|text|, es)
    ensures RewriteFrom(text, es, 0, replace) == Some(ApplyRightToLeft(text, es, replace))
    decreases |es|
  {
    if es == [] {
      assert text[0..] == text;
    } else {
      var e := es[|es| - 1];
      var init := es[..|es| - 1];
      var p := text[..e.start];
      LastSplit(text, es);
      RewriteFromSnoc(text, init, e, 0, replace);
      MatchesReference(p, init, replace);
      ApplyPrefixLocal(p, replace(e) + text[e.stop..], init, replace);
      ReferenceGlue(text, es, replace);
      Assoc(ApplyRightToLeft(p, init, replace), replace(e), text[e.stop..]);
    }
  }

  /** The facts about the last entity that the induction step of `MatchesReference`
      uses. */
  lemma LastSplit(text: string, es: seq<Entity>)
    requires es != [] && Disjoint(|text|, es)
    ensures es[..|es| - 1] + [es[|es| - 1]] == es
    ensures es[|es| - 1].start <= es[|es| - 1].stop <= |text|
    ensures Disjoint(es[|es| - 1].start, es[..|es| - 1])
  {
    assert es[..|es| - 1] + [es[|es| - 1]] == es;
    forall k | 0 <= k < |es| - 1 { StopsBeforeLast(|text|, es, k); }
  }

  /** One unfolding of `ApplyRightToLeft`, with the splice spelled out. */
  lemma ReferenceGlue(text: string, es: seq<Entity>, replace: Entity -> string)
    requires es != [] && Disjoint(|text|, es)
    requires Disjoint(es[|es| - 1].start, es[..|es| - 1])
    ensures var e := es[|es| - 1];
            Disjoint(|text[..e.start] + (replace(e) + text[e.stop..])|, es[..|es| - 1])
            && ApplyRightToLeft(text, es, replace)
               == ApplyRightToLeft(text[..e.start] + (replace(e) + text[e.stop..]), es[..|es| - 1], replace)
  {
    var e := es[|es| - 1];
    assert Splice(text, e, replace) == text[..e.start] + (replace(e) + text[e.stop..]);
  }

  /** A block that hands back each entity's own text (as the Markdown branch of the
      caller does) leaves the text unchanged. */
  lemma {:induction false} IdentityReplace(text: string, es: seq<Entity>, replace: Entity -> string)
    requires Disjoint(|text|, es)
    requires forall k :: 0 <= k < |es| ==> replace(es[k]) == text[es[k].start..es[k].stop]
    ensures ApplyRightToLeft(text, es, replace) == text
    decreases |es|
  {
    if es != [] {
      var e := es[|es| - 1];
      var init := es[..|es| - 1];
      assert Splice(text, e, replace) == text;
      IdentityReplace(text, init, replace);
    }
  }

  /** The same for the splice of entities already in start order. */
  lemma SortedPassThrough(text: string, es: seq<Entity>, replace: Entity -> string)
    requires Disjoint(|text|, es)
    requires forall k :: 0 <= k < |es| ==> replace(es[k]) == text[es[k].start..es[k].stop]
    ensures RewriteFrom(text, es, 0, replace) == Some(text)
  {
    MatchesReference(text, es, replace);
    IdentityReplace(text, es, replace);
  }

  /** The whole rewrite with a block that hands back each entity's own text: given
      in any order, entities that do not overlap once sorted leave the text as it was. */
  lemma PassThrough(text: string, es: seq<Entity>, replace: Entity -> string)
    requires Disjoint(|text|, SortByStart(es))
    requires forall e :: e in es ==> e.start <= e.stop <= |text| && replace(e) == text[e.start..e.stop]
    ensures RewriteAll(text, es, replace) == Some(text)
  {
    var sorted := SortByStart(es);
    forall k | 0 <= k < |sorted|
      ensures replace(sorted[k]) == text[sorted[k].start..sorted[k].stop]
    {
      assert sorted[k] in multiset(es);
    }
    SortedPassThrough(text, sorted, replace);
  }

  /** Entities given in start order without overlap: the whole rewrite, sorting
      included, is the range-by-range replacement. Empty entities are allowed here. */
  lemma InOrderMatchesReference(text: string, es: seq<Entity>, replace: Entity -> string)
    requires Disjoint(|text|, es)
    ensures RewriteAll(text, es, replace) == Some(ApplyRightToLeft(text, es, replace))
  {
    DisjointSorted(|text|, es);
    SortedFixed(es);
    MatchesReference(text, es, replace);
  }

  /** Entities that do not overlap are in start order. */
  lemma DisjointSorted(n: nat, es: seq<Entity>)
    requires Disjoint(n, es)
    ensures SortedByStart(es)
  {
    forall i, j | 0 <= i < j < |es| ensures es[i].start <= es[j].start {
      if j == |es| - 1 {
        StopsBeforeLast(n, es, i);
      } else {
        StopsBeforeLast(n, es[..j + 1], i);
      }
    }
  }

  /** Sorting leaves a sequence that is already in start order as it is. */
  lemma {:induction false} SortedFixed(es: seq<Entity>)
    requires SortedByStart(es)
    ensures SortByStart(es) == es
    decreases |es|
  {
    if es != [] {
      assert SortedByStart(es[1..]);
      SortedFixed(es[1..]);
      assert es == [es[0]] + es[1..];
    }
  }

  /** Sorting is what makes the given order irrelevant: entities that are not empty
      and do not overlap once sorted are spliced in start order whatever order they
      came in, and each range is replaced by its block value. */
  lemma OrderIrrelevant(text: string, es1: seq<Entity>, es2: seq<Entity>, replace: Entity -> string)
    requires multiset(es1) == multiset(es2)
    requires forall k :: 0 <= k < |es1| ==> es1[k].start < es1[k].stop
    requires Disjoint(|text|, SortByStart(es1))
    ensures RewriteAll(text, es1, replace) == RewriteAll(text, es2, replace)
    ensures RewriteAll(text, es1, replace) == Some(ApplyRightToLeft(text, SortByStart(es1), replace))
  {
    var a, b := SortByStart(es1), SortByStart(es2);
    forall k | 0 <= k < |a|
      ensures a[k].start < a[k].stop
    {
      assert a[k] in multiset(a);
      assert a[k] in multiset(es1);
      var j :| 0 <= j < |es1| && es1[j] == a[k];
    }
    SortedUnique(a, b);
    MatchesReference(text, a, replace);
  }

  /** A strictly ordered sequence is the only ordering of its elements. */
  lemma {:induction false} SortedUnique(a: seq<Entity>, b: seq<Entity>)
    requires SortedByStart(a) && SortedByStart(b) && multiset(a) == multiset(b)
    requires forall k :: 0 <= k < |a| - 1 ==> a[k].start < a[k + 1].start
    ensures a == b
    decreases |a|
  {
    if a != [] {
      SameFirst(a, b);
      SameTail(a, b);
      SortedUnique(a[1..], b[1..]);
    }
  }

  /** With the same first entity, the rests are orderings of the same entities. */
  lemma SameTail(a: seq<Entity>, b: seq<Entity>)
    requires a != [] && b != [] && a[0] == b[0] && multiset(a) == multiset(b)
    requires SortedByStart(a) && SortedByStart(b)
    requires forall k :: 0 <= k < |a| - 1 ==> a[k].start < a[k + 1].start
    ensures SortedByStart(a[1..]) && SortedByStart(b[1..]) && multiset(a[1..]) == multiset(b[1..])
    ensures forall k :: 0 <= k < |a[1..]| - 1 ==> a[1..][k].start < a[1..][k + 1].start
  {
    MultisetTail(a);
    MultisetTail(b);
  }

  lemma MultisetTail(a: seq<Entity>)
    requires a != []
    ensures multiset(a[1..]) == multiset(a) - multiset{a[0]}
  {
    assert a == [a[0]] + a[1..];
  }

  /** Both orderings begin with the entity that starts first. */
  lemma SameFirst(a: seq<Entity>, b: seq<Entity>)
    requires a != [] && SortedByStart(a) && SortedByStart(b) && multiset(a) == multiset(b)
    requires forall k :: 0 <= k < |a| - 1 ==> a[k].start < a[k + 1].start
    ensures b != [] && a[0] == b[0]
  {
    assert a[0] in multiset(b);
    var j :| 0 <= j < |b| && b[j] == a[0];
    assert b[0] in multiset(a);
    var i :| 0 <= i < |a| && a[i] == b[0];
    if i != 0 {
      StrictlyAfterFirst(a, i);
      assert false;
    }
  }

  lemma {:induction false} StrictlyAfterFirst(a: seq<Entity>, i: nat)
    requires 0 < i < |a|
    requires forall k :: 0 <= k < |a| - 1 ==> a[k].start < a[k + 1].start
    ensures a[0].start < a[i].start
    decreases i
  {
    if i > 1 {
      StrictlyAfterFirst(a, i - 1);
    }
  }
}
