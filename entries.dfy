/**
 * The ordering instruction the parser produces: a field and a direction
 * (a two-element array `[field, dir]` in the source), and the sequence
 * operations the parser applies to lists of them.
 */
module Entries {
  import opened Wrappers
  import opened Text

  datatype Entry = Entry(field: string, dir: string)

  /** The two directions the whitelist filter lets through. */
  predicate IsDirection(d: string) {
    d == "asc" || d == "desc"
  }

  /** An entry as the sort grammar writes it: a field name and "asc" or "desc". */
  predicate WellFormed(e: Entry) {
    IsFieldName(e.field) && IsDirection(e.dir)
  }

  predicate AllWellFormed(es: seq<Entry>) {
    forall i :: 0 <= i < |es| ==> WellFormed(es[i])
  }

  /** `[field, dir].join('_')`: how one entry is written in a sort string. */
  function SortToken(e: Entry): string {
    e.field + "_" + e.dir
  }

  /** `xs.map(&f).compact`: the results `f` defines, in the order of `xs`. */
  function Compact<T>(xs: seq<T>, f: T -> Option<Entry>): (r: seq<Entry>)
    ensures |r| <= |xs|
    ensures forall i :: 0 <= i < |r| ==> exists k :: 0 <= k < |xs| && f(xs[k]) == Some(r[i])
  {
    if xs == [] then []
    else
      var head := match f(xs[0]) case Some(e) => [e] case None => [];
      var tail := Compact(xs[1..], f);
      assert forall i :: 0 <= i < |tail| ==> exists k :: 0 <= k < |xs| && f(xs[k]) == Some(tail[i]) by {
        forall i | 0 <= i < |tail| ensures exists k :: 0 <= k < |xs| && f(xs[k]) == Some(tail[i]) {
          var k :| 0 <= k < |xs[1..]| && f(xs[1..][k]) == Some(tail[i]);
          assert f(xs[k + 1]) == Some(tail[i]);
        }
      }
      head + tail
  }

  /** Compacting is done piece by piece: it distributes over concatenation. */
  lemma {:induction false} CompactAppend<T>(xs: seq<T>, ys: seq<T>, f: T -> Option<Entry>)
    ensures Compact(xs + ys, f) == Compact(xs, f) + Compact(ys, f)
  {
    if xs != [] {
      assert (xs + ys)[1..] == xs[1..] + ys;
      assert (xs + ys)[0] == xs[0];
      CompactAppend(xs[1..], ys, f);
      var head := match f(xs[0]) case Some(e) => [e] case None => [];
      assert Compact(xs + ys, f) == head + Compact(xs[1..] + ys, f);
      assert Compact(xs, f) == head + Compact(xs[1..], f);
    } else {
      assert xs + ys == ys;
    }
  }

  /** Two first elements that `f` maps alike give the same compacted list. */
  lemma CompactSameHead<T>(a: T, b: T, rest: seq<T>, f: T -> Option<Entry>)
    requires f(a) == f(b)
    ensures Compact([a] + rest, f) == Compact([b] + rest, f)
  {
    assert ([a] + rest)[1..] == rest;
    assert ([b] + rest)[1..] == rest;
  }

  /** When `f` defines every result, compacting returns exactly those results. */
  lemma {:induction false} CompactAllDefined<T>(xs: seq<T>, f: T -> Option<Entry>, es: seq<Entry>)
    requires |xs| == |es|
    requires forall k :: 0 <= k < |xs| ==> f(xs[k]) == Some(es[k])
    ensures Compact(xs, f) == es
  {
    if xs != [] {
      CompactAllDefined(xs[1..], f, es[1..]);
      assert es == [es[0]] + es[1..];
    }
  }

  /** Pieces that `f` rejects contribute nothing. */
  lemma {:induction false} CompactNoneDefined<T>(xs: seq<T>, f: T -> Option<Entry>)
    requires forall k :: 0 <= k < |xs| ==> f(xs[k]).None?
    ensures Compact(xs, f) == []
  {
    if xs != [] {
      CompactNoneDefined(xs[1..], f);
    }
  }

  /** Dropping a tail of rejected pieces (as Ruby's split drops trailing empty pieces) changes nothing. */
  lemma CompactPrefix<T>(xs: seq<T>, m: nat, f: T -> Option<Entry>)
    requires m <= |xs|
    requires forall k :: m <= k < |xs| ==> f(xs[k]).None?
    ensures Compact(xs, f) == Compact(xs[..m], f)
  {
    assert xs == xs[..m] + xs[m..];
    CompactAppend(xs[..m], xs[m..], f);
    CompactNoneDefined(xs[m..], f);
  }

  /** `ys` keeps some of the elements of `xs`, in their order. */
  predicate IsSubsequence<T(==)>(ys: seq<T>, xs: seq<T>)
    decreases |xs|
  {
    if ys == [] then true
    else if xs == [] then false
    else if ys[0] == xs[0] then IsSubsequence(ys[1..], xs[1..])
    else IsSubsequence(ys, xs[1..])
  }

  /** Dropping the first kept element still leaves a subsequence. */
  lemma {:induction false} SubsequenceDropHead<T>(ys: seq<T>, xs: seq<T>)
    requires ys != [] && IsSubsequence(ys, xs)
    ensures IsSubsequence(ys[1..], xs)
    decreases |xs|
  {
    if ys[0] == xs[0] {
      SubsequenceSkip(ys[1..], xs);
    } else {
      SubsequenceDropHead(ys, xs[1..]);
      SubsequenceSkip(ys[1..], xs);
    }
  }

  /** A subsequence of the tail is a subsequence of the whole. */
  lemma {:induction false} SubsequenceSkip<T>(ys: seq<T>, xs: seq<T>)
    requires xs != [] && IsSubsequence(ys, xs[1..])
    ensures IsSubsequence(ys, xs)
    decreases |xs|, 0
  {
    if ys != [] && ys[0] == xs[0] {
      SubsequenceDropHead(ys, xs[1..]);
    }
  }

  /** Every element of a subsequence is an element of the whole. */
  lemma {:induction false} SubsequenceMembers<T>(ys: seq<T>, xs: seq<T>)
    requires IsSubsequence(ys, xs)
    ensures forall y :: y in ys ==> y in xs
    decreases |xs|
  {
    if ys != [] {
      if ys[0] == xs[0] {
        SubsequenceMembers(ys[1..], xs[1..]);
        assert ys == [ys[0]] + ys[1..];
      } else {
        SubsequenceMembers(ys, xs[1..]);
      }
      assert xs == [xs[0]] + xs[1..];
    }
  }
}
