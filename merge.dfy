/**
 * The merge step of `default`: the sort entries first, then each order
 * entry whose field does not yet occur in the flattened list.
 */
module Merge {
  import opened Entries

  /** `list.flatten` of a list of pairs: field, direction, field, direction, ... */
  function Flatten(es: seq<Entry>): (r: seq<string>)
    ensures |r| == 2 * |es|
    ensures forall i :: 0 <= i < |es| ==> r[2 * i] == es[i].field && r[2 * i + 1] == es[i].dir
  {
    if es == [] then []
    else Flatten(es[..|es| - 1]) + [es[|es| - 1].field, es[|es| - 1].dir]
  }

  /** `x` is the field or the direction of some entry of `es`. */
  predicate Mentions(es: seq<Entry>, x: string) {
    exists i :: 0 <= i < |es| && (es[i].field == x || es[i].dir == x)
  }

  /** `flatten.include?(x)` asks whether some entry has `x` as its field or as its direction. */
  lemma FlattenMentions(es: seq<Entry>, x: string)
    ensures x in Flatten(es) <==> Mentions(es, x)
  {
    var r := Flatten(es);
    if x in r {
      var k :| 0 <= k < |r| && r[k] == x;
      var i := k / 2;
      assert k == 2 * i || k == 2 * i + 1;
    }
    if Mentions(es, x) {
      var i :| 0 <= i < |es| && (es[i].field == x || es[i].dir == x);
      assert r[2 * i] == es[i].field && r[2 * i + 1] == es[i].dir;
    }
  }

  /**
   * The loop of `default` as a function: `acc` is `sorts_new` so far, and each
   * remaining order entry is appended unless its field already occurs in
   * `acc.flatten`.
   */
  function MergeOrders(acc: seq<Entry>, orders: seq<Entry>): seq<Entry>
    decreases |orders|
  {
    if orders == [] then acc
    else
      var o := orders[0];
      MergeOrders(if o.field in Flatten(acc) then acc else acc + [o], orders[1..])
  }

  /** One turn of the loop when the order entry's field is already present: the entry is skipped. */
  lemma MergeSkip(acc: seq<Entry>, o: Entry, rest: seq<Entry>)
    requires Mentions(acc, o.field)
    ensures MergeOrders(acc, [o] + rest) == MergeOrders(acc, rest)
  {
    FlattenMentions(acc, o.field);
    assert ([o] + rest)[1..] == rest;
  }

  /** One turn of the loop when the order entry's field is new: the entry is appended. */
  lemma MergeKeep(acc: seq<Entry>, o: Entry, rest: seq<Entry>)
    requires !Mentions(acc, o.field)
    ensures MergeOrders(acc, [o] + rest) == MergeOrders(acc + [o], rest)
  {
    FlattenMentions(acc, o.field);
    assert ([o] + rest)[1..] == rest;
  }

  /** The starting list (`sorts.dup`) is kept unchanged as a prefix. */
  lemma {:induction false} MergePrefix(acc: seq<Entry>, orders: seq<Entry>)
    ensures var r := MergeOrders(acc, orders);
      |acc| <= |r| && r[..|acc|] == acc
    decreases |orders|
  {
    if orders != [] {
      var o := orders[0];
      var next := if o.field in Flatten(acc) then acc else acc + [o];
      MergePrefix(next, orders[1..]);
      var r := MergeOrders(next, orders[1..]);
      assert r[..|acc|] == r[..|next|][..|acc|];
    }
  }

  /** What follows the prefix is a subsequence of the orders: order entries are kept in their order or dropped. */
  lemma {:induction false} MergeTail(acc: seq<Entry>, orders: seq<Entry>)
    ensures var r := MergeOrders(acc, orders);
      |acc| <= |r| && IsSubsequence(r[|acc|..], orders)
    decreases |orders|
  {
    MergePrefix(acc, orders);
    if orders != [] {
      var o := orders[0];
      var r := MergeOrders(acc, orders);
      if o.field in Flatten(acc) {
        MergeTail(acc, orders[1..]);
        SubsequenceSkip(r[|acc|..], orders);
      } else {
        var next := acc + [o];
        MergeTail(next, orders[1..]);
        MergePrefix(next, orders[1..]);
        assert r[|acc|] == next[|acc|] == o;
        assert r[|acc|..][1..] == r[|next|..];
      }
    }
  }

  /** No appended entry's field occurs (as a field or a direction) anywhere before it. */
  lemma {:induction false} MergeFresh(acc: seq<Entry>, orders: seq<Entry>)
    ensures var r := MergeOrders(acc, orders);
      forall j :: |acc| <= j < |r| ==> !Mentions(r[..j], r[j].field)
    decreases |orders|
  {
    if orders != [] {
      var o := orders[0];
      var r := MergeOrders(acc, orders);
      if o.field in Flatten(acc) {
        assert r == MergeOrders(acc, orders[1..]);
        MergeFresh(acc, orders[1..]);
        forall j | |acc| <= j < |r| ensures !Mentions(r[..j], r[j].field) {
        }
      } else {
        var next := acc + [o];
        MergeFresh(next, orders[1..]);
        MergePrefix(next, orders[1..]);
        FlattenMentions(acc, o.field);
        forall j | |acc| <= j < |r| ensures !Mentions(r[..j], r[j].field) {
          if j == |acc| {
            assert r[..j] == r[..|next|][..|acc|] == acc;
            assert r[j] == r[..|next|][|acc|] == o;
          }
        }
      }
    }
  }

  /** The field of every order entry occurs in the result: an order entry is dropped only for a clash. */
  lemma {:induction false} MergeCovers(acc: seq<Entry>, orders: seq<Entry>)
    ensures var r := MergeOrders(acc, orders);
      forall k :: 0 <= k < |orders| ==> Mentions(r, orders[k].field)
    decreases |orders|
  {
    if orders != [] {
      var o := orders[0];
      var next := if o.field in Flatten(acc) then acc else acc + [o];
      var r := MergeOrders(acc, orders);
      assert r == MergeOrders(next, orders[1..]);
      MergeCovers(next, orders[1..]);
      MergePrefix(next, orders[1..]);
      if o.field in Flatten(acc) {
        FlattenMentions(acc, o.field);
      } else {
        assert next[|acc|] == o;
      }
      MentionsPrefix(next, r, o.field);
      MentionsEach(r, orders);
    }
  }

  lemma MentionsEach(r: seq<Entry>, orders: seq<Entry>)
    requires orders != [] && Mentions(r, orders[0].field)
    requires forall k :: 0 <= k < |orders[1..]| ==> Mentions(r, orders[1..][k].field)
    ensures forall k :: 0 <= k < |orders| ==> Mentions(r, orders[k].field)
  {
    forall k | 0 <= k < |orders| ensures Mentions(r, orders[k].field) {
      if k > 0 {
        assert orders[k] == orders[1..][k - 1];
      }
    }
  }

  /**
   * The priority rule: after the sort entries, no entry repeats the field of
   * any entry before it. So a sort entry beats an order entry for the same
   * field, and each field contributed by the orders appears once; repeats
   * inside the sorts themselves are kept.
   */
  lemma MergePriority(sorts: seq<Entry>, orders: seq<Entry>)
    ensures var r := MergeOrders(sorts, orders);
      && |sorts| <= |r| && r[..|sorts|] == sorts
      && forall i, j :: 0 <= i < j < |r| && |sorts| <= j ==> r[i].field != r[j].field
  {
    var r := MergeOrders(sorts, orders);
    MergePrefix(sorts, orders);
    MergeFresh(sorts, orders);
    forall i, j | 0 <= i < j < |r| && |sorts| <= j ensures r[i].field != r[j].field {
      assert r[..j][i] == r[i];
    }
  }

  /** What a prefix mentions, the whole list mentions. */
  lemma MentionsPrefix(a: seq<Entry>, b: seq<Entry>, x: string)
    requires |a| <= |b| && b[..|a|] == a
    ensures Mentions(a, x) ==> Mentions(b, x)
  {
    if Mentions(a, x) {
      var i :| 0 <= i < |a| && (a[i].field == x || a[i].dir == x);
      assert b[i] == a[i];
    }
  }

  /**
   * Where each merged entry comes from: it is a sort entry, or an order
   * entry whose field no sort entry mentions (as a field or a direction).
   */
  lemma MergeMembers(sorts: seq<Entry>, orders: seq<Entry>)
    ensures forall e :: e in MergeOrders(sorts, orders) ==>
      e in sorts || (e in orders && !Mentions(sorts, e.field))
  {
    var r := MergeOrders(sorts, orders);
    MergePrefix(sorts, orders);
    MergeTail(sorts, orders);
    MergeFresh(sorts, orders);
    SubsequenceMembers(r[|sorts|..], orders);
    forall e | e in r ensures e in sorts || (e in orders && !Mentions(sorts, e.field)) {
      var j :| 0 <= j < |r| && r[j] == e;
      if j < |sorts| {
        assert r[..|sorts|][j] == e;
      } else {
        assert r[|sorts|..][j - |sorts|] == e;
        assert r[..j][..|sorts|] == sorts;
        MentionsPrefix(sorts, r[..j], e.field);
      }
    }
  }
}
