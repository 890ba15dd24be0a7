/**
 * Building the whitelist (`initialize_whitelist`) from strings and table
 * descriptions, and filtering entries through it (`apply_whitelist`).
 */
module Whitelist {
  import opened Wrappers
  import opened Entries

  /**
   * What `initialize_whitelist` can be handed, told apart the way the source
   * does by duck typing: `nil`, a String, an object answering `table_name`
   * and `column_names`, something answering `to_ary` (a list), or anything
   * else.
   */
  datatype Source =
    | Nil
    | Str(s: string)
    | Table(name: string, columns: seq<string>)
    | List(items: seq<Source>)
    | Other

  /** `list.flatten`: nested lists are spliced in place, everything else kept in order. */
  function FlattenSources(items: seq<Source>): (flat: seq<Source>)
    ensures forall k :: 0 <= k < |flat| ==> !flat[k].List?
    decreases items
  {
    if items == [] then []
    else
      assert items[0] in items;
      (if items[0].List? then FlattenSources(items[0].items) else [items[0]])
        + FlattenSources(items[1..])
  }

  /** What one flattened item contributes: a string itself, `"table.column"` per column, or nothing. */
  function Emitted(item: Source): seq<string> {
    match item
    case Str(s) => [s]
    case Table(name, columns) => seq(|columns|, i requires 0 <= i < |columns| => name + "." + columns[i])
    case _ => []
  }

  /** `map { ... }.compact.flatten(1)` over the flattened items. */
  function EmitAll(flat: seq<Source>): seq<string> {
    if flat == [] then [] else Emitted(flat[0]) + EmitAll(flat[1..])
  }

  /**
   * `initialize_whitelist`: `nil` means no restriction; anything else is
   * wrapped in a list unless it is one, flattened, and turned into the list
   * of permitted fields.
   */
  function InitializeWhitelist(arg: Source): (r: Option<seq<string>>)
    ensures r.None? <==> arg.Nil?
  {
    if arg.Nil? then None
    else Some(EmitAll(FlattenSources(if arg.List? then arg.items else [arg])))
  }

  lemma {:induction false} FlattenAppend(xs: seq<Source>, ys: seq<Source>)
    ensures FlattenSources(xs + ys) == FlattenSources(xs) + FlattenSources(ys)
  {
    if xs == [] {
      assert xs + ys == ys;
    } else {
      assert (xs + ys)[0] == xs[0];
      assert (xs + ys)[1..] == xs[1..] + ys;
      FlattenAppend(xs[1..], ys);
    }
  }

  lemma {:induction false} EmitAllAppend(xs: seq<Source>, ys: seq<Source>)
    ensures EmitAll(xs + ys) == EmitAll(xs) + EmitAll(ys)
  {
    if xs == [] {
      assert xs + ys == ys;
    } else {
      assert (xs + ys)[0] == xs[0];
      assert (xs + ys)[1..] == xs[1..] + ys;
      EmitAllAppend(xs[1..], ys);
    }
  }

  /** The whitelist of a list is the whitelists of its parts, in order. */
  lemma WhitelistConcat(xs: seq<Source>, ys: seq<Source>)
    ensures InitializeWhitelist(List(xs + ys)).value
         == InitializeWhitelist(List(xs)).value + InitializeWhitelist(List(ys)).value
  {
    FlattenAppend(xs, ys);
    EmitAllAppend(FlattenSources(xs), FlattenSources(ys));
  }

  /**
   * What one item of the list contributes: a string verbatim, a table its
   * `"table.column"` names in column order, a nested list its own whitelist
   * (flattening), and anything else (including `nil`) nothing.
   */
  lemma WhitelistItem(item: Source)
    ensures InitializeWhitelist(List([item])).value ==
      match item
      case Str(s) => [s]
      case Table(name, columns) => seq(|columns|, i requires 0 <= i < |columns| => name + "." + columns[i])
      case List(items) => InitializeWhitelist(List(items)).value
      case Nil => []
      case Other => []
  {
    assert [item][1..] == [];
    if item.List? {
      assert FlattenSources([item]) == FlattenSources(item.items) + FlattenSources([]);
      assert FlattenSources([item]) == FlattenSources(item.items);
    } else {
      assert FlattenSources([item]) == [item];
      assert EmitAll([item]) == Emitted(item) + EmitAll([]);
    }
  }

  /** An argument that is not a list is treated as the one-element list holding it. */
  lemma WhitelistWrapsSingle(arg: Source)
    requires !arg.Nil? && !arg.List?
    ensures InitializeWhitelist(arg) == InitializeWhitelist(List([arg]))
  {
  }

  /** The entry is allowed through: its field is whitelisted and its direction is "asc" or "desc". */
  predicate Permitted(e: Entry, allowed: seq<string>) {
    e.field in allowed && IsDirection(e.dir)
  }

  /** Every entry satisfies the whitelist, or there is none. */
  predicate Obeys(es: seq<Entry>, whitelist: Option<seq<string>>) {
    whitelist.Some? ==> forall i :: 0 <= i < |es| ==> Permitted(es[i], whitelist.value)
  }

  /** `arr.select { |field, dir| ... }`: the permitted entries, in order. */
  function Select(es: seq<Entry>, allowed: seq<string>): (r: seq<Entry>)
    ensures IsSubsequence(r, es)
    ensures forall e :: e in r <==> e in es && Permitted(e, allowed)
  {
    if es == [] then []
    else
      var rest := Select(es[1..], allowed);
      if Permitted(es[0], allowed) then
        [es[0]] + rest
      else
        SubsequenceSkip(rest, es);
        rest
  }

  /** `apply_whitelist`: no whitelist lets everything through unchanged; otherwise only permitted entries remain. */
  function ApplyWhitelist(es: seq<Entry>, whitelist: Option<seq<string>>): (r: seq<Entry>)
    ensures whitelist.None? ==> r == es
    ensures IsSubsequence(r, es)
    ensures Obeys(r, whitelist)
    ensures whitelist.Some? ==> forall e :: e in es && Permitted(e, whitelist.value) ==> e in r
    ensures whitelist.Some? ==>
      forall e :: multiset(r)[e] == if Permitted(e, whitelist.value) then multiset(es)[e] else 0
  {
    match whitelist
    case None =>
      SubsequenceSelf(es);
      es
    case Some(allowed) =>
      SelectCounts(es, allowed);
      Select(es, allowed)
  }

  /** `select` keeps every occurrence of a permitted entry and no occurrence of any other. */
  lemma {:induction false} SelectCounts(es: seq<Entry>, allowed: seq<string>)
    ensures forall e :: multiset(Select(es, allowed))[e] == if Permitted(e, allowed) then multiset(es)[e] else 0
  {
    if es != [] {
      var x, rest := es[0], es[1..];
      assert es == [x] + rest;
      SelectCounts(rest, allowed);
      SelectCons(x, rest, allowed);
    }
  }

  lemma {:induction false} SubsequenceSelf(es: seq<Entry>)
    ensures IsSubsequence(es, es)
  {
    if es != [] {
      SubsequenceSelf(es[1..]);
    }
  }

  /** Filtering is done entry by entry: it distributes over concatenation. */
  lemma {:induction false} SelectAppend(xs: seq<Entry>, ys: seq<Entry>, allowed: seq<string>)
    ensures Select(xs + ys, allowed) == Select(xs, allowed) + Select(ys, allowed)
  {
    if xs == [] {
      assert xs + ys == ys;
    } else {
      var x, rest := xs[0], xs[1..];
      assert xs == [x] + rest;
      assert xs + ys == [x] + (rest + ys);
      SelectAppend(rest, ys, allowed);
      SelectCons(x, rest, allowed);
      SelectCons(x, rest + ys, allowed);
    }
  }

  lemma SelectCons(x: Entry, rest: seq<Entry>, allowed: seq<string>)
    ensures Select([x] + rest, allowed) == (if Permitted(x, allowed) then [x] else []) + Select(rest, allowed)
  {
    assert ([x] + rest)[1..] == rest;
  }

  /** One entry is kept exactly when it is permitted. */
  lemma SelectSingle(e: Entry, allowed: seq<string>)
    ensures Select([e], allowed) == if Permitted(e, allowed) then [e] else []
  {
    assert [e][1..] == [];
  }

  /** A list whose entries are all permitted passes the filter unchanged. */
  lemma {:induction false} SelectKeepsPermitted(es: seq<Entry>, allowed: seq<string>)
    requires forall i :: 0 <= i < |es| ==> Permitted(es[i], allowed)
    ensures Select(es, allowed) == es
  {
    if es != [] {
      SelectKeepsPermitted(es[1..], allowed);
      assert Permitted(es[0], allowed);
      assert Select(es, allowed) == [es[0]] + Select(es[1..], allowed);
    }
  }

  /** Filtering twice is filtering once. */
  lemma ApplyWhitelistIdempotent(es: seq<Entry>, whitelist: Option<seq<string>>)
    ensures ApplyWhitelist(ApplyWhitelist(es, whitelist), whitelist) == ApplyWhitelist(es, whitelist)
  {
    if whitelist.Some? {
      SelectKeepsPermitted(ApplyWhitelist(es, whitelist), whitelist.value);
    }
  }

  /** The constructor's default whitelist, `[]`, lets nothing through. */
  lemma {:induction false} EmptyWhitelistRejectsAll(es: seq<Entry>)
    ensures ApplyWhitelist(es, InitializeWhitelist(List([]))) == []
  {
    assert InitializeWhitelist(List([])) == Some([]);
    if es != [] {
      EmptyWhitelistRejectsAll(es[1..]);
    }
  }
}
