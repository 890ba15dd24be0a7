/**
 * `Sorted::Parser`: parses a sort parameter and an SQL order string once, at
 * construction, and keeps the resulting ordering in a cache (`@array`) that
 * the renderers fill on first use and that `reset` and `toggle` replace.
 */
module SortedParser {
  import opened Wrappers
  import opened Entries
  import opened Tokenizer
  import opened Merge
  import opened Whitelist
  import Render

  /**
   * What `default` computes: the sort entries, then the order entries whose
   * field is not already present, filtered through the whitelist.
   */
  function DefaultOrdering(sorts: seq<Entry>, orders: seq<Entry>, whitelist: Option<seq<string>>): seq<Entry> {
    ApplyWhitelist(MergeOrders(sorts, orders), whitelist)
  }

  /**
   * The default ordering obeys the whitelist; each of its entries is a sort
   * entry or an order entry for a field no sort entry names; and every sort
   * entry the whitelist permits is in it.
   */
  lemma DefaultContents(sorts: seq<Entry>, orders: seq<Entry>, whitelist: Option<seq<string>>)
    ensures var r := DefaultOrdering(sorts, orders, whitelist);
      && Obeys(r, whitelist)
      && (forall e :: e in r ==> e in sorts || (e in orders && !Mentions(sorts, e.field)))
      && (forall e :: e in sorts && (whitelist.None? || Permitted(e, whitelist.value)) ==> e in r)
  {
    var merged := MergeOrders(sorts, orders);
    var r := DefaultOrdering(sorts, orders, whitelist);
    MergeMembers(sorts, orders);
    MergePrefix(sorts, orders);
    forall e | e in sorts ensures e in merged {
      var i :| 0 <= i < |sorts| && sorts[i] == e;
      assert merged[..|sorts|][i] == e;
    }
    if whitelist.None? {
      assert r == merged;
    }
  }

  /** With no whitelist, the sort entries open the default ordering unchanged. */
  lemma DefaultStartsWithSorts(sorts: seq<Entry>, orders: seq<Entry>)
    ensures var r := DefaultOrdering(sorts, orders, None);
      |sorts| <= |r| && r[..|sorts|] == sorts
  {
    MergePrefix(sorts, orders);
  }

  class Parser {
    /** The raw sort parameter (`nil` is modelled as ""). */
    const sort: string
    /** The raw SQL order string (`nil` is modelled as ""). */
    const order: string
    const sorts: seq<Entry>
    const orders: seq<Entry>
    /** `@whitelist`: `None` for no restriction. */
    const whitelist: Option<seq<string>>
    /** `@array`: `None` until first use. */
    var cache: Option<seq<Entry>>

    /** Whatever is cached has been through the whitelist. */
    ghost predicate Valid()
      reads this
    {
      cache.Some? ==> Obeys(cache.value, whitelist)
    }

    /** The list `array` answers with: the cache, or the default ordering when there is none yet. */
    function Current(): seq<Entry>
      reads this
    {
      if cache.Some? then cache.value else DefaultOrdering(sorts, orders, whitelist)
    }

    /** `initialize(sort, order = nil, whitelist = [])`. */
    constructor (sort: string, order: string := "", whitelistArg: Source := List([]))
      ensures this.sort == sort && this.order == order
      ensures sorts == ParseSort(sort) && orders == ParseOrder(order)
      ensures whitelist == InitializeWhitelist(whitelistArg)
      ensures cache == None
      ensures Valid()
    {
      this.sort := sort;
      this.order := order;
      sorts := ParseSort(sort);
      orders := ParseOrder(order);
      whitelist := InitializeWhitelist(whitelistArg);
      cache := None;
    }

    /** `default`: the merge loop over the orders, then the whitelist. */
    method Default() returns (r: seq<Entry>)
      ensures r == DefaultOrdering(sorts, orders, whitelist)
      ensures Obeys(r, whitelist)
    {
      var merged := sorts;
      var i := 0;
      while i < |orders|
        invariant 0 <= i <= |orders|
        invariant MergeOrders(merged, orders[i..]) == MergeOrders(sorts, orders)
      {
        var o := orders[i];
        assert orders[i..][1..] == orders[i + 1..];
        if o.field !in Flatten(merged) {
          merged := merged + [o];
        }
        i := i + 1;
      }
      assert orders[i..] == [];
      r := ApplyWhitelist(merged, whitelist);
    }

    /** `array`: `@array ||= default`. */
    method Array() returns (r: seq<Entry>)
      requires Valid()
      modifies this`cache
      ensures r == old(Current())
      ensures cache == Some(r)
      ensures Obeys(r, whitelist)
      ensures Valid()
    {
      if cache.None? {
        var d := Default();
        cache := Some(d);
      }
      r := cache.value;
    }

    /** `to_a`. */
    method ToA() returns (r: seq<Entry>)
      requires Valid()
      modifies this`cache
      ensures r == old(Current())
      ensures cache == Some(r)
      ensures Valid()
    {
      r := Array();
    }

    /** `to_s`. */
    method ToS() returns (s: string)
      requires Valid()
      modifies this`cache
      ensures s == Render.ToSortString(old(Current()))
      ensures cache == Some(old(Current()))
      ensures Valid()
    {
      var a := Array();
      s := Render.ToSortString(a);
    }

    /** `to_sql(quoter = ->(frag) { frag })`. */
    method ToSql(quote: string -> string := Render.Identity) returns (s: string)
      requires Valid()
      modifies this`cache
      ensures s == Render.ToSql(old(Current()), quote)
      ensures cache == Some(old(Current()))
      ensures Valid()
    {
      var a := Array();
      s := Render.ToSql(a, quote);
    }

    /** `to_hash`. */
    method ToHash() returns (h: map<string, string>)
      requires Valid()
      modifies this`cache
      ensures h == Render.ToHash(old(Current()))
      ensures cache == Some(old(Current()))
      ensures Valid()
    {
      var a := Array();
      h := Render.ToHash(a);
    }

    /**
     * `toggle`: the cache becomes the toggled ordering, filtered through the
     * whitelist. The toggling rule itself is supplied by the caller.
     */
    method Toggle(toggler: (seq<Entry>, seq<Entry>) -> seq<Entry>)
      requires Valid()
      modifies this`cache
      ensures cache == Some(ApplyWhitelist(toggler(sorts, orders), whitelist))
      ensures Valid()
    {
      cache := Some(ApplyWhitelist(toggler(sorts, orders), whitelist));
    }

    /** `reset`: the cache goes back to the default ordering. */
    method Reset()
      requires Valid()
      modifies this`cache
      ensures cache == Some(DefaultOrdering(sorts, orders, whitelist))
      ensures Valid()
    {
      var d := Default();
      cache := Some(d);
    }
  }

  /**
   * The cache makes the parser's answer stable: asking twice gives the same
   * list, and after a `reset` the list is the default ordering again,
   * whatever a `toggle` did before.
   */
  method CacheIsStable(p: Parser, toggler: (seq<Entry>, seq<Entry>) -> seq<Entry>)
    returns (first: seq<Entry>, second: seq<Entry>, toggled: seq<Entry>, again: seq<Entry>)
    requires p.Valid()
    modifies p
    ensures first == second
    ensures toggled == ApplyWhitelist(toggler(p.sorts, p.orders), p.whitelist)
    ensures again == DefaultOrdering(p.sorts, p.orders, p.whitelist)
    ensures Obeys(first, p.whitelist) && Obeys(toggled, p.whitelist) && Obeys(again, p.whitelist)
    ensures p.Valid()
  {
    first := p.ToA();
    second := p.ToA();
    p.Toggle(toggler);
    toggled := p.ToA();
    p.Reset();
    again := p.ToA();
  }
}
