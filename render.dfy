/**
 * The three renderings of an entry list: the canonical sort string (`to_s`),
 * an ORDER BY clause with a caller-supplied identifier quoter (`to_sql`), and
 * a field-to-direction map (`to_hash`).
 */
module Render {
  import opened Wrappers
  import opened Text
  import opened Entries
  import Tokenizer

  // ---------------------------------------------------------------------------
  // to_s
  // ---------------------------------------------------------------------------

  /** `to_s`: each entry as `field_dir`, joined with `!`. */
  function ToSortString(es: seq<Entry>): string {
    Join(Tokens(es), "!")
  }

  function Tokens(es: seq<Entry>): seq<string> {
    seq(|es|, i requires 0 <= i < |es| => SortToken(es[i]))
  }

  lemma ToSortStringCons(es: seq<Entry>)
    requires |es| >= 2
    ensures ToSortString(es) == SortToken(es[0]) + "!" + ToSortString(es[1..])
  {
    assert Tokens(es)[1..] == Tokens(es[1..]);
  }

  /** A well-formed entry is written with field characters only. */
  lemma SortTokenFieldChars(e: Entry)
    requires WellFormed(e)
    ensures AllFieldChars(SortToken(e))
  {
    var tok := SortToken(e);
    forall i | 0 <= i < |tok| ensures IsFieldChar(tok[i]) {
      if i < |e.field| {
        assert tok[i] == e.field[i];
      } else if i > |e.field| {
        assert tok[i] == e.dir[i - |e.field| - 1];
      }
    }
  }

  /** The token of a well-formed entry ends in its `_asc`/`_desc` suffix, which gives the entry back. */
  lemma SortTokenSuffix(e: Entry)
    requires WellFormed(e)
    ensures AllFieldChars(SortToken(e))
    ensures Tokenizer.SuffixEntry(SortToken(e)) == Some(e)
  {
    SortTokenFieldChars(e);
    var tok := SortToken(e);
    if e.dir == "asc" {
      assert tok[|tok| - 4..] == "_asc";
      assert tok[..|tok| - 4] == e.field;
    } else {
      assert tok[|tok| - 4..] == "desc";
      assert tok[|tok| - 5..] == "_desc";
      assert tok[..|tok| - 5] == e.field;
    }
  }

  /** A well-formed entry is written with field characters only, and the sort regex reads it back. */
  lemma SortTokenMatches(e: Entry)
    requires WellFormed(e)
    ensures AllFieldChars(SortToken(e))
    ensures Tokenizer.SortMatch(SortToken(e)) == Some(e)
  {
    var tok := SortToken(e);
    SortTokenSuffix(e);
    FieldRunOf(tok, []);
    assert tok + [] == tok;
    assert tok[..|tok|] == tok;
  }

  /** The sort string of one well-formed entry parses back to that entry. */
  lemma SortStringSingle(e: Entry)
    requires WellFormed(e)
    ensures '!' !in SortToken(e)
    ensures Tokenizer.ParseSort(SortToken(e)) == [e]
  {
    var tok := SortToken(e);
    SortTokenMatches(e);
    assert '!' !in tok by {
      assert forall i :: 0 <= i < |tok| ==> tok[i] != '!';
    }
    Tokenizer.ParseSortSegment(tok);
  }

  /** Putting a well-formed entry in front of a sort string that parses back yields one that parses back. */
  lemma SortStringCons(e: Entry, rest: seq<Entry>)
    requires WellFormed(e) && rest != []
    requires Tokenizer.ParseSort(ToSortString(rest)) == rest
    ensures Tokenizer.ParseSort(ToSortString([e] + rest)) == [e] + rest
  {
    var es := [e] + rest;
    assert es[1..] == rest;
    SortStringSingle(e);
    ToSortStringCons(es);
    Tokenizer.ParseSortConcat(SortToken(e), ToSortString(rest));
  }

  /** Parsing the canonical sort string of well-formed entries gives the entries back. */
  lemma {:induction false} SortStringRoundTrip(es: seq<Entry>)
    requires AllWellFormed(es)
    ensures Tokenizer.ParseSort(ToSortString(es)) == es
  {
    if es == [] {
      assert ToSortString(es) == [];
      Tokenizer.ParseSortPieces([]);
    } else if |es| == 1 {
      SortStringSingle(es[0]);
      assert es == [es[0]];
    } else {
      var e, rest := es[0], es[1..];
      assert es == [e] + rest;
      SortStringRoundTrip(rest);
      SortStringCons(e, rest);
    }
  }

  /**
   * Whatever sort parameter came in, writing its entries out and parsing
   * them again gives the same entries: the canonical string is a fixed point.
   */
  lemma SortStringNormalises(sort: string)
    ensures var es := Tokenizer.ParseSort(sort);
      Tokenizer.ParseSort(ToSortString(es)) == es
  {
    SortStringRoundTrip(Tokenizer.ParseSort(sort));
  }

  // ---------------------------------------------------------------------------
  // to_sql
  // ---------------------------------------------------------------------------

  /** The default quoter, `->(frag) { frag }`. */
  function Identity(frag: string): string {
    frag
  }

  /** `a[0].split('.').map { |frag| quoter.call(frag) }.join('.')`. */
  function Column(field: string, quote: string -> string): string {
    Join(QuoteAll(Split(field, '.'), quote), ".")
  }

  function QuoteAll(pieces: seq<string>, quote: string -> string): seq<string> {
    seq(|pieces|, k requires 0 <= k < |pieces| => quote(pieces[k]))
  }

  /** `"#{column} #{a[1].upcase}"`. */
  function SqlFragment(e: Entry, quote: string -> string): string {
    Column(e.field, quote) + " " + Upcase(e.dir)
  }

  /** `to_sql(quoter)`: the fragments joined with `", "`. */
  function ToSql(es: seq<Entry>, quote: string -> string): string {
    Join(Fragments(es, quote), ", ")
  }

  function Fragments(es: seq<Entry>, quote: string -> string): seq<string> {
    seq(|es|, i requires 0 <= i < |es| => SqlFragment(es[i], quote))
  }

  lemma ToSqlSingle(e: Entry, quote: string -> string)
    ensures ToSql([e], quote) == SqlFragment(e, quote)
  {
    assert Fragments([e], quote) == [SqlFragment(e, quote)];
  }

  lemma ToSqlCons(es: seq<Entry>, quote: string -> string)
    requires |es| >= 2
    ensures ToSql(es, quote) == SqlFragment(es[0], quote) + ", " + ToSql(es[1..], quote)
  {
    FragmentsTail(es, quote);
  }

  lemma FragmentsTail(es: seq<Entry>, quote: string -> string)
    requires es != []
    ensures Fragments(es, quote)[1..] == Fragments(es[1..], quote)
  {
    var a, b := Fragments(es, quote)[1..], Fragments(es[1..], quote);
    forall k | 0 <= k < |a|
      ensures a[k] == b[k]
    {
      assert es[1..][k] == es[k + 1];
    }
  }

  /**
   * A dotted field is quoted piece by piece: `a.b.c` becomes
   * `quote(a).quote(b).quote(c)`, whatever the quoter does.
   */
  lemma ColumnQuotesPieces(pieces: seq<string>, quote: string -> string)
    requires |pieces| >= 1 && pieces[|pieces| - 1] != []
    requires forall k :: 0 <= k < |pieces| ==> '.' !in pieces[k]
    ensures Column(Join(pieces, "."), quote) == Join(QuoteAll(pieces, quote), ".")
  {
    SplitOfJoin(pieces, '.');
    assert Split(Join(pieces, "."), '.') == pieces;
  }

  /** The default quoter leaves every piece as it is. */
  lemma QuoteAllIdentity(pieces: seq<string>)
    ensures QuoteAll(pieces, Identity) == pieces
  {
    forall k | 0 <= k < |pieces| ensures QuoteAll(pieces, Identity)[k] == pieces[k] {
      assert QuoteAll(pieces, Identity)[k] == Identity(pieces[k]);
    }
  }

  /** With the default quoter the column is the field itself, unless the field ends in `.` (Ruby's split drops trailing empty pieces). */
  lemma ColumnIdentity(field: string)
    requires field == [] || field[|field| - 1] != '.'
    ensures Column(field, Identity) == field
  {
    if field != [] {
      SplitKeepsAll(field, '.');
    }
    var pieces := Split(field, '.');
    QuoteAllIdentity(pieces);
    if field != [] {
      JoinOfSplit(field, '.');
      assert Join(pieces, ".") == field;
    } else {
      assert SplitAll(field, '.') == [[]];
      assert pieces == [];
    }
  }

  /** `asc` and `desc` upcase to runs of `[asc|desc]` characters that lowercase back. */
  lemma UpcasedDirection(d: string)
    requires IsDirection(d)
    ensures Upcase(d) != [] && Downcase(Upcase(d)) == d
    ensures forall i :: 0 <= i < |Upcase(d)| ==> IsDirChar(Upcase(d)[i])
  {
    if d == "asc" {
      assert Upcase(d) == "ASC";
      assert Downcase("ASC") == "asc";
    } else {
      assert Upcase(d) == "DESC";
      assert Downcase("DESC") == "desc";
    }
  }

  /** An upcased direction is read back, lowercased, by the order regex. */
  lemma DirectionReadBack(d: string)
    requires IsDirection(d)
    ensures Tokenizer.DirectionAfter(" " + Upcase(d)) == d
  {
    UpcasedDirection(d);
    Tokenizer.DirectionOfRun(' ', Upcase(d));
  }

  /** Fields that `to_sql` with the default quoter writes back unchanged. */
  predicate SqlSafe(e: Entry) {
    WellFormed(e) && e.field[|e.field| - 1] != '.'
  }

  /** With the default quoter a fragment is the field, a blank and the upcased direction. */
  lemma FragmentText(e: Entry)
    requires SqlSafe(e)
    ensures SqlFragment(e, Identity) == e.field + " " + Upcase(e.dir)
  {
    ColumnIdentity(e.field);
  }

  /** A rendered fragment holds no `,`, so it stays one segment of an order string. */
  lemma FragmentNoComma(e: Entry)
    requires SqlSafe(e)
    ensures ',' !in e.field + " " + Upcase(e.dir)
  {
    assert ',' !in e.field by {
      assert forall i :: 0 <= i < |e.field| ==> e.field[i] != ',';
    }
    if e.dir == "asc" {
      assert Upcase(e.dir) == "ASC";
    } else {
      assert Upcase(e.dir) == "DESC";
    }
  }

  /** One rendered fragment parses back as the order string it looks like. */
  lemma FragmentRoundTrip(e: Entry)
    requires SqlSafe(e)
    ensures Tokenizer.OrderMatch(SqlFragment(e, Identity)) == Some(e)
    ensures ',' !in SqlFragment(e, Identity)
  {
    var rest := " " + Upcase(e.dir);
    assert e.field + " " + Upcase(e.dir) == [] + e.field + rest;
    Tokenizer.OrderSegment([], e.field, rest);
    DirectionReadBack(e.dir);
    FragmentNoComma(e);
    FragmentText(e);
  }

  /** The clause for one entry parses back to that entry. */
  lemma SqlSingle(e: Entry)
    requires SqlSafe(e)
    ensures Tokenizer.ParseOrder(ToSql([e], Identity)) == [e]
  {
    var frag := SqlFragment(e, Identity);
    FragmentRoundTrip(e);
    Tokenizer.ParseOrderSegment(frag);
    ToSqlSingle(e, Identity);
  }

  /** Two clauses that parse back, joined with `", "`, parse back as both. */
  lemma ParseJoined(head: string, tail: string, whole: string, eh: seq<Entry>, et: seq<Entry>)
    requires Tokenizer.ParseOrder(head) == eh && Tokenizer.ParseOrder(tail) == et
    requires whole == head + ", " + tail
    ensures Tokenizer.ParseOrder(whole) == eh + et
  {
    Tokenizer.ParseOrderCommaBlank(head, tail);
  }

  /** Putting an entry in front of a clause that parses back yields a clause that parses back. */
  lemma SqlCons(e: Entry, rest: seq<Entry>)
    requires SqlSafe(e) && rest != []
    requires Tokenizer.ParseOrder(ToSql(rest, Identity)) == rest
    ensures Tokenizer.ParseOrder(ToSql([e] + rest, Identity)) == [e] + rest
  {
    var es := [e] + rest;
    assert es[1..] == rest;
    SqlSingle(e);
    ToSqlSingle(e, Identity);
    ToSqlCons(es, Identity);
    ParseJoined(ToSql([e], Identity), ToSql(rest, Identity), ToSql(es, Identity), [e], rest);
  }

  /**
   * The ORDER BY clause `to_sql` writes with the default quoter is itself a
   * valid order string: `parse_order` reads the same entries back.
   */
  lemma {:induction false} SqlRoundTrip(es: seq<Entry>)
    requires forall i :: 0 <= i < |es| ==> SqlSafe(es[i])
    ensures Tokenizer.ParseOrder(ToSql(es, Identity)) == es
  {
    if es == [] {
      assert ToSql(es, Identity) == [];
      Tokenizer.ParseOrderPieces([]);
    } else if |es| == 1 {
      SqlSingle(es[0]);
      assert es == [es[0]];
    } else {
      var e, rest := es[0], es[1..];
      assert es == [e] + rest;
      SqlRoundTrip(rest);
      SqlCons(e, rest);
    }
  }

  // ---------------------------------------------------------------------------
  // to_hash
  // ---------------------------------------------------------------------------

  /** No later entry has the same field as entry `i`. */
  predicate LastWithField(es: seq<Entry>, i: int)
    requires 0 <= i < |es|
  {
    forall j :: i < j < |es| ==> es[j].field != es[i].field
  }

  /**
   * `to_hash`: `inject` with `merge`, so the keys are exactly the fields and
   * each field maps to the direction of its last entry.
   */
  function ToHash(es: seq<Entry>): (h: map<string, string>)
    ensures h.Keys == set i | 0 <= i < |es| :: es[i].field
    ensures forall i :: 0 <= i < |es| && LastWithField(es, i) ==> h[es[i].field] == es[i].dir
  {
    if es == [] then map[]
    else
      var init := es[..|es| - 1];
      var last := es[|es| - 1];
      var h := ToHash(init)[last.field := last.dir];
      HashStep(es, init, ToHash(init), h);
      h
  }

  /** Merging the last pair into the hash of the others gives the hash of all. */
  lemma HashStep(es: seq<Entry>, init: seq<Entry>, prev: map<string, string>, h: map<string, string>)
    requires es != [] && init == es[..|es| - 1]
    requires prev.Keys == set i | 0 <= i < |init| :: init[i].field
    requires forall i :: 0 <= i < |init| && LastWithField(init, i) ==> prev[init[i].field] == init[i].dir
    requires h == prev[es[|es| - 1].field := es[|es| - 1].dir]
    ensures h.Keys == set i | 0 <= i < |es| :: es[i].field
    ensures forall i :: 0 <= i < |es| && LastWithField(es, i) ==> h[es[i].field] == es[i].dir
  {
    var last := es[|es| - 1];
    forall x | x in h.Keys ensures x in set i | 0 <= i < |es| :: es[i].field {
      if x != last.field {
        var i :| 0 <= i < |init| && init[i].field == x;
        assert es[i].field == x;
      }
    }
    forall x | x in set i | 0 <= i < |es| :: es[i].field ensures x in h.Keys {
      var i :| 0 <= i < |es| && es[i].field == x;
      if i < |es| - 1 {
        assert init[i].field == x;
      }
    }
    forall i | 0 <= i < |es| && LastWithField(es, i) ensures h[es[i].field] == es[i].dir {
      if i < |es| - 1 {
        assert init[i] == es[i];
        assert LastWithField(init, i);
      }
    }
  }
}
