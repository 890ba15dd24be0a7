/**
 * The two tokenisers of the parser: `parse_sort` for the compact
 * `field_dir!field_dir` sort parameter and `parse_order` for an SQL-like
 * `field DIR, field DIR` order string. Each regular expression is modelled
 * by what its leftmost match is, not by a regex engine.
 */
module Tokenizer {
  import opened Wrappers
  import opened Text
  import opened Entries

  // ---------------------------------------------------------------------------
  // SORTED_QUERY_REGEX = /([a-zA-Z0-9._]+)_(asc|desc)$/
  // ---------------------------------------------------------------------------

  /** The text ends in `suffix` with a field character right before it. */
  predicate EndsWithSuffix(seg: string, suffix: string) {
    |seg| > |suffix| && seg[|seg| - |suffix|..] == suffix && IsFieldChar(seg[|seg| - |suffix| - 1])
  }

  /** The text ends in `_asc` or `_desc` with a field character right before it. */
  predicate HasSortSuffix(seg: string) {
    EndsWithSuffix(seg, "_asc") || EndsWithSuffix(seg, "_desc")
  }

  /**
   * The entry a word of field characters stands for, when the regex can end
   * its match at the end of the word: the word is `field_asc` or `field_desc`
   * with a non-empty field.
   */
  function SuffixEntry(word: string): (r: Option<Entry>)
    requires AllFieldChars(word)
    ensures r.Some? <==> HasSortSuffix(word)
    ensures r.Some? ==> WellFormed(r.value) && SortToken(r.value) == word
  {
    if EndsWithSuffix(word, "_asc") then
      assert word == word[..|word| - 4] + "_" + "asc";
      Some(Entry(word[..|word| - 4], "asc"))
    else if EndsWithSuffix(word, "_desc") then
      assert word == word[..|word| - 5] + "_" + "desc";
      Some(Entry(word[..|word| - 5], "desc"))
    else
      None
  }

  /**
   * The leftmost match of SORTED_QUERY_REGEX in one segment. A match lies
   * inside one maximal word of field characters (the suffix `_asc`/`_desc`
   * is made of field characters too), must end where `$` matches (end of
   * text or before a line feed) and is leftmost when it starts at the start
   * of the first such word.
   */
  function SortMatch(seg: string): (r: Option<Entry>)
    ensures r.Some? ==> WellFormed(r.value)
    decreases |seg|
  {
    if seg == [] then None
    else if !IsFieldChar(seg[0]) then SortMatch(seg[1..])
    else
      var n := FieldRun(seg);
      var found := SuffixEntry(seg[..n]);
      if found.Some? && (n == |seg| || seg[n] == '\n') then found
      else SortMatch(seg[n..])
  }

  /** `tok` is the end of `seg`, and no field character comes right before it. */
  predicate EndsWithWord(seg: string, tok: string) {
    && |tok| <= |seg|
    && seg[|seg| - |tok|..] == tok
    && (|tok| == |seg| || !IsFieldChar(seg[|seg| - |tok| - 1]))
  }

  /** A word that ends a suffix of `seg` ends `seg`, if it does not reach back to a field character. */
  lemma EndsWithWordSuffix(seg: string, k: nat, tok: string)
    requires k <= |seg| && EndsWithWord(seg[k..], tok)
    requires |tok| == |seg| - k && k > 0 ==> !IsFieldChar(seg[k - 1])
    ensures EndsWithWord(seg, tok)
  {
    assert seg[|seg| - |tok|..] == seg[k..][|seg| - k - |tok|..];
    if |tok| < |seg| - k {
      assert seg[|seg| - |tok| - 1] == seg[k..][|seg| - k - |tok| - 1];
    }
  }

  /**
   * On a one-line segment, a sort entry is found exactly when the segment ends
   * in `_asc`/`_desc` after a field character; the entry is then written at
   * the very end of the segment and its field is the longest run of field
   * characters before the suffix, whatever junk precedes it.
   */
  lemma {:induction false} SortSegment(seg: string)
    requires '\n' !in seg
    ensures SortMatch(seg).Some? <==> HasSortSuffix(seg)
    ensures SortMatch(seg).Some? ==> EndsWithWord(seg, SortToken(SortMatch(seg).value))
    decreases |seg|
  {
    if seg == [] {
    } else if !IsFieldChar(seg[0]) {
      SortJunkFirst(seg);
    } else if FieldRun(seg) == |seg| {
      SortWholeWord(seg);
    } else {
      SortWordThenJunk(seg, FieldRun(seg));
    }
  }

  /** A leading non-field character is skipped. */
  lemma {:induction false} SortJunkFirst(seg: string)
    requires '\n' !in seg && seg != [] && !IsFieldChar(seg[0])
    ensures SortMatch(seg).Some? <==> HasSortSuffix(seg)
    ensures SortMatch(seg).Some? ==> EndsWithWord(seg, SortToken(SortMatch(seg).value))
    decreases |seg|, 0
  {
    SortSegment(seg[1..]);
    SuffixInWord(seg, 0);
    if SortMatch(seg).Some? {
      EndsWithWordSuffix(seg, 1, SortToken(SortMatch(seg).value));
    }
  }

  /** A segment that is one word of field characters is its own match, if it has a suffix. */
  lemma SortWholeWord(seg: string)
    requires seg != [] && FieldRun(seg) == |seg|
    ensures SortMatch(seg).Some? <==> HasSortSuffix(seg)
    ensures SortMatch(seg).Some? ==> EndsWithWord(seg, SortToken(SortMatch(seg).value))
  {
    assert seg[..|seg|] == seg;
    var found := SuffixEntry(seg);
    if found.Some? {
      assert SortMatch(seg) == found;
      assert seg[|seg| - |seg|..] == seg;
    } else {
      assert seg[|seg|..] == [];
      assert SortMatch(seg) == None;
    }
  }

  /** After a word that ends before a non-field character, the search goes on from that character. */
  lemma {:induction false} SortWordThenJunk(seg: string, n: nat)
    requires '\n' !in seg && 0 < n < |seg| && n == FieldRun(seg) && IsFieldChar(seg[0])
    ensures SortMatch(seg).Some? <==> HasSortSuffix(seg)
    ensures SortMatch(seg).Some? ==> EndsWithWord(seg, SortToken(SortMatch(seg).value))
    decreases |seg|, 0
  {
    var rest := seg[n..];
    assert seg[n] in seg;
    assert SortMatch(seg) == SortMatch(rest);
    SortSegment(rest);
    SuffixInWord(seg, n);
    if SortMatch(rest).Some? {
      var e := SortMatch(rest).value;
      assert SortToken(e)[0] == e.field[0];
      assert !IsFieldChar(rest[0]);
      EndsWithWordSuffix(seg, n, SortToken(e));
    }
  }

  /** A suffix of field characters, and the field character before it, lie after any non-field character. */
  lemma SuffixAfterJunk(seg: string, suffix: string, k: nat, m: nat)
    requires AllFieldChars(suffix) && k < |seg| && !IsFieldChar(seg[k]) && k <= m <= k + 1
    ensures EndsWithSuffix(seg, suffix) <==> EndsWithSuffix(seg[m..], suffix)
  {
    var t := seg[m..];
    if EndsWithSuffix(seg, suffix) {
      var start := |seg| - |suffix|;
      assert forall j :: start <= j < |seg| ==> seg[j] == suffix[j - start];
      assert k < start - 1;
      assert t[|t| - |suffix|..] == seg[start..];
      assert t[|t| - |suffix| - 1] == seg[start - 1];
    }
    if EndsWithSuffix(t, suffix) {
      assert seg[|seg| - |suffix|..] == t[|t| - |suffix|..];
      assert seg[|seg| - |suffix| - 1] == t[|t| - |suffix| - 1];
    }
  }

  /** A sort suffix lies after any character that is not a field character. */
  lemma SuffixInWord(seg: string, n: nat)
    requires n < |seg| && !IsFieldChar(seg[n])
    ensures HasSortSuffix(seg) <==> HasSortSuffix(seg[n + 1..])
    ensures HasSortSuffix(seg) <==> HasSortSuffix(seg[n..])
  {
    assert AllFieldChars("_asc") && AllFieldChars("_desc");
    SuffixAfterJunk(seg, "_asc", n, n);
    SuffixAfterJunk(seg, "_asc", n, n + 1);
    SuffixAfterJunk(seg, "_desc", n, n);
    SuffixAfterJunk(seg, "_desc", n, n + 1);
  }

  /** `parse_sort`: split the sort parameter on `!` and keep the segments the regex matches. */
  function ParseSort(sort: string): (r: seq<Entry>)
    ensures AllWellFormed(r)
  {
    Compact(Split(sort, '!'), SortMatch)
  }

  /** Ruby's removal of trailing empty pieces does not matter: empty segments never match. */
  lemma ParseSortPieces(sort: string)
    ensures ParseSort(sort) == Compact(SplitAll(sort, '!'), SortMatch)
  {
    var all := SplitAll(sort, '!');
    CompactPrefix(all, |Split(sort, '!')|, SortMatch);
  }

  /** Segments are parsed independently and their entries kept in segment order. */
  lemma ParseSortConcat(x: string, y: string)
    ensures ParseSort(x + "!" + y) == ParseSort(x) + ParseSort(y)
  {
    ParseSortPieces(x + "!" + y);
    ParseSortPieces(x);
    ParseSortPieces(y);
    SplitAtSep(x, y, '!');
    CompactAppend(SplitAll(x, '!'), SplitAll(y, '!'), SortMatch);
  }

  /** A text without `!` is one segment: at most one entry. */
  lemma ParseSortSegment(seg: string)
    requires '!' !in seg
    ensures ParseSort(seg) == if SortMatch(seg).Some? then [SortMatch(seg).value] else []
  {
    ParseSortPieces(seg);
    SplitWithoutSep(seg, '!');
  }

  /**
   * Injection resistance: a sort parameter with no `!` and no line feed
   * that does not end in `<field>_asc` or `<field>_desc` yields no entry,
   * whatever else it contains.
   */
  lemma ParseSortRejects(sort: string)
    requires '!' !in sort && '\n' !in sort && !HasSortSuffix(sort)
    ensures ParseSort(sort) == []
  {
    SortSegment(sort);
    ParseSortSegment(sort);
  }

  // ---------------------------------------------------------------------------
  // SQL_REGEX = /(([a-z0-9._]+)\s([asc|desc]+)|[a-z0-9._]+)/i
  // ---------------------------------------------------------------------------

  /** What `[asc|desc]+` captures after `downcase`: a non-empty run of a, s, c, d, e and `|`. */
  predicate IsLowerDirRun(d: string) {
    d != [] && forall i :: 0 <= i < |d| ==> d[i] in "ascde|"
  }

  lemma LowerDirChar(c: char)
    requires IsDirChar(c)
    ensures LowerChar(c) in "ascde|"
  {
    assert c in "ascdeASCDE|";
    if c == 'A' { assert LowerChar(c) == 'a'; }
    else if c == 'S' { assert LowerChar(c) == 's'; }
    else if c == 'C' { assert LowerChar(c) == 'c'; }
    else if c == 'D' { assert LowerChar(c) == 'd'; }
    else if c == 'E' { assert LowerChar(c) == 'e'; }
  }

  /**
   * The direction an order segment gets from the text after its field: when
   * one whitespace character and a `[asc|desc]` character follow, the longest
   * run of such characters, lowercased; otherwise "asc".
   */
  function DirectionAfter(rest: string): (d: string)
    ensures IsLowerDirRun(d)
  {
    if |rest| >= 2 && IsSpace(rest[0]) && IsDirChar(rest[1]) then
      var run := rest[1..][..DirRun(rest[1..])];
      forall i | 0 <= i < |run| ensures LowerChar(run[i]) in "ascde|" {
        LowerDirChar(run[i]);
      }
      Downcase(run)
    else
      "asc"
  }

  /**
   * The leftmost match of SQL_REGEX in one segment: it starts at the first
   * field character, the field is the longest run of field characters from
   * there, and the direction is what `DirectionAfter` reads after it.
   */
  function OrderMatch(seg: string): (r: Option<Entry>)
    ensures r.None? <==> NoFieldChar(seg)
    ensures r.Some? ==> IsFieldName(r.value.field) && IsLowerDirRun(r.value.dir)
    decreases |seg|
  {
    if seg == [] then None
    else if !IsFieldChar(seg[0]) then
      assert NoFieldChar(seg) <==> NoFieldChar(seg[1..]) by {
        if NoFieldChar(seg[1..]) {
          forall i | 0 <= i < |seg| ensures !IsFieldChar(seg[i]) {
            if i > 0 { assert seg[i] == seg[1..][i - 1]; }
          }
        }
      }
      OrderMatch(seg[1..])
    else
      var n := FieldRun(seg);
      Some(Entry(seg[..n], DirectionAfter(seg[n..])))
  }

  /**
   * Whatever precedes the first field character is skipped, the field is the
   * whole run of field characters, and the direction depends only on the text
   * after it.
   */
  lemma {:induction false} OrderSegment(junk: string, field: string, rest: string)
    requires NoFieldChar(junk) && IsFieldName(field)
    requires rest == [] || !IsFieldChar(rest[0])
    ensures OrderMatch(junk + field + rest) == Some(Entry(field, DirectionAfter(rest)))
  {
    var seg := junk + field + rest;
    if junk == [] {
      assert seg == field + rest;
      var n := FieldRun(seg);
      assert seg[0] == field[0];
      FieldRunOf(field, rest);
      assert seg[..n] == field && seg[n..] == rest;
    } else {
      assert seg[0] == junk[0];
      assert seg[1..] == junk[1..] + field + rest;
      OrderSegment(junk[1..], field, rest);
    }
  }

  /** Leading text without a field character changes nothing in a segment. */
  lemma {:induction false} OrderMatchSkipsJunk(junk: string, seg: string)
    requires NoFieldChar(junk)
    ensures OrderMatch(junk + seg) == OrderMatch(seg)
  {
    if junk != [] {
      assert (junk + seg)[0] == junk[0];
      assert (junk + seg)[1..] == junk[1..] + seg;
      OrderMatchSkipsJunk(junk[1..], seg);
    } else {
      assert junk + seg == seg;
    }
  }

  /** `parse_order`: split the order string on `,` and keep the segments the regex matches. */
  function ParseOrder(order: string): (r: seq<Entry>)
    ensures forall i :: 0 <= i < |r| ==> IsFieldName(r[i].field) && IsLowerDirRun(r[i].dir)
  {
    Compact(Split(order, ','), OrderMatch)
  }

  /** Ruby's removal of trailing empty pieces does not matter: empty segments never match. */
  lemma ParseOrderPieces(order: string)
    ensures ParseOrder(order) == Compact(SplitAll(order, ','), OrderMatch)
  {
    var all := SplitAll(order, ',');
    CompactPrefix(all, |Split(order, ',')|, OrderMatch);
  }

  /** Segments are parsed independently and their entries kept in segment order. */
  lemma ParseOrderConcat(x: string, y: string)
    ensures ParseOrder(x + "," + y) == ParseOrder(x) + ParseOrder(y)
  {
    ParseOrderPieces(x + "," + y);
    ParseOrderPieces(x);
    ParseOrderPieces(y);
    SplitAtSep(x, y, ',');
    CompactAppend(SplitAll(x, ','), SplitAll(y, ','), OrderMatch);
  }

  /** A text without `,` is one segment: at most one entry. */
  lemma ParseOrderSegment(seg: string)
    requires ',' !in seg
    ensures ParseOrder(seg) == if OrderMatch(seg).Some? then [OrderMatch(seg).value] else []
  {
    ParseOrderPieces(seg);
    SplitWithoutSep(seg, ',');
  }

  /** Leading blanks (as after the `,` of `"a ASC, b DESC"`) change nothing. */
  lemma ParseOrderSkipsJunk(junk: string, x: string)
    requires NoFieldChar(junk) && ',' !in junk
    ensures ParseOrder(junk + x) == ParseOrder(x)
  {
    var ps := SplitAll(x, ',');
    var head, rest := ps[0], ps[1..];
    SplitPrefix(junk, x, ',');
    assert ps == [head] + rest;
    OrderMatchSkipsJunk(junk, head);
    CompactSameHead(junk + head, head, rest, OrderMatch);
    ParseOrderPieces(junk + x);
    ParseOrderPieces(x);
  }

  /** `", "` separates two order strings that are parsed independently. */
  lemma ParseOrderCommaBlank(x: string, y: string)
    ensures ParseOrder(x + ", " + y) == ParseOrder(x) + ParseOrder(y)
  {
    assert ", " == "," + " ";
    assert x + ", " + y == x + "," + (" " + y);
    ParseOrderConcat(x, " " + y);
    assert NoFieldChar(" ");
    ParseOrderSkipsJunk(" ", y);
  }

  /** A whitespace character and a run of `[asc|desc]` characters give that run, lowercased. */
  lemma DirectionOfRun(sp: char, w: string)
    requires IsSpace(sp) && w != []
    requires forall i :: 0 <= i < |w| ==> IsDirChar(w[i])
    ensures DirectionAfter([sp] + w) == Downcase(w)
  {
    var rest := [sp] + w;
    assert rest[1..] == w;
    assert DirRun(w) == |w|;
    assert w[..|w|] == w;
  }

  /** No `,` in a field, a whitespace character and a direction run. */
  lemma NoCommaInFieldDir(field: string, sp: char, w: string)
    requires AllFieldChars(field) && IsSpace(sp)
    requires forall i :: 0 <= i < |w| ==> IsDirChar(w[i])
    ensures ',' !in field + [sp] + w
  {
    var seg := field + [sp] + w;
    forall i | 0 <= i < |seg| ensures seg[i] != ',' {
      if i < |field| {
        assert seg[i] == field[i];
      } else if i > |field| {
        assert seg[i] == w[i - |field| - 1];
      }
    }
  }

  /**
   * The order segment `field DIR`: the field, and the direction run
   * lowercased.
   */
  lemma ParseOrderFieldDir(field: string, sp: char, w: string)
    requires IsFieldName(field) && IsSpace(sp) && w != []
    requires forall i :: 0 <= i < |w| ==> IsDirChar(w[i])
    ensures ParseOrder(field + [sp] + w) == [Entry(field, Downcase(w))]
  {
    var rest := [sp] + w;
    assert field + [sp] + w == [] + field + rest;
    OrderSegment([], field, rest);
    DirectionOfRun(sp, w);
    NoCommaInFieldDir(field, sp, w);
    ParseOrderSegment(field + [sp] + w);
  }

  /** A segment holding only a field (`order = :email`) gets the direction "asc". */
  lemma ParseOrderBareField(field: string)
    requires IsFieldName(field)
    ensures ParseOrder(field) == [Entry(field, "asc")]
  {
    assert field == [] + field + [];
    OrderSegment([], field, []);
    assert ',' !in field by {
      assert forall i :: 0 <= i < |field| ==> field[i] != ',';
    }
    ParseOrderSegment(field);
  }
}
