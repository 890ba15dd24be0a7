/**
 * The behaviours the repository's own test suite describes, stated on
 * concrete inputs and derived from the general lemmas of the model. Where
 * the code does something other than what a test expects, the lemma states
 * what the code does. Each lemma takes one step, so that no proof has to
 * evaluate the parser on a whole literal at once.
 */
module ParserExamples {
  import opened Wrappers
  import opened Text
  import opened Entries
  import opened Tokenizer
  import opened Merge
  import opened Whitelist
  import opened Render
  import opened SortedParser

  const EmailAsc := Entry("email", "asc")
  const EmailDesc := Entry("email", "desc")
  const PhoneAsc := Entry("phone", "asc")
  const NameDesc := Entry("name", "desc")

  /** The order string most tests use, and its entries. */
  const OrderString := "email ASC, phone ASC, name DESC"
  const Ordered := [EmailAsc, PhoneAsc, NameDesc]

  /** The sort string most tests use, and its entries. */
  const SortString := "email_desc!name_desc"
  const Sorted := [EmailDesc, NameDesc]

  /** What the parser built from both makes of them without a whitelist. */
  const Combined := [EmailDesc, NameDesc, PhoneAsc]

  /** Wraps an identifier in backticks, as a MySQL connection quotes column names. */
  function Backtick(frag: string): string {
    "`" + frag + "`"
  }

  // ---------------------------------------------------------------------------
  // parse_order
  // ---------------------------------------------------------------------------

  /** A `field ASC` segment. */
  lemma AscSegment(field: string)
    requires IsFieldName(field)
    ensures ParseOrder(field + " " + "ASC") == [Entry(field, "asc")]
  {
    assert Downcase("ASC") == "asc";
    ParseOrderFieldDir(field, ' ', "ASC");
  }

  /** A `field DESC` segment. */
  lemma DescSegment(field: string)
    requires IsFieldName(field)
    ensures ParseOrder(field + " " + "DESC") == [Entry(field, "desc")]
  {
    assert Downcase("DESC") == "desc";
    ParseOrderFieldDir(field, ' ', "DESC");
  }

  /** Two order strings joined with `", "` parse as the entries of both. */
  lemma OrderJoin(x: string, y: string, z: string, ex: seq<Entry>, ey: seq<Entry>)
    requires ParseOrder(x) == ex && ParseOrder(y) == ey && z == x + ", " + y
    ensures ParseOrder(z) == ex + ey
  {
    ParseOrderCommaBlank(x, y);
  }

  lemma EmailAscSegment()
    ensures ParseOrder("email" + " " + "ASC") == [EmailAsc]
  {
    AscSegment("email");
  }

  lemma PhoneAscSegment()
    ensures ParseOrder("phone" + " " + "ASC") == [PhoneAsc]
  {
    AscSegment("phone");
  }

  lemma NameDescSegment()
    ensures ParseOrder("name" + " " + "DESC") == [NameDesc]
  {
    DescSegment("name");
  }

  lemma OrderStringTailText()
    ensures "phone ASC, name DESC" == ("phone" + " " + "ASC") + ", " + ("name" + " " + "DESC")
  {
  }

  lemma OrderStringTail()
    ensures ParseOrder("phone ASC, name DESC") == [PhoneAsc, NameDesc]
  {
    PhoneAscSegment();
    NameDescSegment();
    OrderStringTailText();
    OrderJoin("phone" + " " + "ASC", "name" + " " + "DESC", "phone ASC, name DESC", [PhoneAsc], [NameDesc]);
  }

  lemma OrderStringText()
    ensures OrderString == ("email" + " " + "ASC") + ", " + "phone ASC, name DESC"
  {
  }

  /** An order string with explicit directions, parsed in segment order. */
  lemma OrderStringExample()
    ensures ParseOrder(OrderString) == Ordered
  {
    EmailAscSegment();
    OrderStringTail();
    OrderStringText();
    OrderJoin("email" + " " + "ASC", "phone ASC, name DESC", OrderString, [EmailAsc], [PhoneAsc, NameDesc]);
  }

  lemma DottedOrderText()
    ensures "assessmentsTable.name ASC, users_300.name_5 ASC"
         == ("assessmentsTable.name" + " " + "ASC") + ", " + ("users_300.name_5" + " " + "ASC")
  {
  }

  /** Dotted and numbered field names are accepted by the order grammar. */
  lemma DottedOrderExample()
    ensures ParseOrder("assessmentsTable.name ASC, users_300.name_5 ASC")
         == [Entry("assessmentsTable.name", "asc"), Entry("users_300.name_5", "asc")]
  {
    assert IsFieldName("assessmentsTable.name") && IsFieldName("users_300.name_5");
    DottedOrderText();
    AscPair("assessmentsTable.name", "users_300.name_5", "assessmentsTable.name ASC, users_300.name_5 ASC");
  }

  /** Two `field ASC` segments joined with `", "`. */
  lemma AscPair(f: string, g: string, z: string)
    requires IsFieldName(f) && IsFieldName(g)
    requires z == (f + " " + "ASC") + ", " + (g + " " + "ASC")
    ensures ParseOrder(z) == [Entry(f, "asc"), Entry(g, "asc")]
  {
    AscSegment(f);
    AscSegment(g);
    OrderJoin(f + " " + "ASC", g + " " + "ASC", z, [Entry(f, "asc")], [Entry(g, "asc")]);
  }

  /** A bare field (the symbol `:email`) gets the direction "asc". */
  lemma BareOrderExample()
    ensures ParseOrder("email") == [EmailAsc]
  {
    ParseOrderBareField("email");
  }

  lemma CadSegment()
    ensures ParseOrder("x" + " " + "cad") == [Entry("x", "cad")]
  {
    assert Downcase("cad") == "cad";
    ParseOrderFieldDir("x", ' ', "cad");
  }

  /**
   * `[asc|desc]` is a character class, not an alternation: any run of the
   * letters a, s, c, d, e (and `|`) after the blank is taken as the direction.
   */
  lemma CharacterClassDirection()
    ensures ParseOrder("x cad") == [Entry("x", "cad")]
  {
    CadSegment();
    assert "x" + " " + "cad" == "x cad";
  }

  // ---------------------------------------------------------------------------
  // parse_sort
  // ---------------------------------------------------------------------------

  lemma SortStringWritten()
    ensures ToSortString(Sorted) == SortString
  {
    assert SortToken(Sorted[0]) == "email_desc";
    assert SortToken(Sorted[1]) == "name_desc";
    assert Tokens(Sorted) == ["email_desc", "name_desc"];
    assert Join(["email_desc", "name_desc"], "!") == "email_desc" + "!" + "name_desc";
    assert "email_desc" + "!" + "name_desc" == SortString;
  }

  /** A sort string of two tokens, parsed in token order. */
  lemma SortStringExample()
    ensures ParseSort(SortString) == Sorted
  {
    SortStringWritten();
    assert WellFormed(EmailDesc) && WellFormed(NameDesc);
    SortStringRoundTrip(Sorted);
  }

  const Dotted := [Entry("assessmentsTable.name", "desc"), Entry("users_300.name_5", "desc")]

  /** Two pieces joined with a separator. */
  lemma JoinPair(a: string, b: string, sep: string, z: string)
    requires z == a + sep + b
    ensures Join([a, b], sep) == z
  {
    assert [a, b][1..] == [b];
  }

  lemma DottedTokens()
    ensures Tokens(Dotted) == ["assessmentsTable.name" + "_" + "desc", "users_300.name_5" + "_" + "desc"]
  {
  }

  lemma DottedWrittenText()
    ensures "assessmentsTable.name_desc!users_300.name_5_desc"
         == ("assessmentsTable.name" + "_" + "desc") + "!" + ("users_300.name_5" + "_" + "desc")
  {
  }

  lemma DottedWritten()
    ensures ToSortString(Dotted) == "assessmentsTable.name_desc!users_300.name_5_desc"
  {
    DottedTokens();
    DottedWrittenText();
    JoinPair("assessmentsTable.name" + "_" + "desc", "users_300.name_5" + "_" + "desc", "!",
      "assessmentsTable.name_desc!users_300.name_5_desc");
  }

  lemma DottedWellFormed()
    ensures AllWellFormed(Dotted)
  {
    assert IsFieldName("assessmentsTable.name");
    assert IsFieldName("users_300.name_5");
  }

  /** Dotted and numbered field names are accepted by the sort grammar. */
  lemma DottedSortExample()
    ensures ParseSort("assessmentsTable.name_desc!users_300.name_5_desc") == Dotted
  {
    DottedWritten();
    DottedWellFormed();
    SortStringRoundTrip(Dotted);
  }

  /** The payload of the injection test, written in four pieces. */
  const Injection :=
    "(case+when+((ASCII(SUBSTR(" + "(select+table_name+from+all_tables+"
    + "where+rownum%3d1),1))>%3D128))+" + "then+id+else+something+end)"

  /** Neither `!` nor a line feed occurs. */
  predicate Unbroken(s: string) {
    forall i :: 0 <= i < |s| ==> s[i] != '!' && s[i] != '\n'
  }

  lemma UnbrokenAppend(a: string, b: string)
    requires Unbroken(a) && Unbroken(b)
    ensures Unbroken(a + b)
  {
    forall i | 0 <= i < |a + b| ensures (a + b)[i] != '!' && (a + b)[i] != '\n' {
      if i >= |a| {
        assert (a + b)[i] == b[i - |a|];
      }
    }
  }

  lemma InjectionUnbroken()
    ensures Unbroken(Injection)
  {
    var p1, p2 := "(case+when+((ASCII(SUBSTR(", "(select+table_name+from+all_tables+";
    var p3, p4 := "where+rownum%3d1),1))>%3D128))+", "then+id+else+something+end)";
    assert Unbroken(p1);
    assert Unbroken(p2);
    assert Unbroken(p3);
    assert Unbroken(p4);
    UnbrokenAppend(p1, p2);
    UnbrokenAppend(p1 + p2, p3);
    UnbrokenAppend(p1 + p2 + p3, p4);
  }

  /** The injection payload yields no entry: it does not end in `_asc` or `_desc`. */
  lemma InjectionExample()
    ensures ParseSort(Injection) == []
  {
    InjectionUnbroken();
    assert '!' !in Injection && '\n' !in Injection;
    assert Injection[|Injection| - 1] == ')';
    ParseSortRejects(Injection);
  }

  // ---------------------------------------------------------------------------
  // default, apply_whitelist, initialize_whitelist
  // ---------------------------------------------------------------------------

  lemma PhoneIsNew()
    ensures !Mentions(Sorted, "phone")
  {
  }

  lemma SortedMentionsEmail()
    ensures Mentions(Sorted, "email")
  {
    assert Sorted[0].field == "email";
  }

  lemma CombinedMentionsName()
    ensures Mentions(Combined, "name")
  {
    assert Combined[1].field == "name";
  }

  /** `email ASC` is skipped: the sorts already name `email`. */
  lemma MergeFirstTurn()
    ensures MergeOrders(Sorted, Ordered) == MergeOrders(Sorted, [PhoneAsc, NameDesc])
  {
    SortedMentionsEmail();
    assert Ordered == [EmailAsc] + [PhoneAsc, NameDesc];
    MergeSkip(Sorted, EmailAsc, [PhoneAsc, NameDesc]);
  }

  /** `phone ASC` is appended: nothing names `phone` yet. */
  lemma MergeSecondTurn()
    ensures MergeOrders(Sorted, [PhoneAsc, NameDesc]) == MergeOrders(Combined, [NameDesc])
  {
    PhoneIsNew();
    assert [PhoneAsc, NameDesc] == [PhoneAsc] + [NameDesc];
    MergeKeep(Sorted, PhoneAsc, [NameDesc]);
    assert Sorted + [PhoneAsc] == Combined;
  }

  /** `name DESC` is skipped: the sorts already name `name`. */
  lemma MergeThirdTurn()
    ensures MergeOrders(Combined, [NameDesc]) == Combined
  {
    CombinedMentionsName();
    assert [NameDesc] == [NameDesc] + [];
    MergeSkip(Combined, NameDesc, []);
  }

  /** Sort entries take priority: `email ASC` and `name DESC` lose to the sort string's entries. */
  lemma MergeExample()
    ensures MergeOrders(Sorted, Ordered) == Combined
  {
    MergeFirstTurn();
    MergeSecondTurn();
    MergeThirdTurn();
  }

  lemma OrdersAreNew()
    ensures !Mentions([], "email")
    ensures !Mentions([EmailAsc], "phone")
    ensures !Mentions([EmailAsc, PhoneAsc], "name")
  {
  }

  lemma OnlyFirstTurn()
    ensures MergeOrders([], Ordered) == MergeOrders([EmailAsc], [PhoneAsc, NameDesc])
  {
    OrdersAreNew();
    assert Ordered == [EmailAsc] + [PhoneAsc, NameDesc];
    MergeKeep([], EmailAsc, [PhoneAsc, NameDesc]);
    assert [] + [EmailAsc] == [EmailAsc];
  }

  lemma OnlySecondTurn()
    ensures MergeOrders([EmailAsc], [PhoneAsc, NameDesc]) == MergeOrders([EmailAsc, PhoneAsc], [NameDesc])
  {
    OrdersAreNew();
    assert [PhoneAsc, NameDesc] == [PhoneAsc] + [NameDesc];
    MergeKeep([EmailAsc], PhoneAsc, [NameDesc]);
    assert [EmailAsc] + [PhoneAsc] == [EmailAsc, PhoneAsc];
  }

  lemma OnlyThirdTurn()
    ensures MergeOrders([EmailAsc, PhoneAsc], [NameDesc]) == Ordered
  {
    OrdersAreNew();
    assert [NameDesc] == [NameDesc] + [];
    MergeKeep([EmailAsc, PhoneAsc], NameDesc, []);
    assert [EmailAsc, PhoneAsc] + [NameDesc] == Ordered;
  }

  /** With no sort entries and distinct order fields, every order entry is kept. */
  lemma MergeOrdersOnlyExample()
    ensures MergeOrders([], Ordered) == Ordered
  {
    OnlyFirstTurn();
    OnlySecondTurn();
    OnlyThirdTurn();
  }

  /** The whitelist keeps only the named fields, in their merged order. */
  lemma WhitelistExample()
    ensures ApplyWhitelist(Combined, Some(["name", "email"])) == Sorted
  {
    var allowed := ["name", "email"];
    assert Permitted(EmailDesc, allowed);
    assert Permitted(NameDesc, allowed);
    assert !Permitted(PhoneAsc, allowed);
    assert Combined[1..] == [NameDesc, PhoneAsc];
    assert Combined[1..][1..] == [PhoneAsc];
    assert Select([PhoneAsc], allowed) == [];
    assert Select([NameDesc, PhoneAsc], allowed) == [NameDesc];
  }

  /** A list of two strings is the whitelist holding those two names. */
  lemma WhitelistOfNames()
    ensures InitializeWhitelist(List([Str("name"), Str("email")])) == Some(["name", "email"])
  {
    WhitelistItem(Str("name"));
    WhitelistItem(Str("email"));
    WhitelistConcat([Str("name")], [Str("email")]);
    assert [Str("name")] + [Str("email")] == [Str("name"), Str("email")];
    assert ["name"] + ["email"] == ["name", "email"];
  }

  /** The table part of the whitelist test: qualified column names only. */
  lemma TableWhitelisted()
    ensures InitializeWhitelist(List([Table("faketable", ["field1", "field2"])])).value
         == ["faketable.field1", "faketable.field2"]
  {
    WhitelistItem(Table("faketable", ["field1", "field2"]));
    assert "faketable" + "." + "field1" == "faketable.field1";
    assert "faketable" + "." + "field2" == "faketable.field2";
  }

  lemma StringsWhitelisted()
    ensures InitializeWhitelist(List([Str("name"), Str("group.email")])).value == ["name", "group.email"]
  {
    WhitelistItem(Str("name"));
    WhitelistItem(Str("group.email"));
    WhitelistConcat([Str("name")], [Str("group.email")]);
    assert [Str("name")] + [Str("group.email")] == [Str("name"), Str("group.email")];
    assert ["name"] + ["group.email"] == ["name", "group.email"];
  }

  /**
   * Strings and table descriptions: a table contributes only its qualified
   * column names, so no bare `field1` or `field2` appears.
   */
  lemma WhitelistFromModelsExample()
    ensures InitializeWhitelist(List([Str("name"), Str("group.email"), Table("faketable", ["field1", "field2"])]))
         == Some(["name", "group.email", "faketable.field1", "faketable.field2"])
  {
    var t := Table("faketable", ["field1", "field2"]);
    StringsWhitelisted();
    TableWhitelisted();
    WhitelistConcat([Str("name"), Str("group.email")], [t]);
    assert [Str("name"), Str("group.email")] + [t] == [Str("name"), Str("group.email"), t];
    assert ["name", "group.email"] + ["faketable.field1", "faketable.field2"]
        == ["name", "group.email", "faketable.field1", "faketable.field2"];
  }

  // ---------------------------------------------------------------------------
  // to_s, to_hash, to_sql
  // ---------------------------------------------------------------------------

  lemma CombinedSortString()
    ensures ToSortString(Combined) == "email_desc!name_desc!phone_asc"
  {
    assert SortToken(Combined[0]) == "email_desc";
    assert SortToken(Combined[1]) == "name_desc";
    assert SortToken(Combined[2]) == "phone_asc";
    assert Tokens(Combined) == ["email_desc", "name_desc", "phone_asc"];
    assert Join(["email_desc", "name_desc", "phone_asc"], "!")
        == "email_desc" + "!" + ("name_desc" + "!" + "phone_asc");
    assert "email_desc" + "!" + ("name_desc" + "!" + "phone_asc") == "email_desc!name_desc!phone_asc";
  }

  /** Each field maps to its entry's direction. */
  lemma HashExample()
    ensures ToHash(Combined) == map["email" := "desc", "name" := "desc", "phone" := "asc"]
  {
    var h := ToHash(Combined);
    assert LastWithField(Combined, 0) && LastWithField(Combined, 1) && LastWithField(Combined, 2);
    assert h.Keys == {"email", "name", "phone"};
  }

  /** A field without a dot is quoted as one piece. */
  lemma BacktickWord(field: string, dir: string, text: string)
    requires field != [] && forall i :: 0 <= i < |field| ==> field[i] != '.'
    requires text == "`" + field + "` " + Upcase(dir)
    ensures SqlFragment(Entry(field, dir), Backtick) == text
  {
    assert '.' !in field;
    assert Join([field], ".") == field;
    ColumnQuotesPieces([field], Backtick);
    assert QuoteAll([field], Backtick) == ["`" + field + "`"];
  }

  lemma UpcaseAsc()
    ensures Upcase("asc") == "ASC"
  {
  }

  lemma UpcaseDesc()
    ensures Upcase("desc") == "DESC"
  {
  }

  /** Two clauses joined with `", "`. */
  lemma SqlJoin(es: seq<Entry>, f: string, rest: string, z: string)
    requires |es| >= 2
    requires SqlFragment(es[0], Backtick) == f && ToSql(es[1..], Backtick) == rest
    requires z == f + ", " + rest
    ensures ToSql(es, Backtick) == z
  {
    ToSqlCons(es, Backtick);
  }

  /** The clause of a single entry is its fragment. */
  lemma SqlLast(e: Entry, f: string)
    requires SqlFragment(e, Backtick) == f
    ensures ToSql([e], Backtick) == f
  {
    ToSqlSingle(e, Backtick);
  }

  lemma EmailDescQuoted()
    ensures SqlFragment(EmailDesc, Backtick) == "`email` DESC"
  {
    UpcaseDesc();
    assert "`" + "email" + "` " + "DESC" == "`email` DESC";
    BacktickWord("email", "desc", "`email` DESC");
  }

  lemma EmailAscQuoted()
    ensures SqlFragment(EmailAsc, Backtick) == "`email` ASC"
  {
    UpcaseAsc();
    assert "`" + "email" + "` " + "ASC" == "`email` ASC";
    BacktickWord("email", "asc", "`email` ASC");
  }

  lemma NameDescQuoted()
    ensures SqlFragment(NameDesc, Backtick) == "`name` DESC"
  {
    UpcaseDesc();
    assert "`" + "name" + "` " + "DESC" == "`name` DESC";
    BacktickWord("name", "desc", "`name` DESC");
  }

  lemma PhoneAscQuoted()
    ensures SqlFragment(PhoneAsc, Backtick) == "`phone` ASC"
  {
    UpcaseAsc();
    assert "`" + "phone" + "` " + "ASC" == "`phone` ASC";
    BacktickWord("phone", "asc", "`phone` ASC");
  }

  lemma CombinedSqlTailText()
    ensures "`name` DESC, `phone` ASC" == "`name` DESC" + ", " + "`phone` ASC"
  {
  }

  lemma CombinedSqlTail()
    ensures ToSql([NameDesc, PhoneAsc], Backtick) == "`name` DESC, `phone` ASC"
  {
    NameDescQuoted();
    PhoneAscQuoted();
    SqlLast(PhoneAsc, "`phone` ASC");
    CombinedSqlTailText();
    assert [NameDesc, PhoneAsc][1..] == [PhoneAsc];
    SqlJoin([NameDesc, PhoneAsc], "`name` DESC", "`phone` ASC", "`name` DESC, `phone` ASC");
  }

  lemma CombinedSqlText()
    ensures "`email` DESC, `name` DESC, `phone` ASC" == "`email` DESC" + ", " + "`name` DESC, `phone` ASC"
  {
  }

  /** The clause of the combined test with the backtick quoter. */
  lemma CombinedSql()
    ensures ToSql(Combined, Backtick) == "`email` DESC, `name` DESC, `phone` ASC"
  {
    EmailDescQuoted();
    CombinedSqlTail();
    CombinedSqlText();
    assert Combined[1..] == [NameDesc, PhoneAsc];
    SqlJoin(Combined, "`email` DESC", "`name` DESC, `phone` ASC", "`email` DESC, `name` DESC, `phone` ASC");
  }

  lemma OrderedSqlTailText()
    ensures "`phone` ASC, `name` DESC" == "`phone` ASC" + ", " + "`name` DESC"
  {
  }

  lemma OrderedSqlTail()
    ensures ToSql([PhoneAsc, NameDesc], Backtick) == "`phone` ASC, `name` DESC"
  {
    PhoneAscQuoted();
    NameDescQuoted();
    SqlLast(NameDesc, "`name` DESC");
    OrderedSqlTailText();
    assert [PhoneAsc, NameDesc][1..] == [NameDesc];
    SqlJoin([PhoneAsc, NameDesc], "`phone` ASC", "`name` DESC", "`phone` ASC, `name` DESC");
  }

  lemma OrderedSqlText()
    ensures "`email` ASC, `phone` ASC, `name` DESC" == "`email` ASC" + ", " + "`phone` ASC, `name` DESC"
  {
  }

  /** The clause of the injection test with the backtick quoter. */
  lemma OrderedSql()
    ensures ToSql(Ordered, Backtick) == "`email` ASC, `phone` ASC, `name` DESC"
  {
    EmailAscQuoted();
    OrderedSqlTail();
    OrderedSqlText();
    assert Ordered[1..] == [PhoneAsc, NameDesc];
    SqlJoin(Ordered, "`email` ASC", "`phone` ASC, `name` DESC", "`email` ASC, `phone` ASC, `name` DESC");
  }

  lemma UsersNameJoined()
    ensures Join(["users", "name"], ".") == "users.name"
  {
    assert Join(["users", "name"], ".") == "users" + "." + "name";
  }

  lemma UsersNameQuoted()
    ensures QuoteAll(["users", "name"], Backtick) == ["`users`", "`name`"]
  {
    assert Backtick("users") == "`users`";
    assert Backtick("name") == "`name`";
  }

  lemma QuotedPiecesJoined()
    ensures Join(["`users`", "`name`"], ".") == "`users`.`name`"
  {
    assert Join(["`users`", "`name`"], ".") == "`users`" + "." + "`name`";
  }

  /** Each piece of a dotted field is quoted on its own. */
  lemma UsersNameColumn()
    ensures Column("users.name", Backtick) == "`users`.`name`"
  {
    UsersNameJoined();
    ColumnQuotesPieces(["users", "name"], Backtick);
    UsersNameQuoted();
    QuotedPiecesJoined();
  }

  lemma UsersNameFragmentText()
    ensures "`users`.`name`" + " " + "DESC" == "`users`.`name` DESC"
  {
  }

  /** The dotted-field fragment of the quoter test. */
  lemma BacktickExample()
    ensures SqlFragment(Entry("users.name", "desc"), Backtick) == "`users`.`name` DESC"
  {
    UsersNameColumn();
    UpcaseDesc();
    UsersNameFragmentText();
  }

  lemma TrailingDotSplit()
    ensures Split("users.", '.') == ["users"]
  {
    assert "users." == "users" + ['.'] + "";
    SplitAtSep("users", "", '.');
    SplitWithoutSep("users", '.');
    assert SplitAll("users.", '.') == ["users", ""];
  }

  /** A field ending in `.` loses the dot: Ruby's `split` drops the trailing empty piece. */
  lemma TrailingDotExample()
    ensures Column("users.", Identity) == "users"
  {
    TrailingDotSplit();
    QuoteAllIdentity(["users"]);
  }


  lemma UsersNameOrderText()
    ensures "users.name DESC" == "users.name" + " " + "DESC"
  {
  }

  lemma UsersNameOrder()
    ensures ParseOrder("users.name DESC") == [Entry("users.name", "desc")]
    ensures MergeOrders([], [Entry("users.name", "desc")]) == [Entry("users.name", "desc")]
  {
    UsersNameOrderText();
    DescSegment("users.name");
    assert Flatten([]) == [];
  }

  /** A missing sort parameter (`nil`) has no entries. */
  lemma ParseSortEmpty()
    ensures ParseSort("") == []
  {
    ParseSortPieces([]);
  }

  // ---------------------------------------------------------------------------
  // The parser object
  // ---------------------------------------------------------------------------

  /** The sort string's entries come first, then the order entries for new fields. */
  method CombinedExample() returns (a: seq<Entry>)
    ensures a == Combined
  {
    SortStringExample();
    OrderStringExample();
    MergeExample();
    var p := new Parser(SortString, OrderString, Nil);
    a := p.ToA();
  }

  /** A whitelist of two names keeps only the sort entries for those fields. */
  method WhitelistedExample() returns (a: seq<Entry>)
    ensures a == Sorted
  {
    SortStringExample();
    OrderStringExample();
    MergeExample();
    WhitelistOfNames();
    WhitelistExample();
    var p := new Parser(SortString, OrderString, List([Str("name"), Str("email")]));
    a := p.ToA();
  }

  /**
   * Leaving the whitelist out gives the default `[]`, which permits nothing:
   * the parser then answers with no entries at all.
   */
  method DefaultWhitelistExample() returns (a: seq<Entry>)
    ensures a == []
  {
    var p := new Parser(SortString, OrderString);
    EmptyWhitelistRejectsAll(MergeOrders(p.sorts, p.orders));
    a := p.ToA();
  }

  /** `to_s`, `to_hash` and `to_sql` of the combined test, all served from one cache. */
  method RenderingsExample() returns (s: string, h: map<string, string>, sql: string)
    ensures s == "email_desc!name_desc!phone_asc"
    ensures h == map["email" := "desc", "name" := "desc", "phone" := "asc"]
    ensures sql == "`email` DESC, `name` DESC, `phone` ASC"
  {
    SortStringExample();
    OrderStringExample();
    MergeExample();
    CombinedSortString();
    HashExample();
    CombinedSql();
    var p := new Parser(SortString, OrderString, Nil);
    s := p.ToS();
    h := p.ToHash();
    sql := p.ToSql(Backtick);
  }

  /** The injection payload contributes nothing; the clause comes from the order string alone. */
  method InjectionSqlExample() returns (sql: string)
    ensures sql == "`email` ASC, `phone` ASC, `name` DESC"
  {
    InjectionExample();
    OrderStringExample();
    MergeOrdersOnlyExample();
    OrderedSql();
    var p := new Parser(Injection, OrderString, Nil);
    sql := p.ToSql(Backtick);
  }

  /** The dotted field of the quoter test is quoted piece by piece. */
  method QuotedColumnExample() returns (sql: string)
    ensures sql == "`users`.`name` DESC"
  {
    var e := Entry("users.name", "desc");
    UsersNameOrder();
    ParseSortEmpty();
    BacktickExample();
    ToSqlSingle(e, Backtick);
    var p := new Parser("", "users.name DESC", Nil);
    sql := p.ToSql(Backtick);
  }
}
