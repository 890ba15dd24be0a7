# Sorted::Parser in Dafny

This project models the parser at the heart of the `sorted` Ruby gem. The
parser takes two inputs:

- a compact sort parameter from a query string, such as `email_desc!name_desc`;
- a default SQL order string, such as `email ASC, phone ASC, name DESC`.

It turns them into one ordered list of `(field, direction)` pairs. Only field
names made of `[A-Za-z0-9._]` get through, which keeps injected SQL out. An
optional whitelist filters the list further. The list can be written back out
three ways:

- as a canonical sort string (`to_s`);
- as an ORDER BY clause with a caller-supplied column quoter (`to_sql`);
- as a hash (`to_hash`).

The parser object caches the list. `reset` recomputes the cache and `toggle`
replaces it.

Modules, one per part of `lib/sorted/parser.rb`:

- `Text` (text.dfy): the character classes of the two regular expressions,
  Ruby's `split`, `join`, `downcase` and `upcase`.
- `Entries` (entries.dfy): the `(field, direction)` pair, `map ... compact`,
  and subsequences.
- `Tokenizer` (tokenizer.dfy): `parse_sort` and `parse_order`. Each regular
  expression is modelled by what its leftmost match is, not by a regex engine.
- `Merge` (merge.dfy): the loop of `default` as a function, with its
  properties.
- `Whitelist` (whitelist.dfy): `initialize_whitelist` and `apply_whitelist`.
- `Render` (render.dfy): `to_s`, `to_sql` and `to_hash`, and the round trips
  back through the tokenisers.
- `SortedParser` (parser.dfy): the `Parser` class, with its `@array` cache,
  `default` as a loop, and the cache-driven methods.
- `ParserExamples` (examples.dfy): the repository's test cases, stated on
  their concrete inputs. Where the code differs from a test's expectation,
  the lemma states what the code does.

Inputs are modelled as follows:

- A `nil` sort or order is modelled as the empty string, which is what
  `nil.to_s` gives.
- The symbol `:email` is modelled as its name.
- The duck-typed whitelist argument is the datatype `Whitelist.Source`.
- The column quoter and the Toggler are function parameters.

## Model

| member | source | states |
|---|---|---|
| Text.Split | lib/sorted/parser.rb:25 | Ruby's `split`: no piece holds the separator and the last piece is never empty. `Text.SplitKeepsAll` says that it keeps every piece when the text does not end in the separator. `Text.JoinOfSplit` and `Text.SplitOfJoin` say that `Join` inverts the full list of pieces |
| Text.Join | lib/sorted/parser.rb:52 | Ruby's `Array#join`. It has no ensures of its own: `Text.JoinOfSplit` and `Text.SplitOfJoin` state that it inverts the full list of pieces that `split` starts from |
| Entries.Compact | lib/sorted/parser.rb:25-29 | `map ... compact`: at most one result per piece, and each result is what `f` gives for some piece. `Entries.CompactAppend` says it works piece by piece, and `Entries.CompactAllDefined` says it keeps every defined result in order |
| Tokenizer.SuffixEntry | lib/sorted/parser.rb:13 | a word of field characters yields an entry exactly when it ends in `_asc`/`_desc` after a non-empty field; the entry is well formed and writes back to the word |
| Tokenizer.SortMatch | lib/sorted/parser.rb:13 | any entry the sort regex finds has a non-empty `[A-Za-z0-9._]` field and direction `asc` or `desc` |
| Tokenizer.SortSegment | lib/sorted/parser.rb:13 | on a segment without a line feed, an entry is found iff the segment ends in `<field char>_asc` or `_desc`; the entry's token is then the end of the segment, preceded by no field character (leading junk is skipped, not rejected) |
| Tokenizer.SuffixInWord | lib/sorted/parser.rb:13 | a non-field character anywhere before the suffix does not change whether a segment has a sort suffix |
| Tokenizer.ParseSort | lib/sorted/parser.rb:24-30 | every entry of `parse_sort` has a non-empty `[A-Za-z0-9._]` field and direction `asc` or `desc` |
| Tokenizer.ParseSortPieces | lib/sorted/parser.rb:25-29 | dropping trailing empty pieces in `split` changes nothing: the result is the matches of all pieces, in order |
| Tokenizer.ParseSortConcat | lib/sorted/parser.rb:24-30 | segments separated by `!` are parsed independently and their entries kept in segment order |
| Tokenizer.ParseSortSegment | lib/sorted/parser.rb:24-30 | a text without `!` yields at most one entry, the regex's match |
| Tokenizer.ParseSortRejects | lib/sorted/parser.rb:13 | a sort parameter without `!` or line feed that does not end in `<field>_asc`/`_desc` yields no entry, whatever else it holds |
| Tokenizer.LowerDirChar | lib/sorted/parser.rb:14 | a character of the class `[asc\|desc]` lowercases to one of `a s c d e \|` |
| Tokenizer.DirectionAfter | lib/sorted/parser.rb:14 | the direction read after a field is a non-empty run over `a s c d e \|` |
| Tokenizer.OrderMatch | lib/sorted/parser.rb:14 | a segment yields an entry iff it holds a field character; the entry has a non-empty field name and a direction run |
| Tokenizer.OrderSegment | lib/sorted/parser.rb:14 | after junk without field characters, the field is the maximal run of field characters and the direction is what follows it |
| Tokenizer.OrderMatchSkipsJunk | lib/sorted/parser.rb:14 | the order regex is unanchored: leading text without field characters does not change the match |
| Tokenizer.ParseOrder | lib/sorted/parser.rb:32-38 | every entry of `parse_order` has a non-empty field name and a lowercased direction run |
| Tokenizer.ParseOrderPieces | lib/sorted/parser.rb:33-37 | dropping trailing empty pieces in `split` changes nothing |
| Tokenizer.ParseOrderConcat | lib/sorted/parser.rb:32-38 | segments separated by `,` are parsed independently, in order |
| Tokenizer.ParseOrderSegment | lib/sorted/parser.rb:32-38 | a text without `,` yields at most one entry, the regex's match |
| Tokenizer.ParseOrderSkipsJunk | lib/sorted/parser.rb:32-38 | leading blanks (as after the comma of `a ASC, b DESC`) do not change the parse |
| Tokenizer.ParseOrderCommaBlank | lib/sorted/parser.rb:32-38 | two order strings joined with `", "` parse as the entries of the first followed by those of the second |
| Tokenizer.DirectionOfRun | lib/sorted/parser.rb:14 | one whitespace character and a run of class characters give that run, lowercased |
| Tokenizer.ParseOrderFieldDir | lib/sorted/parser.rb:32-38 | `field<space>RUN` parses to the one entry `(field, downcase(RUN))` |
| Tokenizer.ParseOrderBareField | lib/sorted/parser.rb:35 | a bare field gets the direction `asc` |
| Merge.Flatten | lib/sorted/parser.rb:104 | `flatten` of the pairs lists field, direction, field, direction, … in entry order |
| Merge.FlattenMentions | lib/sorted/parser.rb:104 | `flatten.include?(x)` holds iff some entry has `x` as its field or as its direction |
| Merge.MergeOrders | lib/sorted/parser.rb:102-105 | the `orders.each` loop of `default` as a function. It has no ensures of its own: `Merge.MergeSkip` and `Merge.MergeKeep` give its step rule, and `Merge.MergePrefix`, `Merge.MergeTail`, `Merge.MergeFresh`, `Merge.MergeCovers` and `Merge.MergeMembers` state what it returns |
| Merge.MergeSkip | lib/sorted/parser.rb:103-104 | an order entry whose field the list already mentions is skipped: the merge goes on as if it were absent |
| Merge.MergeKeep | lib/sorted/parser.rb:103-104 | an order entry whose field the list does not mention is appended before the merge goes on |
| Merge.MergePrefix | lib/sorted/parser.rb:101-105 | the merge keeps the starting `sorts.dup` unchanged as a prefix |
| Merge.MergeTail | lib/sorted/parser.rb:103-105 | what follows the prefix is a subsequence of the orders, in their order |
| Merge.MergeFresh | lib/sorted/parser.rb:104 | no appended entry's field is mentioned, as a field or a direction, by any entry before it |
| Merge.MergeCovers | lib/sorted/parser.rb:103-105 | the field of every order entry is mentioned somewhere in the result, possibly by a later entry. The exact rule for each step is stated by `Merge.MergeSkip` and `Merge.MergeKeep` |
| Merge.MergePriority | lib/sorted/parser.rb:101-105 | the sorts are a prefix, and after them no entry repeats an earlier field, so a sort entry beats an order entry for its field |
| Merge.MergeMembers | lib/sorted/parser.rb:101-105 | each merged entry is a sort entry, or an order entry whose field no sort entry mentions |
| Whitelist.FlattenSources | lib/sorted/parser.rb:80 | `flatten` leaves no nested list |
| Whitelist.InitializeWhitelist | lib/sorted/parser.rb:71-72 | the whitelist is "no restriction" iff the argument is `nil` |
| Whitelist.Emitted | lib/sorted/parser.rb:81-86 | what one flattened item contributes. It has no ensures of its own: `Whitelist.WhitelistItem` states it per kind of item |
| Whitelist.EmitAll | lib/sorted/parser.rb:80-87 | `map ... compact.flatten(1)` over the flattened items. It has no ensures of its own: `Whitelist.WhitelistConcat` states that it works part by part |
| Whitelist.WhitelistConcat | lib/sorted/parser.rb:80-87 | the whitelist of a list is the whitelists of its parts, concatenated in order |
| Whitelist.WhitelistItem | lib/sorted/parser.rb:80-87 | a string is emitted verbatim, a table as its `"table.column"` names in column order, a nested list as its own whitelist, anything else as nothing |
| Whitelist.WhitelistWrapsSingle | lib/sorted/parser.rb:73-78 | an argument that is not a list is treated as the list holding only it |
| Whitelist.Select | lib/sorted/parser.rb:92-94 | the result is a subsequence of the input, and an entry is in it iff it is in the input with a whitelisted field and direction `asc` or `desc`. `Whitelist.SelectCounts` adds that duplicates are kept |
| Whitelist.ApplyWhitelist | lib/sorted/parser.rb:90-95 | no whitelist returns the input unchanged; otherwise the result is a subsequence in which every entry is permitted, and each permitted entry occurs exactly as often as in the input |
| Whitelist.SelectCounts | lib/sorted/parser.rb:92-94 | every occurrence of a permitted entry is kept, duplicates included, and no occurrence of any other entry |
| Whitelist.SelectAppend | lib/sorted/parser.rb:92-94 | `select` decides entry by entry: filtering a concatenation gives the two filtered parts, concatenated |
| Whitelist.SelectSingle | lib/sorted/parser.rb:92-94 | one entry is kept exactly when its field is whitelisted and its direction is `asc` or `desc` |
| Whitelist.SelectKeepsPermitted | lib/sorted/parser.rb:92-94 | a list of permitted entries passes unchanged |
| Whitelist.ApplyWhitelistIdempotent | lib/sorted/parser.rb:90-95 | filtering twice is filtering once |
| Whitelist.EmptyWhitelistRejectsAll | lib/sorted/parser.rb:16 | the constructor's default whitelist `[]` lets no entry through |
| Render.ToSortString | lib/sorted/parser.rb:51-53 | `to_s` on a list of entries. It has no ensures of its own: `Render.ToSortStringCons` gives its shape, and `Render.SortStringRoundTrip` says `parse_sort` inverts it |
| Render.ToSortStringCons | lib/sorted/parser.rb:52 | the sort string is the first token, `!`, then the sort string of the rest |
| Render.SortTokenMatches | lib/sorted/parser.rb:13 | a well-formed entry's `field_dir` token uses only field characters, and the sort regex reads the entry back from it |
| Render.SortStringSingle | lib/sorted/parser.rb:24-30 | the token of one well-formed entry holds no `!` and parses back to that entry alone |
| Render.SortStringCons | lib/sorted/parser.rb:24-30 | a well-formed entry put in front of a sort string that parses back yields a sort string that parses back |
| Render.SortStringRoundTrip | lib/sorted/parser.rb:24-30 | `parse_sort` of the `to_s` string of well-formed entries gives the same entries back |
| Render.SortStringNormalises | lib/sorted/parser.rb:51-53 | for any sort parameter, writing its entries out and parsing again gives the same entries |
| Render.Column | lib/sorted/parser.rb:46 | the quoted column of a field. It has no ensures of its own: `Render.ColumnQuotesPieces` and `Render.ColumnIdentity` state it |
| Render.SqlFragment | lib/sorted/parser.rb:46-47 | the fragment of one entry. It has no ensures of its own: `Render.FragmentText`, `Render.FragmentNoComma` and `Render.FragmentRoundTrip` state it |
| Render.ToSql | lib/sorted/parser.rb:44-49 | `to_sql` on a list of entries. It has no ensures of its own: `Render.ToSqlSingle` and `Render.ToSqlCons` give its shape, and `Render.SqlRoundTrip` says `parse_order` inverts it |
| Render.ToSqlSingle | lib/sorted/parser.rb:44-49 | the clause of one entry is its fragment |
| Render.ToSqlCons | lib/sorted/parser.rb:48 | the clause is the first fragment, `", "`, then the clause of the rest |
| Render.ColumnQuotesPieces | lib/sorted/parser.rb:46 | a dotted field is quoted piece by piece and rejoined with `.`, whatever the quoter does |
| Render.ColumnIdentity | lib/sorted/parser.rb:44-46 | with the default quoter, a field not ending in `.` is written unchanged |
| Render.DirectionReadBack | lib/sorted/parser.rb:14 | an upcased `asc`/`desc` after a blank is read back as that direction by the order regex |
| Render.FragmentText | lib/sorted/parser.rb:44-47 | with the default quoter a fragment is the field, a blank and the upcased direction |
| Render.FragmentNoComma | lib/sorted/parser.rb:47 | such a fragment holds no comma |
| Render.FragmentRoundTrip | lib/sorted/parser.rb:14 | the order regex reads a fragment back as its entry |
| Render.SqlSingle | lib/sorted/parser.rb:32-38 | `parse_order` reads the clause of one entry back as that entry |
| Render.SqlCons | lib/sorted/parser.rb:32-38 | an entry put in front of a clause that parses back yields a clause that parses back |
| Render.SqlRoundTrip | lib/sorted/parser.rb:44-49 | `parse_order` of the `to_sql` clause (default quoter) of well-formed entries whose fields do not end in `.` gives the entries back |
| Render.ToHash | lib/sorted/parser.rb:40-42 | the keys are exactly the fields, and each field maps to the direction of its last entry |
| SortedParser.DefaultOrdering | lib/sorted/parser.rb:101-107 | `default` as a function. It has no ensures of its own: `SortedParser.DefaultContents` and `SortedParser.DefaultStartsWithSorts` state what it returns, and `SortedParser.Parser.Default` is proved equal to it |
| SortedParser.DefaultContents | lib/sorted/parser.rb:101-107 | the default ordering obeys the whitelist; each entry is a sort entry or an order entry for a field no sort entry mentions; every permitted sort entry is present |
| SortedParser.DefaultStartsWithSorts | lib/sorted/parser.rb:101-107 | without a whitelist the sorts open the default ordering, unchanged |
| SortedParser.Parser.constructor | lib/sorted/parser.rb:16-22 | the parser keeps both inputs, their parses and the whitelist built from the argument, with an empty cache |
| SortedParser.Parser.Default | lib/sorted/parser.rb:101-107 | the loop computes the merge followed by the whitelist, and the result obeys the whitelist |
| SortedParser.Parser.Array | lib/sorted/parser.rb:97-99 | answers the cache, filling it with the default ordering when empty; the answer obeys the whitelist |
| SortedParser.Parser.ToA | lib/sorted/parser.rb:55-57 | answers the cached list and leaves it cached |
| SortedParser.Parser.ToS | lib/sorted/parser.rb:51-53 | the sort string of the cached list |
| SortedParser.Parser.ToSql | lib/sorted/parser.rb:44-49 | the ORDER BY clause of the cached list with the given quoter |
| SortedParser.Parser.ToHash | lib/sorted/parser.rb:40-42 | the hash of the cached list |
| SortedParser.Parser.Toggle | lib/sorted/parser.rb:59-62 | the cache becomes the toggled ordering filtered through the whitelist |
| SortedParser.Parser.Reset | lib/sorted/parser.rb:64-67 | the cache becomes the default ordering again |
| SortedParser.CacheIsStable | lib/sorted/parser.rb:55-67 | two calls of `to_a` agree; after `toggle` the list is the filtered toggled ordering; after `reset` it is the default ordering; each answer obeys the whitelist |
| ParserExamples.OrderStringExample | spec/sorted/parser_spec.rb:8-15 | `email ASC, phone ASC, name DESC` parses to the three entries in order |
| ParserExamples.SortStringExample | spec/sorted/parser_spec.rb:17-24 | `email_desc!name_desc` parses to its two entries |
| ParserExamples.CombinedExample | spec/sorted/parser_spec.rb:26-33 | the sort entries come first; `phone asc` is the only order entry added |
| ParserExamples.MergeExample | spec/sorted/parser_spec.rb:26-33 | the merge of those sorts and orders |
| ParserExamples.DottedSortExample | spec/sorted/parser_spec.rb:35-42 | dotted and numbered fields pass the sort grammar |
| ParserExamples.DottedOrderExample | spec/sorted/parser_spec.rb:44-51 | dotted and numbered fields pass the order grammar |
| ParserExamples.BareOrderExample | spec/sorted/parser_spec.rb:53-60 | the order `:email` gives `email asc` |
| ParserExamples.WhitelistedExample | spec/sorted/parser_spec.rb:62-69 | the whitelist `["name", "email"]` keeps the two sort entries |
| ParserExamples.WhitelistExample | spec/sorted/parser_spec.rb:62-69 | filtering the merged list through that whitelist |
| ParserExamples.QuotedColumnExample | spec/sorted/parser_spec.rb:113-119 | with the backtick quoter, each piece of the order `users.name DESC` is quoted on its own |
| ParserExamples.RenderingsExample | spec/sorted/parser_spec.rb:121-146 | the clause, hash and sort string of the combined test |
| ParserExamples.InjectionExample | spec/sorted/parser_spec.rb:148-155 | the injection payload yields no sort entry |
| ParserExamples.InjectionSqlExample | spec/sorted/parser_spec.rb:148-155 | the clause then comes from the order string alone |
| ParserExamples.WhitelistFromModelsExample | spec/sorted/parser_spec.rb:159-164 | strings and a table give the strings and the qualified column names only |
| ParserExamples.CharacterClassDirection | lib/sorted/parser.rb:14 | `x cad` gives the direction `cad`: `[asc\|desc]` is a character class |
| ParserExamples.TrailingDotExample | lib/sorted/parser.rb:46 | a field ending in `.` loses the dot in `to_sql` |
| ParserExamples.DefaultWhitelistExample | lib/sorted/parser.rb:16 | without a whitelist argument the parser answers no entries |

## Left out

- The Toggler (`lib/sorted/toggler.rb`) is not part of this model. `Parser.Toggle` takes the toggling rule as a function of the sorts and the orders.
- The ORM adapters (`lib/sorted/orms/active_record.rb` and `lib/sorted/orms/mongoid.rb`) are not modelled. They are thin calls into ActiveRecord and Mongoid. `lib/sorted/orms/active_record.rb:11` passes five arguments to a constructor that takes three (`lib/sorted/parser.rb:16`).
- The tests expect features that `lib/sorted/parser.rb` does not implement. The model follows the code for each:
  - a custom rendering list (`spec/sorted/parser_spec.rb:91-99`);
  - a logger for rejected fields (`spec/sorted/parser_spec.rb:80-89`);
  - bare column names added to a whitelist built from tables (`spec/sorted/parser_spec.rb:159-177`). The code emits only `table.column` (`lib/sorted/parser.rb:85`), and `ParserExamples.WhitelistFromModelsExample` states that.
- The usage comment at `lib/sorted/parser.rb:8` does not hold for the code. The default whitelist is `[]`, which filters out every entry (`ParserExamples.DefaultWhitelistExample`).
- `toggle` and `reset` return `self` for chaining. In the model they return nothing.
- `nil` and symbols are modelled by their `to_s`, the empty string and the symbol's name. An object whose `to_s` is something else is not modelled.
- `Tokenizer.OrderMatch` does not model non-ASCII case-fold matches. The order regex (`lib/sorted/parser.rb:14`) carries the `/i` flag. Under Ruby's Unicode case folding, `[a-z0-9._]` also matches U+212A KELVIN SIGN, which folds to `k`, and `[asc|desc]` also matches U+017F LATIN SMALL LETTER LONG S, which folds to `s`. Ruby therefore reads `"\u212A"` as a field, and reads `"x \u017F"` with the direction `"\u017F"`. The model reads the first as nothing and the second as `x asc`. It matches ASCII letters of either case only.
- `Text.Downcase` and `Text.Upcase` change only ASCII letters. Everything the sort regex accepts is ASCII, and so is everything the order regex accepts apart from the two characters above. Ruby's full Unicode case mapping is not modelled.
- Invalid text is not modelled. Ruby's `split` and `match` raise `ArgumentError` when the sort or order parameter holds an invalid byte sequence for its encoding. A Dafny `string` is a sequence of characters and cannot hold such bytes, so the model has no error path for them.
- `Render.ToHash` returns a Dafny map, which has no key order. Ruby's Hash keeps insertion order.
- Duck typing in `initialize_whitelist` is modelled by `Whitelist.Source`. The case of an object whose `to_ary` returns `nil` (`arg.to_ary || [arg]`) is folded into the non-list case.
- `Render.ToSql` takes the quoter as a total function on strings. A quoter that raises or has side effects is not modelled.
