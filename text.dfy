/** A small Option type for "no match" and "no whitelist". */
module Wrappers {
  datatype Option<+T> = None | Some(value: T)
}

/**
 * Characters, character runs, and the Ruby `String#split` / `Array#join`
 * behaviour that the sort parser is built from.
 */
module Text {

  /** `[A-Za-z0-9._]`: a character a sort field may contain. */
  predicate IsFieldChar(c: char) {
    ('a' <= c <= 'z') || ('A' <= c <= 'Z') || ('0' <= c <= '9') || c == '.' || c == '_'
  }

  /** `\s` of a Ruby regular expression: space, tab, line feed, vertical tab, form feed, carriage return. */
  predicate IsSpace(c: char) {
    c == ' ' || c == '\t' || c == '\n' || c == '\U{000B}' || c == '\U{000C}' || c == '\r'
  }

  /** `[asc|desc]` under the `i` flag: one of a, s, c, |, d, e in either case. */
  predicate IsDirChar(c: char) {
    c in "ascdeASCDE|"
  }

  predicate AllFieldChars(s: string) {
    forall i :: 0 <= i < |s| ==> IsFieldChar(s[i])
  }

  predicate NoFieldChar(s: string) {
    forall i :: 0 <= i < |s| ==> !IsFieldChar(s[i])
  }

  /** What `[A-Za-z0-9._]+` matches: a non-empty run of field characters. */
  predicate IsFieldName(s: string) {
    s != [] && AllFieldChars(s)
  }

  /** Length of the longest prefix of `s` made of field characters (a greedy `[A-Za-z0-9._]*`). */
  function FieldRun(s: string): (n: nat)
    ensures n <= |s|
    ensures forall i :: 0 <= i < n ==> IsFieldChar(s[i])
    ensures n < |s| ==> !IsFieldChar(s[n])
  {
    if s == [] || !IsFieldChar(s[0]) then 0 else 1 + FieldRun(s[1..])
  }

  /** Length of the longest prefix of `s` made of `[asc|desc]` characters (a greedy `[asc|desc]*` under `i`). */
  function DirRun(s: string): (n: nat)
    ensures n <= |s|
    ensures forall i :: 0 <= i < n ==> IsDirChar(s[i])
    ensures n < |s| ==> !IsDirChar(s[n])
  {
    if s == [] || !IsDirChar(s[0]) then 0 else 1 + DirRun(s[1..])
  }

  function LowerChar(c: char): char {
    if 'A' <= c <= 'Z' then (c as int + 32) as char else c
  }

  function UpperChar(c: char): char {
    if 'a' <= c <= 'z' then (c as int - 32) as char else c
  }

  /** `String#downcase` on ASCII letters. */
  function Downcase(s: string): string {
    seq(|s|, i requires 0 <= i < |s| => LowerChar(s[i]))
  }

  /** `String#upcase` on ASCII letters. */
  function Upcase(s: string): string {
    seq(|s|, i requires 0 <= i < |s| => UpperChar(s[i]))
  }

  /** Every piece of `s` between occurrences of `sep`, empty pieces included. */
  function SplitAll(s: string, sep: char): (pieces: seq<string>)
    ensures |pieces| >= 1
    ensures forall k :: 0 <= k < |pieces| ==> sep !in pieces[k]
  {
    if s == [] then [[]]
    else
      var rest := SplitAll(s[1..], sep);
      if s[0] == sep then [[]] + rest else [[s[0]] + rest[0]] + rest[1..]
  }

  /** The pieces without the empty ones at the end. */
  function DropTrailingEmpty(pieces: seq<string>): (r: seq<string>)
    ensures |r| <= |pieces| && r == pieces[..|r|]
    ensures r == [] || r[|r| - 1] != []
    ensures forall k :: |r| <= k < |pieces| ==> pieces[k] == []
  {
    if pieces == [] then []
    else if pieces[|pieces| - 1] == [] then DropTrailingEmpty(pieces[..|pieces| - 1])
    else pieces
  }

  /** Ruby's `String#split(sep)`: the pieces of `s` around `sep`, trailing empty pieces removed. */
  function Split(s: string, sep: char): (pieces: seq<string>)
    ensures forall k :: 0 <= k < |pieces| ==> sep !in pieces[k]
    ensures pieces == [] || pieces[|pieces| - 1] != []
  {
    DropTrailingEmpty(SplitAll(s, sep))
  }

  /** Ruby's `Array#join(sep)` on strings. */
  function Join(pieces: seq<string>, sep: string): string {
    if pieces == [] then []
    else if |pieces| == 1 then pieces[0]
    else pieces[0] + sep + Join(pieces[1..], sep)
  }

  /** The run of field characters stops exactly where the field ends. */
  lemma {:induction false} FieldRunOf(field: string, rest: string)
    requires AllFieldChars(field)
    requires rest == [] || !IsFieldChar(rest[0])
    ensures FieldRun(field + rest) == |field|
  {
    if field != [] {
      assert (field + rest)[0] == field[0];
      assert (field + rest)[1..] == field[1..] + rest;
      FieldRunOf(field[1..], rest);
    } else {
      assert field + rest == rest;
    }
  }

  lemma {:induction false} SplitWithoutSep(s: string, sep: char)
    requires sep !in s
    ensures SplitAll(s, sep) == [s]
  {
    if s != [] {
      SplitWithoutSep(s[1..], sep);
      assert s == [s[0]] + s[1..];
    }
  }

  /** Splitting distributes over a separator: the pieces of `a`, then the pieces of `b`. */
  lemma {:induction false} SplitAtSep(a: string, b: string, sep: char)
    ensures SplitAll(a + [sep] + b, sep) == SplitAll(a, sep) + SplitAll(b, sep)
  {
    if a == [] {
      assert a + [sep] + b == [sep] + b;
      assert ([sep] + b)[1..] == b;
    } else {
      assert (a + [sep] + b)[1..] == a[1..] + [sep] + b;
      SplitAtSep(a[1..], b, sep);
    }
  }

  /** A prefix without a separator is glued to the first piece. */
  lemma {:induction false} SplitPrefix(t: string, x: string, sep: char)
    requires sep !in t
    ensures SplitAll(t + x, sep) == [t + SplitAll(x, sep)[0]] + SplitAll(x, sep)[1..]
  {
    if t == [] {
      assert t + x == x;
      var ps := SplitAll(x, sep);
      assert t + ps[0] == ps[0];
      assert ps == [ps[0]] + ps[1..];
    } else {
      assert (t + x)[1..] == t[1..] + x;
      SplitPrefix(t[1..], x, sep);
      assert [t[0]] + (t[1..] + SplitAll(x, sep)[0]) == t + SplitAll(x, sep)[0];
    }
  }

  /** Joining the pieces back with the separator gives the original text. */
  lemma {:induction false} JoinOfSplit(s: string, sep: char)
    ensures Join(SplitAll(s, sep), [sep]) == s
  {
    if s != [] {
      var rest := SplitAll(s[1..], sep);
      JoinOfSplit(s[1..], sep);
      if s[0] == sep {
        assert ([[]] + rest)[1..] == rest;
        assert s == [sep] + s[1..];
      } else {
        var pieces := [[s[0]] + rest[0]] + rest[1..];
        assert pieces[1..] == rest[1..];
        if |rest| == 1 {
          assert s == [s[0]] + rest[0];
        } else {
          assert Join(rest, [sep]) == rest[0] + [sep] + Join(rest[1..], [sep]);
          assert s == [s[0]] + s[1..];
        }
      }
    }
  }

  /** The last piece is non-empty when the text does not end in the separator. */
  lemma {:induction false} SplitLastPiece(s: string, sep: char)
    requires s != [] && s[|s| - 1] != sep
    ensures SplitAll(s, sep)[|SplitAll(s, sep)| - 1] != []
  {
    var rest := SplitAll(s[1..], sep);
    if |s| > 1 {
      SplitLastPiece(s[1..], sep);
    }
  }

  /** Ruby drops no piece when the text does not end in the separator. */
  lemma SplitKeepsAll(s: string, sep: char)
    requires s != [] && s[|s| - 1] != sep
    ensures Split(s, sep) == SplitAll(s, sep)
  {
    SplitLastPiece(s, sep);
  }

  /** Splitting a join of separator-free pieces gives the pieces back. */
  lemma {:induction false} SplitOfJoin(pieces: seq<string>, sep: char)
    requires |pieces| >= 1
    requires forall k :: 0 <= k < |pieces| ==> sep !in pieces[k]
    ensures SplitAll(Join(pieces, [sep]), sep) == pieces
  {
    if |pieces| == 1 {
      SplitWithoutSep(pieces[0], sep);
    } else {
      SplitOfJoin(pieces[1..], sep);
      SplitWithoutSep(pieces[0], sep);
      SplitAtSep(pieces[0], Join(pieces[1..], [sep]), sep);
      assert Join(pieces, [sep]) == pieces[0] + [sep] + Join(pieces[1..], [sep]);
      assert pieces == [pieces[0]] + pieces[1..];
    }
  }
}
