/** Text search: the LIKE pattern built from a user's query means "contains this literal text". */
module LikeSearch {
  import opened Sequences

  /* ----- escaping ----- */

  function ReplaceChar(x: char, c: char, sub: string): string { if x == c then sub else [x] }

  /** Python's `text.replace(c, sub)` for a one-character `c`. */
  function Replace(text: string, c: char, sub: string): string {
    if text == "" then "" else ReplaceChar(text[0], c, sub) + Replace(text[1..], c, sub)
  }

  /** `_escape_like`: backslash, percent and underscore are replaced one after the other. */
  function EscapeLike(value: string): string {
    Replace(Replace(Replace(value, '\\', "\\\\"), '%', "\\%"), '_', "\\_")
  }

  predicate Special(c: char) { c == '\\' || c == '%' || c == '_' }

  /** A backslash before each special character. */
  function OnePass(value: string): string {
    if value == "" then "" else (if Special(value[0]) then ['\\', value[0]] else [value[0]]) + OnePass(value[1..])
  }

  lemma ReplaceAfterOne(c: char, sub: string, x: char, rest: string)
    ensures Replace([x] + rest, c, sub) == ReplaceChar(x, c, sub) + Replace(rest, c, sub)
  {
    assert ([x] + rest)[1..] == rest;
  }

  lemma ReplaceAfterTwo(c: char, sub: string, x: char, y: char, rest: string)
    ensures Replace([x, y] + rest, c, sub) == ReplaceChar(x, c, sub) + ReplaceChar(y, c, sub) + Replace(rest, c, sub)
  {
    assert ([x, y] + rest)[1..] == [y] + rest;
    ReplaceAfterOne(c, sub, y, rest);
    assert ReplaceChar(x, c, sub) + (ReplaceChar(y, c, sub) + Replace(rest, c, sub)) ==
           ReplaceChar(x, c, sub) + ReplaceChar(y, c, sub) + Replace(rest, c, sub);
  }

  lemma EscapeHead(x: char, rest: string)
    ensures EscapeLike([x] + rest) == (if Special(x) then ['\\', x] else [x]) + EscapeLike(rest)
  {
    var b := Replace(rest, '\\', "\\\\");
    var bp := Replace(b, '%', "\\%");
    ReplaceAfterOne('\\', "\\\\", x, rest);
    if x == '\\' {
      ReplaceAfterTwo('%', "\\%", x, x, b);
      ReplaceAfterTwo('_', "\\_", x, x, bp);
      assert "\\\\" == [x, x] == [x] + [x];
    } else if x == '%' {
      ReplaceAfterOne('%', "\\%", x, b);
      ReplaceAfterTwo('_', "\\_", '\\', x, bp);
      assert "\\%" == ['\\', x];
    } else {
      ReplaceAfterOne('%', "\\%", x, b);
      ReplaceAfterOne('_', "\\_", x, bp);
    }
  }

  /** No replacement touches the backslashes an earlier one put in. */
  lemma {:induction false} EscapeIsOnePass(value: string)
    ensures EscapeLike(value) == OnePass(value)
  {
    if value != "" {
      EscapeHead(value[0], value[1..]);
      EscapeIsOnePass(value[1..]);
      assert [value[0]] + value[1..] == value;
    }
  }

  /* ----- LIKE (section 9.7.1 of the PostgreSQL 16 manual), escape character backslash ----- */

  function Like(pattern: string, text: string): bool
    decreases |pattern|, |text|
  {
    if pattern == "" then text == ""
    else if pattern[0] == '%' then Like(pattern[1..], text) || (text != "" && Like(pattern, text[1..]))
    else if text == "" then false
    else if pattern[0] == '_' then Like(pattern[1..], text[1..])
    else if pattern[0] == '\\' then |pattern| > 1 && text[0] == pattern[1] && Like(pattern[2..], text[1..])
    else text[0] == pattern[0] && Like(pattern[1..], text[1..])
  }

  predicate OccursAt(text: string, part: string, i: nat) {
    i + |part| <= |text| && text[i..i + |part|] == part
  }

  /** `part` is a contiguous piece of `text`. */
  ghost predicate Contains(text: string, part: string) { exists i :: OccursAt(text, part, i) }

  lemma OccursShifted(before: string, text: string, part: string, i: nat)
    ensures OccursAt(before + text, part, |before| + i) <==> OccursAt(text, part, i)
  {
    if i + |part| <= |text| {
      assert (before + text)[|before| + i..|before| + i + |part|] == text[i..i + |part|];
    }
  }

  lemma OccursWithin(text: string, after: string, part: string, i: nat)
    requires i + |part| <= |text|
    ensures OccursAt(text + after, part, i) <==> OccursAt(text, part, i)
  {
    assert (text + after)[i..i + |part|] == text[i..i + |part|];
  }

  /** An occurrence of `part` covers no position that holds a character foreign to `part`. */
  lemma OccursAvoiding(text: string, part: string, i: nat, at: nat)
    requires OccursAt(text, part, i) && at < |text| && text[at] !in part
    ensures at < i || at >= i + |part|
  {
    var piece := text[i..i + |part|];
    forall k | i <= k < i + |part| ensures text[k] in part { assert text[k] == piece[k - i]; }
  }

  lemma {:induction false} LikePercent(text: string)
    ensures Like("%", text)
  {
    assert "%"[1..] == "";
    if text != "" { LikePercent(text[1..]); }
  }

  /** An escaped query followed by `%` matches the texts it is a prefix of. */
  lemma {:induction false} LikePrefix(query: string, text: string)
    ensures Like(OnePass(query) + "%", text) <==> query <= text
  {
    var pattern := OnePass(query) + "%";
    if query == "" {
      assert pattern == "%";
      LikePercent(text);
    } else if text != "" {
      LikePrefix(query[1..], text[1..]);
      var tail := OnePass(query[1..]) + "%";
      if Special(query[0]) {
        assert pattern == ['\\', query[0]] + tail && pattern[2..] == tail;
      } else {
        assert pattern == [query[0]] + tail && pattern[1..] == tail;
      }
      assert query <= text <==> query[0] == text[0] && query[1..] <= text[1..] by {
        assert query == [query[0]] + query[1..] && text == [text[0]] + text[1..];
      }
    } else {
      assert pattern[0] == OnePass(query)[0];
    }
  }

  lemma {:induction false} LikeSubstring(query: string, text: string)
    ensures Like("%" + OnePass(query) + "%", text) <==> Contains(text, query)
  {
    var pattern := "%" + OnePass(query) + "%";
    assert pattern[1..] == OnePass(query) + "%";
    LikePrefix(query, text);
    assert query <= text <==> OccursAt(text, query, 0);
    if text != "" {
      LikeSubstring(query, text[1..]);
      forall i: nat { OccursShifted(text[..1], text[1..], query, i); }
      assert text[..1] + text[1..] == text;
      if i: nat :| OccursAt(text, query, i) {
        assert i > 0 ==> OccursAt(text[1..], query, i - 1) by {
          if i > 0 { OccursShifted(text[..1], text[1..], query, i - 1); }
        }
      }
    }
  }

  /* ----- case folding ----- */

  function Fold(lower: char -> char, s: string): (r: string)
    ensures |r| == |s| && forall i | 0 <= i < |s| :: r[i] == lower(s[i])
  {
    seq(|s|, i requires 0 <= i < |s| => lower(s[i]))
  }

  /** A character-wise folding under which the LIKE characters and the comma stand alone. */
  ghost predicate PlainFolding(lower: char -> char) {
    forall c :: && (lower(c) == '\\' <==> c == '\\') && (lower(c) == '%' <==> c == '%')
                && (lower(c) == '_' <==> c == '_') && (lower(c) == ',' <==> c == ',')
  }

  /** ILIKE folds both sides and compares with LIKE. */
  function ILike(lower: char -> char, pattern: string, text: string): bool {
    Like(Fold(lower, pattern), Fold(lower, text))
  }

  /** The pattern both repositories build. */
  function SearchPattern(query: string): string { "%" + EscapeLike(query) + "%" }

  lemma FoldConcat(lower: char -> char, a: string, b: string)
    ensures Fold(lower, a + b) == Fold(lower, a) + Fold(lower, b)
  {
  }

  lemma {:induction false} FoldOnePass(lower: char -> char, s: string)
    requires PlainFolding(lower)
    ensures Fold(lower, OnePass(s)) == OnePass(Fold(lower, s))
  {
    if s != "" {
      FoldOnePass(lower, s[1..]);
      assert Fold(lower, s)[1..] == Fold(lower, s[1..]);
      assert Special(lower(s[0])) <==> Special(s[0]);
      var head := if Special(s[0]) then ['\\', s[0]] else [s[0]];
      FoldConcat(lower, head, OnePass(s[1..]));
      assert lower('\\') == '\\';
      assert Fold(lower, head) == if Special(s[0]) then ['\\', lower(s[0])] else [lower(s[0])];
    }
  }

  /** A searched column matches exactly when it contains the raw query, up to case. */
  lemma SearchMeansContains(lower: char -> char, query: string, text: string)
    requires PlainFolding(lower)
    ensures ILike(lower, SearchPattern(query), text) <==> Contains(Fold(lower, text), Fold(lower, query))
  {
    EscapeIsOnePass(query);
    FoldOnePass(lower, query);
    assert lower('%') == '%';
    assert Fold(lower, SearchPattern(query)) == "%" + Fold(lower, OnePass(query)) + "%";
    LikeSubstring(Fold(lower, query), Fold(lower, text));
  }

  /* ----- table names joined by commas ----- */

  /** A comma-free text sits inside one side of a comma or the other. */
  lemma ContainsAcrossComma(a: string, b: string, part: string)
    requires part != "" && ',' !in part
    ensures Contains(a + "," + b, part) <==> Contains(a, part) || Contains(b, part)
  {
    var whole := a + "," + b;
    assert whole == a + ("," + b) && |a + ","| == |a| + 1;
    if i: nat :| OccursAt(whole, part, i) {
      OccursAvoiding(whole, part, i, |a|);
      if i + |part| <= |a| {
        OccursWithin(a, "," + b, part, i);
      } else {
        OccursShifted(a + ",", b, part, i - |a| - 1);
      }
    }
    if i: nat :| OccursAt(a, part, i) {
      OccursWithin(a, "," + b, part, i);
    }
    if i: nat :| OccursAt(b, part, i) {
      OccursShifted(a + ",", b, part, i);
    }
  }

  function FoldAll(lower: char -> char, parts: seq<string>): (r: seq<string>)
    ensures |r| == |parts| && forall i | 0 <= i < |parts| :: r[i] == Fold(lower, parts[i])
  {
    seq(|parts|, i requires 0 <= i < |parts| => Fold(lower, parts[i]))
  }

  lemma {:induction false} FoldJoin(lower: char -> char, parts: seq<string>)
    requires PlainFolding(lower)
    ensures Fold(lower, Join(parts, ",")) == Join(FoldAll(lower, parts), ",")
  {
    if |parts| > 1 {
      FoldJoin(lower, parts[1..]);
      assert FoldAll(lower, parts)[1..] == FoldAll(lower, parts[1..]);
      assert lower(',') == ',';
      assert Fold(lower, parts[0] + "," + Join(parts[1..], ",")) ==
             Fold(lower, parts[0]) + "," + Fold(lower, Join(parts[1..], ","));
    }
  }

  lemma {:induction false} ContainsJoined(parts: seq<string>, part: string)
    requires part != "" && ',' !in part
    ensures Contains(Join(parts, ","), part) <==> exists i :: 0 <= i < |parts| && Contains(parts[i], part)
  {
    if |parts| > 1 {
      ContainsJoined(parts[1..], part);
      ContainsAcrossComma(parts[0], Join(parts[1..], ","), part);
      forall i | 0 < i < |parts| ensures parts[i] == parts[1..][i - 1] {}
      if i :| 0 <= i < |parts| - 1 && Contains(parts[1..][i], part) { assert Contains(parts[i + 1], part); }
    }
  }

  /** What `array_to_string(tables, ',') ILIKE pattern` tests. */
  ghost predicate JoinedTablesMatch(lower: char -> char, query: string, tables: seq<string>) {
    ILike(lower, SearchPattern(query), Join(tables, ","))
  }

  /** What the search is for: some one table name contains the query, up to case. */
  ghost predicate SomeTableMatches(lower: char -> char, query: string, tables: seq<string>) {
    exists i :: 0 <= i < |tables| && Contains(Fold(lower, tables[i]), Fold(lower, query))
  }

  lemma CommaFreeSearch(lower: char -> char, query: string, tables: seq<string>)
    requires PlainFolding(lower) && query != "" && ',' !in query
    ensures JoinedTablesMatch(lower, query, tables) <==> SomeTableMatches(lower, query, tables)
  {
    SearchMeansContains(lower, query, Join(tables, ","));
    FoldJoin(lower, tables);
    ContainsJoined(FoldAll(lower, tables), Fold(lower, query));
  }

  /** Cut the query at a comma: the two halves, listed as tables, match together and not apart. */
  lemma CommaSearchCrosses(lower: char -> char, query: string) returns (tables: seq<string>)
    requires PlainFolding(lower) && ',' in query
    ensures JoinedTablesMatch(lower, query, tables) && !SomeTableMatches(lower, query, tables)
  {
    var k :| 0 <= k < |query| && query[k] == ',';
    tables := [query[..k], query[k + 1..]];
    assert Join(tables, ",") == query by { assert tables[1..] == [query[k + 1..]]; }
    SearchMeansContains(lower, query, query);
    assert OccursAt(Fold(lower, query), Fold(lower, query), 0) by {
      assert Fold(lower, query)[0..|query|] == Fold(lower, query);
    }
  }

  /** For a non-empty query, searching the comma-joined tables finds, whatever the tables, exactly the
      products with some one table that contains the query, if and only if the query has no comma. */
  lemma TableSearchExact(lower: char -> char, query: string)
    requires PlainFolding(lower) && query != ""
    ensures (forall tables :: JoinedTablesMatch(lower, query, tables) <==> SomeTableMatches(lower, query, tables))
            <==> ',' !in query
  {
    if ',' in query {
      var tables := CommaSearchCrosses(lower, query);
    } else {
      forall tables ensures JoinedTablesMatch(lower, query, tables) <==> SomeTableMatches(lower, query, tables) {
        CommaFreeSearch(lower, query, tables);
      }
    }
  }

  /** Lower-casing of A to Z is such a folding. */
  function AsciiLower(c: char): char { if 'A' <= c <= 'Z' then (c as int + 32) as char else c }

  lemma AsciiLowerIsPlain()
    ensures PlainFolding(AsciiLower)
  {
  }

  /* ----- the product filter ----- */

  /** `list_products`' text condition on one product; a missing description matches nothing. */
  function ProductMatches(lower: char -> char, query: string, name: string, description: Option<string>,
                          tables: seq<string>): bool {
    query == "" || ILike(lower, SearchPattern(query), name)
    || (description.Some? && ILike(lower, SearchPattern(query), description.value))
    || ILike(lower, SearchPattern(query), Join(tables, ","))
  }

  /** Every search finds the products whose name, description or comma-joined tables contain the query up
      to case; without a comma in the query, the last is that some one table name contains it. */
  lemma ProductSearchMeaning(lower: char -> char, query: string, name: string, description: Option<string>,
                             tables: seq<string>)
    requires PlainFolding(lower)
    ensures ProductMatches(lower, query, name, description, tables) <==>
            var part := Fold(lower, query);
            || Contains(Fold(lower, name), part)
            || (description.Some? && Contains(Fold(lower, description.value), part))
            || Contains(Fold(lower, Join(tables, ",")), part)
    ensures ',' !in query ==>
              (ProductMatches(lower, query, name, description, tables) <==>
                 var part := Fold(lower, query);
                 || Contains(Fold(lower, name), part)
                 || (description.Some? && Contains(Fold(lower, description.value), part))
                 || SomeTableMatches(lower, query, tables))
  {
    SearchMeansContains(lower, query, name);
    if description.Some? { SearchMeansContains(lower, query, description.value); }
    SearchMeansContains(lower, query, Join(tables, ","));
    if query == "" {
      assert OccursAt(Fold(lower, name), "", 0);
    } else if ',' !in query {
      CommaFreeSearch(lower, query, tables);
    }
  }
}
