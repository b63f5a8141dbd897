/** The hand-written depth scanners over operator descriptions. */
module Scanners {
  /* ----- depth ----- */

  function Delta(open: char, close: char, c: char): int { if c == open then 1 else if c == close then -1 else 0 }

  /** Openings less closings. */
  function Net(open: char, close: char, s: string): int {
    if s == "" then 0 else Net(open, close, s[..|s| - 1]) + Delta(open, close, s[|s| - 1])
  }

  function Min(a: int, b: int): int { if a <= b then a else b }

  /** The least depth of any prefix, the empty one included. */
  function Lowest(open: char, close: char, s: string): int {
    if s == "" then 0 else Min(Lowest(open, close, s[..|s| - 1]), Net(open, close, s))
  }

  predicate Nested(open: char, close: char, s: string) { Net(open, close, s) == 0 && Lowest(open, close, s) >= 0 }

  lemma DepthStep(open: char, close: char, s: string, c: char)
    ensures Net(open, close, s + [c]) == Net(open, close, s) + Delta(open, close, c)
    ensures Lowest(open, close, s + [c]) == Min(Lowest(open, close, s), Net(open, close, s + [c]))
  {
    assert (s + [c])[..|s|] == s;
  }

  lemma {:induction false} DepthConcat(open: char, close: char, a: string, b: string)
    ensures Net(open, close, a + b) == Net(open, close, a) + Net(open, close, b)
    ensures Lowest(open, close, a + b) == Min(Lowest(open, close, a), Net(open, close, a) + Lowest(open, close, b))
    decreases |b|
  {
    if b == "" {
      assert a + b == a;
      LowestBound(open, close, a);
    } else {
      var front, last := b[..|b| - 1], b[|b| - 1];
      DepthConcat(open, close, a, front);
      DepthStep(open, close, a + front, last);
      assert a + b == (a + front) + [last];
    }
  }

  lemma {:induction false} LowestBound(open: char, close: char, s: string)
    ensures Lowest(open, close, s) <= 0 && Lowest(open, close, s) <= Net(open, close, s)
  {
    if s != "" { LowestBound(open, close, s[..|s| - 1]); }
  }

  lemma {:induction false} DepthOfPlain(open: char, close: char, s: string)
    requires open !in s && close !in s
    ensures Net(open, close, s) == 0 && Lowest(open, close, s) == 0
  {
    if s != "" { DepthOfPlain(open, close, s[..|s| - 1]); }
  }

  /* ----- _balance_parens ----- */

  function Count(s: string, c: char): nat {
    if s == "" then 0 else Count(s[..|s| - 1], c) + if s[|s| - 1] == c then 1 else 0
  }

  function Repeat(c: char, n: nat): string { seq(n, i => c) }

  function BalanceParens(s: string): string {
    var opens, closes := Count(s, '('), Count(s, ')');
    if opens > closes then s + Repeat(')', opens - closes)
    else if closes > opens then Repeat('(', closes - opens) + s
    else s
  }

  lemma {:induction false} NetIsCounts(s: string)
    ensures Net('(', ')', s) == Count(s, '(') - Count(s, ')')
  {
    if s != "" { NetIsCounts(s[..|s| - 1]); }
  }

  lemma {:induction false} DepthOfOpens(n: nat)
    ensures Net('(', ')', Repeat('(', n)) == n && Lowest('(', ')', Repeat('(', n)) == 0
  {
    if n > 0 {
      DepthOfOpens(n - 1);
      assert Repeat('(', n)[..n - 1] == Repeat('(', n - 1);
    }
  }

  lemma {:induction false} DepthOfCloses(n: nat)
    ensures Net('(', ')', Repeat(')', n)) == Lowest('(', ')', Repeat(')', n)) == 0 - n
  {
    if n > 0 {
      DepthOfCloses(n - 1);
      assert Repeat(')', n)[..n - 1] == Repeat(')', n - 1);
    }
  }

  lemma BalancedDepth(s: string)
    ensures Net('(', ')', BalanceParens(s)) == 0
    ensures Lowest('(', ')', BalanceParens(s)) >= 0 <==> Lowest('(', ')', s) >= Min(0, Net('(', ')', s))
  {
    NetIsCounts(s);
    LowestBound('(', ')', s);
    var net := Net('(', ')', s);
    if net > 0 {
      DepthOfCloses(net);
      DepthConcat('(', ')', s, Repeat(')', net));
    } else if net < 0 {
      DepthOfOpens(-net);
      DepthConcat('(', ')', Repeat('(', -net), s);
    }
  }

  /** Balancing equalises the counts, and nests the text exactly when the text never closed further
      below its start than it ends. */
  lemma BalanceMeaning(s: string)
    ensures Net('(', ')', BalanceParens(s)) == 0
    ensures BalanceParens(BalanceParens(s)) == BalanceParens(s)
    ensures Nested('(', ')', BalanceParens(s)) <==> Lowest('(', ')', s) >= Min(0, Net('(', ')', s))
  {
    BalancedDepth(s);
    NetIsCounts(BalanceParens(s));
  }

  predicate AllAre(s: string, c: char) { forall i | 0 <= i < |s| :: s[i] == c }

  /** Balancing keeps the text and adds the least: opening parentheses before it or closing ones after it. */
  lemma BalanceAdds(s: string) returns (before: string, after: string)
    ensures BalanceParens(s) == before + s + after && AllAre(before, '(') && AllAre(after, ')')
    ensures |before| == (if Net('(', ')', s) < 0 then -Net('(', ')', s) else 0)
    ensures |after| == (if Net('(', ')', s) > 0 then Net('(', ')', s) else 0)
  {
    NetIsCounts(s);
    var net := Count(s, '(') - Count(s, ')');
    before, after := if net < 0 then Repeat('(', -net) else "", if net > 0 then Repeat(')', net) else "";
    assert "" + s == s && s + "" == s;
  }

  /* ----- the fallback detail text ----- */

  /** The characters that `\d` matches, the decimal digits of every script: no parenthesis, hash
      sign or capital L is one. */
  type DigitTest = digit: char -> bool | !digit('(') && !digit(')') && !digit('#') && !digit('L')
    witness c => '0' <= c <= '9'

  function DigitRun(digit: DigitTest, s: string): (n: nat)
    ensures n <= |s| && forall i | 0 <= i < n :: digit(s[i])
  {
    if s == "" || !digit(s[0]) then 0 else 1 + DigitRun(digit, s[1..])
  }

  /** The length of a match of `#\d+[L]?` at the start of `s`, or 0. */
  function ColumnIdLength(digit: DigitTest, s: string): (n: nat)
    ensures n <= |s| && forall i | 0 <= i < n :: s[i] == '#' || digit(s[i]) || s[i] == 'L'
  {
    if s == "" || s[0] != '#' || DigitRun(digit, s[1..]) == 0 then 0
    else
      var n := 1 + DigitRun(digit, s[1..]);
      if n < |s| && s[n] == 'L' then n + 1 else n
  }

  /** `_strip_col_ids` */
  function StripColumnIds(digit: DigitTest, s: string): string
    decreases |s|
  {
    if s == "" then ""
    else if ColumnIdLength(digit, s) > 0 then StripColumnIds(digit, s[ColumnIdLength(digit, s)..])
    else [s[0]] + StripColumnIds(digit, s[1..])
  }

  /** No column id begins in the first `n` characters of `s`. */
  ghost predicate NoIdStarts(digit: DigitTest, s: string, n: nat)
    requires n <= |s|
  {
    forall i | 0 <= i < n && s[i] == '#' :: i + 1 == |s| || !digit(s[i + 1])
  }

  lemma NoIdAtFront(digit: DigitTest, c: char, rest: string, n: nat)
    requires 0 < n <= |rest| + 1 && NoIdStarts(digit, [c] + rest, n)
    ensures NoIdStarts(digit, rest, n - 1)
    ensures StripColumnIds(digit, [c] + rest) == [c] + StripColumnIds(digit, rest)
  {
    var s := [c] + rest;
    assert s[1..] == rest;
    assert DigitRun(digit, rest) > 0 ==> |s| > 1 && digit(s[1]);
    forall i | 0 <= i < n - 1 && rest[i] == '#' ensures i + 1 == |rest| || !digit(rest[i + 1]) {
      assert s[i + 1] == '#' && (i + 1 < |rest| ==> s[i + 2] == rest[i + 1]);
    }
  }

  lemma HeadOnto(a: string, b: string)
    requires a != ""
    ensures a + b == [a[0]] + (a[1..] + b)
  {
  }

  /** Text in which no column id begins stays, and stripping goes on behind it. */
  lemma {:induction false} StripKeepsText(digit: DigitTest, text: string, rest: string)
    requires NoIdStarts(digit, text + rest, |text|)
    ensures StripColumnIds(digit, text + rest) == text + StripColumnIds(digit, rest)
  {
    if text == "" {
      assert text + rest == rest;
    } else {
      HeadOnto(text, rest);
      NoIdAtFront(digit, text[0], text[1..] + rest, |text|);
      StripKeepsText(digit, text[1..], rest);
      HeadOnto(text, StripColumnIds(digit, rest));
    }
  }

  lemma {:induction false} DigitRunIs(digit: DigitTest, number: string, rest: string)
    requires (forall c | c in number :: digit(c)) && (rest == "" || !digit(rest[0]))
    ensures DigitRun(digit, number + rest) == |number|
  {
    if number == "" {
      assert number + rest == rest;
    } else {
      assert number[0] in number && (number + rest)[1..] == number[1..] + rest;
      assert forall c | c in number[1..] :: c in number;
      DigitRunIs(digit, number[1..], rest);
    }
  }

  /** A hash sign, a number and the capital L that may follow it go, and stripping goes on behind them. */
  lemma StripDropsId(digit: DigitTest, number: string, rest: string)
    requires number != "" && (forall c | c in number :: digit(c)) && (rest == "" || !digit(rest[0]))
    ensures StripColumnIds(digit, "#" + number + rest) ==
            StripColumnIds(digit, if rest != "" && rest[0] == 'L' then rest[1..] else rest)
  {
    var s := "#" + number + rest;
    assert s[1..] == number + rest;
    DigitRunIs(digit, number, rest);
    if rest != "" && rest[0] == 'L' {
      assert s[|number| + 1] == 'L' && s[|number| + 2..] == rest[1..];
    } else {
      assert rest != "" ==> s[|number| + 1] == rest[0];
      assert s[|number| + 1..] == rest;
    }
  }

  /** A text in which no column id begins stays as it is. */
  lemma StripKeepsAll(digit: DigitTest, s: string)
    requires NoIdStarts(digit, s, |s|)
    ensures StripColumnIds(digit, s) == s
  {
    assert s + "" == s;
    StripKeepsText(digit, s, "");
  }

  /** `a` and `b` change and dip in depth alike. */
  ghost predicate SameDepth(a: string, b: string) {
    Net('(', ')', a) == Net('(', ')', b) && Lowest('(', ')', a) == Lowest('(', ')', b)
  }

  lemma SameDepthAfter(head: string, a: string, b: string)
    requires SameDepth(a, b)
    ensures SameDepth(head + a, head + b)
  {
    DepthConcat('(', ')', head, a);
    DepthConcat('(', ')', head, b);
  }

  lemma SameDepthWithout(head: string, a: string, b: string)
    requires SameDepth(a, b) && '(' !in head && ')' !in head
    ensures SameDepth(a, head + b)
  {
    DepthOfPlain('(', ')', head);
    DepthConcat('(', ')', head, b);
    LowestBound('(', ')', b);
  }

  lemma {:induction false} StrippingKeepsDepth(digit: DigitTest, s: string)
    ensures SameDepth(StripColumnIds(digit, s), s)
    decreases |s|
  {
    if s != "" {
      var n := ColumnIdLength(digit, s);
      if n > 0 {
        StrippingKeepsDepth(digit, s[n..]);
        SameDepthWithout(s[..n], StripColumnIds(digit, s[n..]), s[n..]);
        assert s == s[..n] + s[n..];
      } else {
        StrippingKeepsDepth(digit, s[1..]);
        SameDepthAfter([s[0]], StripColumnIds(digit, s[1..]), s[1..]);
        assert s == [s[0]] + s[1..];
      }
    }
  }

  /** What `_extract_detail` shows for an operator it has no rule for. */
  function FallbackDetail(digit: DigitTest, nodeName: string, description: string): string {
    var clean := StripColumnIds(digit, description);
    if clean != "" && clean != nodeName && |clean| > |nodeName| + 3 then
      BalanceParens(if |clean| > 100 then clean[..100] + "..." else clean)
    else ""
  }

  lemma PrefixBalances(s: string, n: nat, suffix: string)
    requires Nested('(', ')', s) && n <= |s| && '(' !in suffix && ')' !in suffix
    ensures Nested('(', ')', BalanceParens(s[..n] + suffix))
  {
    DepthConcat('(', ')', s[..n], s[n..]);
    assert s == s[..n] + s[n..];
    LowestBound('(', ')', s[..n]);
    DepthConcat('(', ')', s[..n], suffix);
    DepthOfPlain('(', ')', suffix);
    BalanceMeaning(s[..n] + suffix);
  }

  /** Cutting a well-nested description off at 100 characters leaves a well-nested detail. */
  lemma FallbackDetailNested(digit: DigitTest, nodeName: string, description: string)
    requires Nested('(', ')', description)
    ensures Nested('(', ')', FallbackDetail(digit, nodeName, description))
  {
    var clean := StripColumnIds(digit, description);
    StrippingKeepsDepth(digit, description);
    if |clean| > 100 {
      PrefixBalances(clean, 100, "...");
    } else {
      BalanceMeaning(clean);
    }
  }

  /** Cut off, a well-nested text misses only closing parentheses. */
  lemma CutBalances(s: string, n: nat) returns (after: string)
    requires Nested('(', ')', s) && n <= |s|
    ensures BalanceParens(s[..n] + "...") == s[..n] + "..." + after && AllAre(after, ')')
    ensures |after| == Net('(', ')', s[..n])
  {
    var cut := s[..n] + "...";
    DepthConcat('(', ')', s[..n], s[n..]);
    assert s == s[..n] + s[n..];
    LowestBound('(', ')', s[..n]);
    DepthOfPlain('(', ')', "...");
    DepthConcat('(', ')', s[..n], "...");
    var before;
    before, after := BalanceAdds(cut);
    assert before + cut == cut;
  }

  /** The detail of a well-nested description: none if what is left without column ids is not at least
      four characters longer than the operator's name, else that text, if it is longer than 100 characters
      its first 100 with three dots and the closing parentheses that those miss. */
  lemma FallbackDetailMeaning(digit: DigitTest, nodeName: string, description: string) returns (after: string)
    requires Nested('(', ')', description)
    ensures var clean, detail := StripColumnIds(digit, description), FallbackDetail(digit, nodeName, description);
            if |clean| <= |nodeName| + 3 then detail == ""
            else if |clean| <= 100 then detail == clean
            else
              && detail == clean[..100] + "..." + after && AllAre(after, ')')
              && |after| == Net('(', ')', clean[..100])
  {
    var clean := StripColumnIds(digit, description);
    StrippingKeepsDepth(digit, description);
    NetIsCounts(clean);
    after := "";
    if |clean| > 100 { after := CutBalances(clean, 100); }
  }
}
