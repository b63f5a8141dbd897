/** Cutting the top-level bracketed bodies out of a description. */
module TopBrackets {
  import opened Scanners

  datatype Scan = Scan(result: seq<string>, depth: int, current: string, inBracket: bool)

  const START: Scan := Scan([], 0, "", false)

  /** One turn of the loop. */
  function Step(s: Scan, ch: char): Scan {
    if ch == '[' && s.depth == 0 then s.(inBracket := true, depth := 1, current := "")
    else if ch == '[' then s.(depth := s.depth + 1, current := s.current + [ch])
    else if ch == ']' && s.depth == 1 then s.(depth := 0, inBracket := false, result := s.result + [s.current])
    else if ch == ']' then s.(depth := s.depth - 1, current := s.current + [ch])
    else if s.inBracket then s.(current := s.current + [ch])
    else s
  }

  function ScanFrom(s: Scan, text: string): Scan {
    if text == "" then s else Step(ScanFrom(s, text[..|text| - 1]), text[|text| - 1])
  }

  method ExtractTopBrackets(s: string) returns (result: seq<string>)
    ensures result == ScanFrom(START, s).result
  {
    var depth, current, inBracket := 0, "", false;
    result := [];
    for i := 0 to |s|
      invariant ScanFrom(START, s[..i]) == Scan(result, depth, current, inBracket)
    {
      assert s[..i + 1][..i] == s[..i];
      var ch := s[i];
      if ch == '[' && depth == 0 {
        inBracket, depth, current := true, 1, "";
      } else if ch == '[' {
        depth, current := depth + 1, current + [ch];
      } else if ch == ']' && depth == 1 {
        depth, inBracket, result := 0, false, result + [current];
      } else if ch == ']' {
        depth, current := depth - 1, current + [ch];
      } else if inBracket {
        current := current + [ch];
      }
    }
    assert s[..|s|] == s;
  }

  /* ----- texts made of gaps and bracketed bodies ----- */

  /** A bracket-free gap and, in brackets, a body. */
  datatype Group = Group(gap: string, body: string)

  predicate Plain(s: string) { '[' !in s && ']' !in s }

  ghost predicate WellFormed(groups: seq<Group>) {
    forall g | g in groups :: Plain(g.gap) && Nested('[', ']', g.body)
  }

  function RenderGroup(g: Group): string { g.gap + "[" + g.body + "]" }

  function Render(groups: seq<Group>): string {
    if groups == [] then "" else Render(groups[..|groups| - 1]) + RenderGroup(groups[|groups| - 1])
  }

  function Bodies(groups: seq<Group>): seq<string> {
    if groups == [] then [] else Bodies(groups[..|groups| - 1]) + [groups[|groups| - 1].body]
  }

  lemma {:induction false} ScanConcat(s: Scan, a: string, b: string)
    ensures ScanFrom(s, a + b) == ScanFrom(ScanFrom(s, a), b)
    decreases |b|
  {
    if b == "" {
      assert a + b == a;
    } else {
      ScanConcat(s, a, b[..|b| - 1]);
      assert (a + b)[..|a + b| - 1] == a + b[..|b| - 1];
    }
  }

  lemma {:induction false} ScanGap(s: Scan, gap: string)
    requires !s.inBracket && Plain(gap)
    ensures ScanFrom(s, gap) == s
  {
    if gap != "" { ScanGap(s, gap[..|gap| - 1]); }
  }

  /** Inside a bracket, text that never closes it is collected, and the depth follows the text. */
  lemma {:induction false} ScanInside(s: Scan, text: string)
    requires s.inBracket && s.depth == 1 && Lowest('[', ']', text) >= 0
    ensures ScanFrom(s, text) == s.(depth := 1 + Net('[', ']', text), current := s.current + text)
  {
    if text == "" {
      assert s.current + text == s.current;
    } else {
      var front := text[..|text| - 1];
      ScanInside(s, front);
      LowestBound('[', ']', front);
      assert s.current + front + [text[|text| - 1]] == s.current + text;
    }
  }

  lemma ScanGroup(s: Scan, g: Group)
    requires !s.inBracket && s.depth == 0 && Plain(g.gap) && Nested('[', ']', g.body)
    ensures ScanFrom(s, RenderGroup(g)) == Scan(s.result + [g.body], 0, g.body, false)
  {
    ScanGap(s, g.gap);
    var entered := Step(s, '[');
    ScanOneChar(s, '[');
    ScanConcat(s, g.gap, "[");
    ScanInside(entered, g.body);
    assert "" + g.body == g.body;
    ScanConcat(s, g.gap + "[", g.body);
    ScanConcat(s, g.gap + "[" + g.body, "]");
    ScanOneChar(ScanFrom(entered, g.body), ']');
  }

  lemma ScanOneChar(s: Scan, c: char)
    ensures ScanFrom(s, [c]) == Step(s, c)
  {
    assert [c][..0] == "";
  }

  lemma {:induction false} ScanGroups(groups: seq<Group>)
    requires WellFormed(groups)
    ensures var s := ScanFrom(START, Render(groups)); s.result == Bodies(groups) && s.depth == 0 && !s.inBracket
  {
    if groups != [] {
      var front, last := groups[..|groups| - 1], groups[|groups| - 1];
      assert groups == front + [last];
      ScanGroups(front);
      ScanConcat(START, Render(front), RenderGroup(last));
      ScanGroup(ScanFrom(START, Render(front)), last);
    }
  }

  /** A tail without a finished top-level bracket: a gap, or a gap and a bracket left open. */
  ghost predicate OpenTail(tail: string) {
    Plain(tail) || exists n: nat :: OpensAt(tail, n)
  }

  ghost predicate OpensAt(tail: string, n: nat) {
    n < |tail| && Plain(tail[..n]) && tail[n] == '[' && Lowest('[', ']', tail[n + 1..]) >= 0
  }

  /** A gap and a bracket left open add nothing. */
  lemma ScanLeftOpen(s: Scan, gap: string, body: string)
    requires !s.inBracket && s.depth == 0 && Plain(gap) && Lowest('[', ']', body) >= 0
    ensures ScanFrom(s, gap + "[" + body).result == s.result
  {
    ScanGap(s, gap);
    ScanConcat(s, gap, "[");
    ScanOneChar(s, '[');
    ScanConcat(s, gap + "[", body);
    ScanInside(Step(s, '['), body);
  }

  lemma ScanTail(s: Scan, tail: string)
    requires !s.inBracket && s.depth == 0 && OpenTail(tail)
    ensures ScanFrom(s, tail).result == s.result
  {
    if Plain(tail) {
      ScanGap(s, tail);
    } else {
      var n: nat :| OpensAt(tail, n);
      ScanLeftOpen(s, tail[..n], tail[n + 1..]);
      assert tail == tail[..n] + "[" + tail[n + 1..];
    }
  }

  /** From groups and such a tail exactly the groups' bodies come out. */
  lemma ExtractsBodies(groups: seq<Group>, tail: string)
    requires WellFormed(groups) && OpenTail(tail)
    ensures ScanFrom(START, Render(groups) + tail).result == Bodies(groups)
  {
    ScanGroups(groups);
    ScanConcat(START, Render(groups), tail);
    ScanTail(ScanFrom(START, Render(groups)), tail);
  }

  /* ----- which texts are so made ----- */

  lemma {:induction false} RenderedDepth(groups: seq<Group>)
    requires WellFormed(groups)
    ensures Nested('[', ']', Render(groups))
  {
    if groups != [] {
      var front, last := groups[..|groups| - 1], groups[|groups| - 1];
      assert groups == front + [last];
      RenderedDepth(front);
      GroupDepth(last);
      DepthConcat('[', ']', Render(front), RenderGroup(last));
    }
  }

  lemma GroupDepth(g: Group)
    requires Plain(g.gap) && Nested('[', ']', g.body)
    ensures Nested('[', ']', RenderGroup(g))
  {
    DepthOfPlain('[', ']', g.gap);
    DepthStep('[', ']', g.gap, '[');
    DepthConcat('[', ']', g.gap + ['['], g.body);
    DepthStep('[', ']', g.gap + ['['] + g.body, ']');
    assert g.gap + "[" + g.body + "]" == g.gap + ['['] + g.body + [']'];
  }

  lemma TailDepth(tail: string)
    requires OpenTail(tail)
    ensures Lowest('[', ']', tail) >= 0
  {
    if Plain(tail) {
      DepthOfPlain('[', ']', tail);
    } else {
      var n: nat :| OpensAt(tail, n);
      LeftOpenDepth(tail[..n], tail[n + 1..]);
      assert tail == tail[..n] + ['['] + tail[n + 1..];
    }
  }

  lemma LeftOpenDepth(gap: string, body: string)
    requires Plain(gap) && Lowest('[', ']', body) >= 0
    ensures Lowest('[', ']', gap + ['['] + body) >= 0
  {
    DepthOfPlain('[', ']', gap);
    DepthStep('[', ']', gap, '[');
    DepthConcat('[', ']', gap + ['['], body);
  }

  /** One more character either keeps the tail open or finishes a group. */
  lemma TailGrows(tail: string, c: char) returns (closes: bool, g: Group)
    requires OpenTail(tail) && Lowest('[', ']', tail + [c]) >= 0
    ensures closes ==> Plain(g.gap) && Nested('[', ']', g.body) && tail + [c] == RenderGroup(g)
    ensures !closes ==> OpenTail(tail + [c])
  {
    closes, g := false, Group("", "");
    LowestBound('[', ']', tail + [c]);
    DepthStep('[', ']', tail, c);
    if Plain(tail) {
      DepthOfPlain('[', ']', tail);
      if c == '[' { PlainThenOpen(tail); }
    } else {
      var n: nat :| OpensAt(tail, n);
      closes, g := BracketGrows(tail, n, c);
    }
  }

  lemma BracketGrows(tail: string, n: nat, c: char) returns (closes: bool, g: Group)
    requires OpensAt(tail, n)
    ensures closes ==> Plain(g.gap) && Nested('[', ']', g.body) && tail + [c] == RenderGroup(g)
    ensures !closes ==> OpensAt(tail + [c], n)
  {
    var gap, body := tail[..n], tail[n + 1..];
    assert tail == gap + "[" + body;
    LowestBound('[', ']', body);
    DepthStep('[', ']', body, c);
    closes, g := c == ']' && Net('[', ']', body) == 0, Group(gap, body);
    assert (tail + [c])[n + 1..] == body + [c] && (tail + [c])[..n] == gap;
  }

  lemma PlainThenOpen(tail: string)
    requires Plain(tail)
    ensures OpensAt(tail + ['['], |tail|)
  {
    assert (tail + ['['])[..|tail|] == tail && (tail + ['['])[|tail| + 1..] == "";
  }

  lemma RenderMore(groups: seq<Group>, g: Group)
    ensures Render(groups + [g]) == Render(groups) + RenderGroup(g)
  {
    assert (groups + [g])[..|groups|] == groups;
  }

  lemma TailStaysUp(groups: seq<Group>, tail: string)
    requires WellFormed(groups) && Lowest('[', ']', Render(groups) + tail) >= 0
    ensures Lowest('[', ']', tail) >= 0
  {
    RenderedDepth(groups);
    DepthConcat('[', ']', Render(groups), tail);
  }

  /** Cut a text without a stray closing bracket into groups and a tail. */
  lemma {:induction false} Decompose(s: string) returns (groups: seq<Group>, tail: string)
    requires Lowest('[', ']', s) >= 0
    ensures WellFormed(groups) && OpenTail(tail) && s == Render(groups) + tail
  {
    if s == "" {
      groups, tail := [], "";
    } else {
      var c := s[|s| - 1];
      groups, tail := Decompose(s[..|s| - 1]);
      var grown := tail + [c];
      assert s == Render(groups) + grown;
      TailStaysUp(groups, grown);
      var closes, g := TailGrows(tail, c);
      if closes {
        RenderMore(groups, g);
        groups, tail := groups + [g], "";
      } else {
        tail := grown;
      }
    }
  }

  ghost predicate MadeOf(s: string, groups: seq<Group>, tail: string) {
    WellFormed(groups) && OpenTail(tail) && s == Render(groups) + tail
  }

  lemma MadeOfMeaning(s: string, groups: seq<Group>, tail: string)
    requires MadeOf(s, groups, tail)
    ensures Lowest('[', ']', s) >= 0 && ScanFrom(START, s).result == Bodies(groups)
  {
    RenderedDepth(groups);
    TailDepth(tail);
    DepthConcat('[', ']', Render(groups), tail);
    ExtractsBodies(groups, tail);
  }

  /** A text reads as groups and a tail exactly when no closing bracket in it is stray, and then the
      scanner returns exactly the groups' bodies. */
  lemma ExtractMeaning(s: string)
    ensures Lowest('[', ']', s) >= 0 <==> exists groups, tail :: MadeOf(s, groups, tail)
    ensures forall groups, tail | MadeOf(s, groups, tail) :: ScanFrom(START, s).result == Bodies(groups)
  {
    if Lowest('[', ']', s) >= 0 {
      var groups, tail := Decompose(s);
      assert MadeOf(s, groups, tail);
    }
    forall groups, tail | MadeOf(s, groups, tail)
      ensures Lowest('[', ']', s) >= 0 && ScanFrom(START, s).result == Bodies(groups)
    {
      MadeOfMeaning(s, groups, tail);
    }
  }

  /* ----- what comes out of any text ----- */

  /** The net depth before position `k`. */
  function Depth(s: string, k: nat): int
    requires k <= |s|
  {
    Net('[', ']', s[..k])
  }

  datatype Span = Span(first: nat, last: nat)

  /** At `i` the net depth rises from 0 to 1, and it has not come back to 0 since. */
  ghost predicate OpenSince(s: string, i: nat) {
    && i < |s| && s[i] == '[' && Depth(s, i) == 0
    && forall k: nat | i < k <= |s| :: Depth(s, k) >= 1
  }

  /** The net depth rises from 0 to 1 at the span's first bracket and next falls to 0 at its last. */
  ghost predicate IsSpan(s: string, span: Span) {
    span.last < |s| && s[span.last] == ']' && Depth(s, span.last + 1) == 0 && OpenSince(s[..span.last], span.first)
  }

  /** All the spans of a text, from left to right. */
  ghost predicate SpansOf(s: string, spans: seq<Span>) {
    && (forall k | 0 <= k < |spans| :: IsSpan(s, spans[k]))
    && (forall k, l | 0 <= k < l < |spans| :: spans[k].last < spans[l].first)
    && (forall span | IsSpan(s, span) :: span in spans)
  }

  ghost function Between(s: string, span: Span): string
    requires IsSpan(s, span)
  {
    s[span.first + 1..span.last]
  }

  ghost function Cut(s: string, spans: seq<Span>): seq<string>
    requires forall k | 0 <= k < |spans| :: IsSpan(s, spans[k])
  {
    seq(|spans|, k requires 0 <= k < |spans| => Between(s, spans[k]))
  }

  lemma DepthOfFront(front: string, c: char)
    ensures forall k: nat | k <= |front| :: (front + [c])[..k] == front[..k]
    ensures Net('[', ']', front + [c]) == Net('[', ']', front) + Delta('[', ']', c)
  {
    DepthStep('[', ']', front, c);
  }

  lemma SpanOfFront(front: string, c: char, span: Span)
    requires span.last < |front|
    ensures IsSpan(front + [c], span) <==> IsSpan(front, span)
    ensures IsSpan(front, span) ==> Between(front + [c], span) == Between(front, span)
  {
    DepthOfFront(front, c);
  }

  lemma OneOpening(s: string, i: nat, j: nat)
    requires OpenSince(s, i) && OpenSince(s, j)
    ensures i == j
  {
  }

  /** A span that ends with the text's last character runs from where the text before it was opened. */
  lemma LastSpan(front: string, c: char, span: Span)
    requires span.last == |front|
    ensures IsSpan(front + [c], span) <==>
            c == ']' && Net('[', ']', front) == 1 && OpenSince(front, span.first)
  {
    var s := front + [c];
    DepthOfFront(front, c);
    assert s[..|front|] == front && s[..|front| + 1] == s;
  }

  lemma OpeningGrows(front: string, c: char, start: nat)
    requires OpenSince(front, start) && Net('[', ']', front + [c]) >= 1
    ensures OpenSince(front + [c], start)
  {
    var s := front + [c];
    DepthOfFront(front, c);
    assert s[..|s|] == s;
    forall k: nat | start < k <= |s| ensures Depth(s, k) >= 1 {
      if k <= |front| { assert Depth(s, k) == Depth(front, k); }
    }
  }

  lemma OpeningStarts(front: string)
    requires Net('[', ']', front) == 0
    ensures OpenSince(front + ['['], |front|)
  {
    var s := front + ['['];
    DepthOfFront(front, '[');
    assert s[..|front|] == front && s[..|s|] == s;
  }

  lemma SpansStay(front: string, c: char, spans: seq<Span>)
    requires SpansOf(front, spans) && (c != ']' || Net('[', ']', front) != 1)
    ensures SpansOf(front + [c], spans) && Cut(front + [c], spans) == Cut(front, spans)
  {
    forall k | 0 <= k < |spans| ensures IsSpan(front + [c], spans[k]) { SpanOfFront(front, c, spans[k]); }
    forall span | IsSpan(front + [c], span) ensures span in spans {
      if span.last < |front| { SpanOfFront(front, c, span); } else { LastSpan(front, c, span); }
    }
    forall k | 0 <= k < |spans| ensures Cut(front + [c], spans)[k] == Cut(front, spans)[k] {
      SpanOfFront(front, c, spans[k]);
    }
  }

  /** One closing bracket at depth 1 finishes the span that was open. */
  lemma SpansGrow(front: string, spans: seq<Span>, start: nat)
    requires SpansOf(front, spans) && Net('[', ']', front) == 1 && OpenSince(front, start)
    ensures var s, last := front + [']'], Span(start, |front|);
            && SpansOf(s, spans + [last])
            && Cut(s, spans + [last]) == Cut(front, spans) + [front[start + 1..]]
  {
    var s, last := front + [']'], Span(start, |front|);
    LastSpan(front, ']', last);
    forall k | 0 <= k < |spans| ensures IsSpan(s, spans[k]) && spans[k].last < start {
      SpanOfFront(front, ']', spans[k]);
      SpanEndsBefore(front, spans[k], start);
    }
    forall span | IsSpan(s, span) ensures span in spans || span == last {
      OldOrLastSpan(front, spans, span, start);
    }
    CutMore(front, spans, last);
  }

  lemma OldOrLastSpan(front: string, spans: seq<Span>, span: Span, start: nat)
    requires SpansOf(front, spans) && OpenSince(front, start) && IsSpan(front + [']'], span)
    ensures span in spans || span == Span(start, |front|)
  {
    if span.last < |front| {
      SpanOfFront(front, ']', span);
    } else {
      LastSpan(front, ']', span);
      OneOpening(front, span.first, start);
    }
  }

  lemma CutMore(front: string, spans: seq<Span>, last: Span)
    requires forall k | 0 <= k < |spans| :: IsSpan(front, spans[k]) && IsSpan(front + [']'], spans[k])
    requires last.last == |front| && IsSpan(front + [']'], last)
    ensures Cut(front + [']'], spans + [last]) == Cut(front, spans) + [front[last.first + 1..]]
  {
    forall k | 0 <= k < |spans| ensures Between(front + [']'], spans[k]) == Between(front, spans[k]) {
      SpanOfFront(front, ']', spans[k]);
    }
    assert (front + [']'])[last.first + 1..|front|] == front[last.first + 1..];
  }

  /** No finished span reaches past where the open bracket starts. */
  lemma SpanEndsBefore(s: string, span: Span, start: nat)
    requires IsSpan(s, span) && OpenSince(s, start)
    ensures span.last < start
  {
    assert Depth(s, span.last + 1) == 0 && s[span.last] != '[';
  }

  /** While the net depth is positive, the scanner stands in the bracket opened at `start`. */
  ghost predicate Stands(scan: Scan, s: string, start: nat) {
    && scan.depth == Net('[', ']', s) && (scan.inBracket <==> scan.depth >= 1)
    && (scan.inBracket ==> OpenSince(s, start) && scan.current == s[start + 1..])
  }

  lemma StandsOn(scan: Scan, front: string, c: char, start: nat) returns (start': nat)
    requires Stands(scan, front, start)
    ensures Stands(Step(scan, c), front + [c], start')
  {
    DepthOfFront(front, c);
    start' := start;
    if c == '[' && scan.depth == 0 {
      OpeningStarts(front);
      start' := |front|;
    } else if Step(scan, c).inBracket {
      OpeningGrows(front, c, start);
      assert (front + [c])[start + 1..] == front[start + 1..] + [c];
    }
  }

  /** From any text, stray brackets or not, come out exactly the texts between each rise of the net
      depth from 0 to 1 and its next fall to 0, from left to right. */
  lemma {:induction false} ExtractsSpans(s: string) returns (spans: seq<Span>, start: nat)
    ensures SpansOf(s, spans) && ScanFrom(START, s).result == Cut(s, spans)
    ensures Stands(ScanFrom(START, s), s, start)
  {
    if s == "" {
      spans, start := [], 0;
    } else {
      var front, c := s[..|s| - 1], s[|s| - 1];
      assert s == front + [c];
      spans, start := ExtractsSpans(front);
      var scan := ScanFrom(START, front);
      if c == ']' && scan.depth == 1 {
        SpansGrow(front, spans, start);
        spans := spans + [Span(start, |front|)];
      } else {
        SpansStay(front, c, spans);
      }
      start := StandsOn(scan, front, c, start);
    }
  }

  /** A top-level body can be missed: after a stray closing bracket a plain bracketed text is not found. */
  lemma StrayBracketHides(gap: string, body: string)
    requires Plain(gap) && Plain(body)
    ensures ScanFrom(START, gap + "]" + "[" + body + "]").result == []
  {
    ScanGap(START, gap);
    ScanConcat(START, gap, "]");
    ScanOneChar(START, ']');
    ScanConcat(START, gap + "]", "[");
    ScanOneChar(Scan([], -1, "]", false), '[');
    var s := ScanFrom(START, gap + "]" + "[");
    ScanConcat(START, gap + "]" + "[", body);
    ScanGap(s, body);
    ScanConcat(START, gap + "]" + "[" + body, "]");
    ScanOneChar(s, ']');
  }
}
