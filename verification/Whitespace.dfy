/** Python's `strip` and its halves. */
module Whitespace {

  /** Python's `str.isspace` on one character, which is also what `\s` matches. */
  predicate IsSpace(c: char) {
    || '\t' <= c <= '\r' || '\U{001C}' <= c <= ' ' || c == '\U{0085}' || c == '\U{00A0}' || c == '\U{1680}'
    || '\U{2000}' <= c <= '\U{200A}' || c == '\U{2028}' || c == '\U{2029}' || c == '\U{202F}'
    || c == '\U{205F}' || c == '\U{3000}'
  }

  /** The white-space characters by their code points. */
  lemma SpaceCodes(c: char)
    ensures var n := c as int;
            IsSpace(c) <==> 9 <= n <= 13 || 28 <= n <= 32 || n == 133 || n == 160 || n == 5760 || 8192 <= n <= 8202
                            || n == 8232 || n == 8233 || n == 8239 || n == 8287 || n == 12288
  {
  }

  /** The length of the leading white space. */
  function Indent(line: string): (n: nat)
    ensures n <= |line| && (forall k | 0 <= k < n :: IsSpace(line[k])) && (n < |line| ==> !IsSpace(line[n]))
  {
    if line == "" || !IsSpace(line[0]) then 0 else 1 + Indent(line[1..])
  }

  function LStrip(s: string): string { s[Indent(s)..] }

  function RStrip(s: string): string {
    if s == "" || !IsSpace(s[|s| - 1]) then s else RStrip(s[..|s| - 1])
  }

  function Strip(s: string): string { RStrip(LStrip(s)) }

  /** Text that `strip` leaves alone. */
  predicate Trimmed(s: string) { s == "" || (!IsSpace(s[0]) && !IsSpace(s[|s| - 1])) }

  predicate Blank(s: string) { forall c | c in s :: IsSpace(c) }

  lemma {:induction false} IndentAfterBlank(gap: string, s: string)
    requires Blank(gap)
    ensures Indent(gap + s) == |gap| + Indent(s)
  {
    if gap == "" {
      assert gap + s == s;
    } else {
      assert gap[0] in gap;
      assert forall c | c in gap[1..] :: c in gap;
      IndentAfterBlank(gap[1..], s);
      assert (gap + s)[1..] == gap[1..] + s;
    }
  }

  /** The indentation is the white space before the first other character. */
  lemma IndentIs(line: string, k: nat)
    requires k <= |line| && Blank(line[..k]) && (k < |line| ==> !IsSpace(line[k]))
    ensures Indent(line) == k
  {
    IndentAfterBlank(line[..k], line[k..]);
    assert line == line[..k] + line[k..];
  }

  lemma IndentIsBlank(line: string)
    ensures Blank(line[..Indent(line)])
  {
  }

  lemma StripAfterBlank(gap: string, s: string)
    requires Blank(gap) && Trimmed(s)
    ensures Strip(gap + s) == s
  {
    IndentAfterBlank(gap, s);
    assert Indent(s) == 0;
    assert LStrip(gap + s) == s by { assert (gap + s)[|gap|..] == s; }
  }

  /** Stripping takes white space off both ends and nothing else. */
  lemma StripTakesEnds(s: string) returns (before: string, after: string)
    ensures s == before + Strip(s) + after && Trimmed(Strip(s))
    ensures forall c | c in before + after :: IsSpace(c)
  {
    var left := LStrip(s);
    before := s[..Indent(s)];
    after := RStripTakesEnd(left);
    assert s == before + left;
    assert before + left == before + (Strip(s) + after);
  }

  lemma {:induction false} RStripTakesEnd(s: string) returns (after: string)
    ensures s == RStrip(s) + after && forall c | c in after :: IsSpace(c)
    ensures RStrip(s) != "" ==> RStrip(s)[0] == s[0] && !IsSpace(RStrip(s)[|RStrip(s)| - 1])
  {
    if s == "" || !IsSpace(s[|s| - 1]) {
      after := "";
    } else {
      var rest := RStripTakesEnd(s[..|s| - 1]);
      after := rest + [s[|s| - 1]];
    }
  }

  lemma RStripBegins(s: string)
    requires s != "" && !IsSpace(s[0])
    ensures RStrip(s) != "" && RStrip(s)[0] == s[0]
  {
    var after := RStripTakesEnd(s);
    assert RStrip(s) == "" ==> after == s;
    assert s[0] in s;
  }

  lemma BlankIffAllIndent(s: string)
    ensures Blank(s) <==> Indent(s) == |s|
  {
    IndentIsBlank(s);
    if Indent(s) < |s| { assert s[Indent(s)] in s; } else { assert s[..|s|] == s; }
  }

  /** Stripping leaves nothing exactly of white space; otherwise the text begins with its first other
      character. */
  lemma StripBegins(s: string)
    ensures Strip(s) == "" <==> Blank(s)
    ensures !Blank(s) ==> Indent(s) < |s| && Strip(s)[0] == s[Indent(s)]
  {
    BlankIffAllIndent(s);
    if Indent(s) < |s| { RStripBegins(LStrip(s)); }
  }
}
