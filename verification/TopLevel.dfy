/** Splitting at top-level separators and cutting out top-level brackets. */
module TopLevel {
  import opened Sequences
  import opened Whitespace
  import opened Scanners

  /* ----- _split_top_level ----- */

  /** The scanner stands just after a separator outside parentheses. */
  predicate CutAfter(s: string, sep: char) { s != "" && s[|s| - 1] == sep && Net('(', ')', s) <= 0 }

  /** The pieces finished by the scan of `s`, and the piece under way. */
  function Scan(s: string, sep: char): (seq<string>, string) {
    if s == "" then ([], "") else
      var (done, current) := Scan(s[..|s| - 1], sep);
      if CutAfter(s, sep) then (done + [current], "") else (done, current + [s[|s| - 1]])
  }

  function StripAll(pieces: seq<string>): seq<string> {
    if pieces == [] then [] else StripAll(pieces[..|pieces| - 1]) + [Strip(pieces[|pieces| - 1])]
  }

  function DropEmpty(pieces: seq<string>): seq<string> {
    if pieces == [] then [] else
      DropEmpty(pieces[..|pieces| - 1]) + if pieces[|pieces| - 1] == "" then [] else [pieces[|pieces| - 1]]
  }

  function SplitTopLevel(s: string, sep: char): seq<string> {
    var (done, current) := Scan(s, sep);
    DropEmpty(StripAll(done + [current]))
  }

  method SplitTopLevelByScan(s: string, sep: char) returns (result: seq<string>)
    ensures result == SplitTopLevel(s, sep)
  {
    var parts, depth, current := [], 0, "";
    ghost var done := [];
    for i := 0 to |s|
      invariant Scan(s[..i], sep) == (done, current) && parts == StripAll(done)
      invariant depth == Net('(', ')', s[..i])
    {
      assert s[..i + 1][..i] == s[..i];
      var ch := s[i];
      if ch == '(' { depth := depth + 1; } else if ch == ')' { depth := depth - 1; }
      if ch == sep && depth <= 0 {
        assert (done + [current])[..|done|] == done;
        done := done + [current];
        parts, current := parts + [Strip(current)], "";
      } else {
        current := current + [ch];
      }
    }
    assert s[..|s|] == s;
    assert (done + [current])[..|done|] == done;
    if current != "" {
      parts := parts + [Strip(current)];
    } else {
      assert DropEmpty(parts + [""]) == DropEmpty(parts) by { assert (parts + [""])[..|parts|] == parts; }
    }
    result := WithoutEmpty(parts);
  }

  method WithoutEmpty(parts: seq<string>) returns (result: seq<string>)
    ensures result == DropEmpty(parts)
  {
    result := [];
    for i := 0 to |parts|
      invariant result == DropEmpty(parts[..i])
    {
      assert parts[..i + 1][..i] == parts[..i];
      if parts[i] != "" { result := result + [parts[i]]; }
    }
    assert parts[..|parts|] == parts;
  }

  /** Nothing is lost before stripping: the pieces joined by the separator are the text. */
  lemma {:induction false} ScanIsLossless(s: string, sep: char)
    ensures var (done, current) := Scan(s, sep); Join(done + [current], [sep]) == s
  {
    if s != "" {
      var front := s[..|s| - 1];
      ScanIsLossless(front, sep);
      var (done, current) := Scan(front, sep);
      assert s == front + [s[|s| - 1]];
      if CutAfter(s, sep) {
        JoinAppend(done + [current], "", [sep]);
        assert done + [current] + [""] == (done + [current]) + [""];
      } else {
        JoinGrow(done, current, [s[|s| - 1]], [sep]);
      }
    }
  }

  /** A separator at which the text so far has closed as many parentheses as it has opened, or more. */
  ghost predicate SeparatesAt(s: string, sep: char, i: nat) {
    i < |s| && s[i] == sep && Net('(', ')', s[..i + 1]) <= 0
  }

  /** `cuts` lists, in order, exactly these places. */
  ghost predicate CutsOf(s: string, sep: char, cuts: seq<nat>) {
    && (forall i, j | 0 <= i < j < |cuts| :: cuts[i] < cuts[j])
    && (forall i: nat | i < |s| :: i in cuts <==> SeparatesAt(s, sep, i))
    && (forall i | 0 <= i < |cuts| :: cuts[i] < |s|)
  }

  /** Where the piece that ends at cut `k` begins. */
  ghost function PieceStart(cuts: seq<nat>, k: nat): nat
    requires k <= |cuts|
  {
    if k == 0 then 0 else cuts[k - 1] + 1
  }

  /** `text` stands between cut `k` and the one before it. */
  ghost predicate PieceAt(s: string, cuts: seq<nat>, k: nat, text: string)
    requires k < |cuts|
  {
    PieceStart(cuts, k) <= cuts[k] < |s| && text == s[PieceStart(cuts, k)..cuts[k]]
  }

  ghost predicate LastPiece(s: string, cuts: seq<nat>, text: string) {
    PieceStart(cuts, |cuts|) <= |s| && text == s[PieceStart(cuts, |cuts|)..]
  }

  ghost predicate PiecesBetween(s: string, cuts: seq<nat>, done: seq<string>, current: string) {
    && |done| == |cuts| && (forall k | 0 <= k < |cuts| :: PieceAt(s, cuts, k, done[k]))
    && LastPiece(s, cuts, current)
  }

  lemma CutsStep(front: string, c: char, sep: char, cuts: seq<nat>)
    requires CutsOf(front, sep, cuts)
    ensures CutsOf(front + [c], sep, if CutAfter(front + [c], sep) then cuts + [|front|] else cuts)
  {
    var s := front + [c];
    var more: seq<nat> := if CutAfter(s, sep) then cuts + [|front|] else cuts;
    assert s[..|s|] == s;
    forall i: nat | i < |s| ensures i in more <==> SeparatesAt(s, sep, i) {
      assert i in more <==> i in cuts || (CutAfter(s, sep) && i == |front|);
      if i < |front| { assert s[..i + 1] == front[..i + 1]; }
    }
  }

  lemma PieceStays(front: string, c: char, cuts: seq<nat>, k: nat, text: string)
    requires k < |cuts| && PieceAt(front, cuts, k, text)
    ensures PieceAt(front + [c], cuts, k, text) && PieceAt(front + [c], cuts + [|front|], k, text)
  {
    assert front[PieceStart(cuts, k)..cuts[k]] == (front + [c])[PieceStart(cuts, k)..cuts[k]];
  }

  lemma PieceEnds(front: string, c: char, cuts: seq<nat>, current: string)
    requires LastPiece(front, cuts, current)
    ensures LastPiece(front + [c], cuts, current + [c])
    ensures PieceAt(front + [c], cuts + [|front|], |cuts|, current) && LastPiece(front + [c], cuts + [|front|], "")
  {
    var from := PieceStart(cuts, |cuts|);
    assert front[from..] + [c] == (front + [c])[from..];
    assert front[from..] == (front + [c])[from..|front|];
  }

  lemma PiecesStep(front: string, c: char, cuts: seq<nat>, done: seq<string>, current: string)
    requires PiecesBetween(front, cuts, done, current)
    ensures PiecesBetween(front + [c], cuts, done, current + [c])
    ensures PiecesBetween(front + [c], cuts + [|front|], done + [current], "")
  {
    PieceEnds(front, c, cuts, current);
    forall k | 0 <= k < |cuts|
      ensures PieceAt(front + [c], cuts, k, done[k]) && PieceAt(front + [c], cuts + [|front|], k, done[k])
    {
      PieceStays(front, c, cuts, k, done[k]);
    }
  }

  /** The raw pieces are what stands between the separators outside parentheses: every one of those cuts
      the text, and nothing else does. */
  lemma {:induction false} ScanCutsMeaning(s: string, sep: char) returns (cuts: seq<nat>)
    ensures CutsOf(s, sep, cuts) && PiecesBetween(s, cuts, Scan(s, sep).0, Scan(s, sep).1)
  {
    if s == "" {
      cuts := [];
    } else {
      var front, c := s[..|s| - 1], s[|s| - 1];
      cuts := ScanCutsMeaning(front, sep);
      assert s == front + [c];
      CutsStep(front, c, sep, cuts);
      var (done, current) := Scan(front, sep);
      PiecesStep(front, c, cuts, done, current);
      if CutAfter(s, sep) { cuts := cuts + [|front|]; }
    }
  }

  lemma {:induction false} JoinAppend(parts: seq<string>, last: string, sep: string)
    requires parts != []
    ensures Join(parts + [last], sep) == Join(parts, sep) + sep + last
  {
    if |parts| == 1 {
      assert (parts + [last])[1..] == [last];
    } else {
      JoinAppend(parts[1..], last, sep);
      assert (parts + [last])[1..] == parts[1..] + [last];
      var rest := Join(parts[1..], sep);
      assert parts[0] + sep + (rest + sep + last) == (parts[0] + sep + rest) + sep + last;
    }
  }

  lemma JoinGrow(done: seq<string>, current: string, more: string, sep: string)
    ensures Join(done + [current + more], sep) == Join(done + [current], sep) + more
  {
    if done == [] {
      assert done + [current] == [current] && done + [current + more] == [current + more];
    } else {
      JoinAppend(done, current, sep);
      JoinAppend(done, current + more, sep);
    }
  }

  lemma {:induction false} ScanKeepsNesting(s: string, sep: char)
    requires sep != '(' && sep != ')' && Lowest('(', ')', s) >= 0
    ensures var (done, current) := Scan(s, sep);
            && (forall p | p in done :: Nested('(', ')', p))
            && Net('(', ')', current) == Net('(', ')', s) && Lowest('(', ')', current) >= 0
  {
    if s != "" {
      var front, c := s[..|s| - 1], s[|s| - 1];
      ScanKeepsNesting(front, sep);
      var (_, current) := Scan(front, sep);
      DepthStep('(', ')', current, c);
    }
  }

  lemma StrippingKeepsNesting(s: string)
    requires Nested('(', ')', s)
    ensures Nested('(', ')', Strip(s))
  {
    var before, after := StripTakesEnds(s);
    assert forall c | c in before :: c in before + after;
    assert forall c | c in after :: c in before + after;
    DepthOfPlain('(', ')', before);
    DepthOfPlain('(', ')', after);
    DepthConcat('(', ')', before, Strip(s));
    DepthConcat('(', ')', before + Strip(s), after);
    LowestBound('(', ')', Strip(s));
  }

  lemma {:induction false} CleanedPieces(pieces: seq<string>, p: string)
    requires p in DropEmpty(StripAll(pieces))
    ensures exists q :: q in pieces && p == Strip(q) && p != ""
  {
    var front, last := pieces[..|pieces| - 1], pieces[|pieces| - 1];
    assert pieces == front + [last];
    assert StripAll(pieces)[..|StripAll(front)|] == StripAll(front);
    if p in DropEmpty(StripAll(front)) {
      CleanedPieces(front, p);
      var q :| q in front && p == Strip(q);
      assert q in pieces;
    } else {
      assert last in pieces;
    }
  }

  /** Every piece of a well-nested text is well-nested, trimmed and non-empty. */
  lemma PiecesNested(s: string, sep: char)
    requires sep != '(' && sep != ')' && Nested('(', ')', s)
    ensures forall p | p in SplitTopLevel(s, sep) :: p != "" && Trimmed(p) && Nested('(', ')', p)
  {
    ScanKeepsNesting(s, sep);
    var (done, current) := Scan(s, sep);
    forall p | p in SplitTopLevel(s, sep) ensures p != "" && Trimmed(p) && Nested('(', ')', p) {
      CleanedPieces(done + [current], p);
      var q :| q in done + [current] && p == Strip(q);
      StrippingKeepsNesting(q);
      var before, after := StripTakesEnds(q);
    }
  }

  /** A part that the splitter must give back whole. */
  ghost predicate Part(p: string) {
    && p != "" && Trimmed(p) && Nested('(', ')', p)
    && forall i | 0 <= i < |p| && p[i] == ',' :: Net('(', ')', p[..i + 1]) > 0
  }

  lemma ScanOneChar(t: string, c: char)
    requires !CutAfter(t + [c], ',')
    ensures Scan(t + [c], ',') == (Scan(t, ',').0, Scan(t, ',').1 + [c])
  {
    assert (t + [c])[..|t|] == t;
  }

  /** The scanner does not cut inside a part that begins outside parentheses. */
  lemma NoCutInPart(t: string, p: string, n: nat)
    requires Part(p) && n < |p| && Net('(', ')', t) == 0
    ensures !CutAfter(t + p[..n + 1], ',')
  {
    DepthConcat('(', ')', t, p[..n + 1]);
    assert (t + p[..n + 1])[|t| + n] == p[n];
  }

  lemma TakeOneMore(t: string, p: string, n: nat)
    requires n < |p|
    ensures t + p[..n + 1] == t + p[..n] + [p[n]]
  {
  }

  /** Scanning on through a prefix of a part, from outside parentheses, only grows the current piece. */
  lemma {:induction false} ScanThroughPart(t: string, p: string, n: nat)
    requires Part(p) && n <= |p| && Net('(', ')', t) == 0
    ensures Scan(t + p[..n], ',') == (Scan(t, ',').0, Scan(t, ',').1 + p[..n])
  {
    if n == 0 {
      assert t + p[..0] == t;
      assert Scan(t, ',').1 + p[..0] == Scan(t, ',').1;
    } else {
      ScanThroughPart(t, p, n - 1);
      NoCutInPart(t, p, n - 1);
      TakeOneMore(t, p, n - 1);
      ScanOneChar(t + p[..n - 1], p[n - 1]);
      TakeOneMore(Scan(t, ',').1, p, n - 1);
    }
  }

  /** The raw pieces of a ", "-join: all parts but the first keep the blank before them. */
  function Blanked(parts: seq<string>): seq<string>
    requires parts != []
  {
    if |parts| == 1 then parts else Blanked(parts[..|parts| - 1]) + [" " + parts[|parts| - 1]]
  }

  /** A comma and a blank outside parentheses finish a piece and start the next with the blank. */
  lemma ScanSeparator(s: string)
    requires Net('(', ')', s) == 0
    ensures Scan(s + ", ", ',') == (Scan(s, ',').0 + [Scan(s, ',').1], " ") && Net('(', ')', s + ", ") == 0
  {
    var afterComma := s + [','];
    assert afterComma[..|s|] == s;
    DepthStep('(', ')', s, ',');
    assert Scan(afterComma, ',') == (Scan(s, ',').0 + [Scan(s, ',').1], "");
    DepthStep('(', ')', afterComma, ' ');
    assert s + ", " == afterComma + [' '];
    assert (s + ", ")[..|s + ", "| - 1] == afterComma && (s + ", ")[|s + ", "| - 1] == ' ';
    assert "" + [' '] == " ";
  }

  /** A whole part after `t` is appended to the current piece. */
  lemma ScanWholePart(t: string, p: string)
    requires Part(p) && Net('(', ')', t) == 0
    ensures Scan(t + p, ',') == (Scan(t, ',').0, Scan(t, ',').1 + p) && Net('(', ')', t + p) == 0
  {
    ScanThroughPart(t, p, |p|);
    assert p[..|p|] == p;
    DepthConcat('(', ')', t, p);
  }

  /** The raw pieces the scan of `s` ends with. */
  function Pieces(s: string): seq<string> { Scan(s, ',').0 + [Scan(s, ',').1] }

  lemma ScanOneMore(s: string, last: string)
    requires Part(last) && Net('(', ')', s) == 0
    ensures Pieces(s + ", " + last) == Pieces(s) + [" " + last] && Net('(', ')', s + ", " + last) == 0
  {
    ScanSeparator(s);
    ScanWholePart(s + ", ", last);
  }

  lemma {:induction false} ScanOfJoin(parts: seq<string>)
    requires parts != [] && forall p | p in parts :: Part(p)
    ensures Pieces(Join(parts, ", ")) == Blanked(parts) && Net('(', ')', Join(parts, ", ")) == 0
  {
    var last := parts[|parts| - 1];
    assert last in parts;
    if |parts| == 1 {
      ScanWholePart("", last);
      assert "" + last == last && parts == [last];
    } else {
      var front := parts[..|parts| - 1];
      ScanOfJoin(front);
      assert parts == front + [last];
      JoinAppend(front, last, ", ");
      ScanOneMore(Join(front, ", "), last);
    }
  }

  lemma {:induction false} CleanBlanked(parts: seq<string>)
    requires parts != [] && forall p | p in parts :: Part(p)
    ensures DropEmpty(StripAll(Blanked(parts))) == parts
  {
    var front, last := parts[..|parts| - 1], parts[|parts| - 1];
    assert last in parts && parts == front + [last];
    StripAfterBlank("", last);
    StripAfterBlank(" ", last);
    assert "" + last == last;
    if |parts| == 1 {
      assert StripAll(parts) == StripAll(parts[..0]) + [last];
    } else {
      CleanBlanked(front);
      var b := Blanked(front);
      assert (b + [" " + last])[..|b|] == b;
      assert (StripAll(b) + [last])[..|StripAll(b)|] == StripAll(b);
    }
  }

  /** Splitting the ", "-join of parts gives the parts back. */
  lemma SplitOfJoinedParts(parts: seq<string>)
    requires forall p | p in parts :: Part(p)
    ensures SplitTopLevel(Join(parts, ", "), ',') == parts
  {
    if parts == [] {
      assert StripAll([""])[..0] == [];
    } else {
      ScanOfJoin(parts);
      CleanBlanked(parts);
    }
  }
}
