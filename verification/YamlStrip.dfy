/** Stripping key blocks from a Compose file: the line automaton against a declarative account of
    which lines go. */
module YamlStrip {
  import opened Sequences
  import opened Whitespace

  predicate BlankOrComment(line: string) { LStrip(line) == "" || LStrip(line)[0] == '#' }

  /** The regular expression `^(\s+)key:` matches with a group of `j` characters. */
  predicate KeyAfter(line: string, key: string, j: nat) {
    1 <= j <= Indent(line) && key + ":" <= line[j..]
  }

  /** Keys as both callers give them: without leading white space. */
  predicate TrimmedKeys(keys: seq<string>) { forall k | k in keys :: k == "" || !IsSpace(k[0]) }

  /** For a trimmed key the group can only be the whole indentation. */
  lemma KeyFollowsIndent(line: string, key: string, j: nat)
    requires key == "" || !IsSpace(key[0])
    requires KeyAfter(line, key, j)
    ensures j == Indent(line)
  {
    var rest := line[j..];
    assert (key + ":")[0] == rest[0] == line[j];
  }

  predicate HasKey(line: string, key: string) { KeyAfter(line, key, Indent(line)) }

  function TailAfter(line: string, key: string): string
    requires HasKey(line, key)
  {
    line[Indent(line) + |key| + 1..]
  }

  function ValueAfter(line: string, key: string): string
    requires HasKey(line, key)
  {
    Strip(TailAfter(line, key))
  }

  predicate BlockValue(value: string) { value == "" || value[0] == '{' || value[0] == '|' || value[0] == '>' }

  /** What the first matching key says of a line: no match, a one-line value, or a block. */
  datatype Verdict = NoKey | OneLine | Block

  function Judge(line: string, keys: seq<string>): Verdict {
    if keys == [] || BlankOrComment(line) then NoKey
    else if HasKey(line, keys[0]) then if BlockValue(ValueAfter(line, keys[0])) then Block else OneLine
    else Judge(line, keys[1..])
  }

  lemma KeyLineParts(line: string, indent: string, key: string, tail: string)
    requires line == indent + (key + ":" + tail)
    requires indent != "" && Blank(indent) && key != "" && !IsSpace(key[0]) && key[0] != '#'
    ensures Indent(line) == |indent| && HasKey(line, key) && !BlankOrComment(line)
    ensures TailAfter(line, key) == tail
  {
    var rest := key + ":" + tail;
    IndentAfterBlank(indent, rest);
    assert rest[0] == key[0];
    assert line[|indent|..] == rest;
    assert rest[..|key + ":"|] == key + ":";
  }

  /** A line written as indentation, key, colon, white space and a trimmed value is a key line for that
      key, with a block below it exactly when the value is empty or starts a flow map or a block scalar. */
  lemma WrittenKeyLine(line: string, indent: string, key: string, tail: string, gap: string, value: string)
    requires line == indent + (key + ":" + tail) && tail == gap + value
    requires indent != "" && Blank(indent) && Blank(gap) && Trimmed(value)
    requires key != "" && !IsSpace(key[0]) && key[0] != '#'
    ensures Judge(line, [key]) ==
            if value == "" || value[0] == '{' || value[0] == '|' || value[0] == '>' then Block else OneLine
  {
    KeyLineParts(line, indent, key, tail);
    StripAfterBlank(gap, value);
    JudgeOne(line, key, value);
  }

  lemma JudgeOne(line: string, key: string, value: string)
    requires HasKey(line, key) && !BlankOrComment(line) && ValueAfter(line, key) == value
    ensures Judge(line, [key]) == if BlockValue(value) then Block else OneLine
  {
  }

  predicate KeyLine(line: string, keys: seq<string>) { !Judge(line, keys).NoKey? }

  /** A blank, comment or deeper-indented line belongs to the block above it. */
  predicate Absorbed(line: string, indent: nat) { BlankOrComment(line) || Indent(line) > indent }

  /** The block opened by line `j` reaches down to just before line `i`. */
  ghost predicate OpenBefore(lines: seq<string>, keys: seq<string>, j: nat, i: nat) {
    && j < i <= |lines| && Judge(lines[j], keys).Block?
    && forall k | j < k < i :: Absorbed(lines[k], Indent(lines[j]))
  }

  /** Line `i` goes: it is a key line, or part of the unbroken run of absorbed lines below a
      block-valued key line. */
  ghost predicate Removed(lines: seq<string>, keys: seq<string>, i: nat)
    requires i < |lines|
  {
    KeyLine(lines[i], keys) || exists j: nat :: OpenBefore(lines, keys, j, i) && Absorbed(lines[i], Indent(lines[j]))
  }

  /** The lines that stay, by index. */
  ghost function KeptIndexes(lines: seq<string>, keys: seq<string>, n: nat): (r: seq<nat>)
    requires n <= |lines|
    ensures forall a | 0 <= a < |r| :: r[a] < n && !Removed(lines, keys, r[a])
    ensures forall a, b | 0 <= a < b < |r| :: r[a] < r[b]
    ensures forall k: nat | k < n && !Removed(lines, keys, k) :: k in r
  {
    if n == 0 then [] else
      KeptIndexes(lines, keys, n - 1) + if Removed(lines, keys, n - 1) then [] else [n - 1]
  }

  /** The lines that stay, in order. */
  ghost function Kept(lines: seq<string>, keys: seq<string>, n: nat): (r: seq<string>)
    requires n <= |lines|
    ensures |r| == |KeptIndexes(lines, keys, n)|
    ensures forall i | 0 <= i < |r| :: r[i] == lines[KeptIndexes(lines, keys, n)[i]]
  {
    var indexes := KeptIndexes(lines, keys, n);
    seq(|indexes|, i requires 0 <= i < |indexes| => lines[indexes[i]])
  }

  lemma KeptStep(lines: seq<string>, keys: seq<string>, n: nat)
    requires n < |lines|
    ensures Kept(lines, keys, n + 1) == Kept(lines, keys, n) + if Removed(lines, keys, n) then [] else [lines[n]]
  {
  }

  /* ----- the automaton ----- */

  /** `skipping` says whether a block is open, `skipIndent` how shallow the outermost open one is. */
  ghost predicate Tracks(lines: seq<string>, keys: seq<string>, i: nat, skipping: bool, skipIndent: nat) {
    && (skipping ==> exists j: nat :: OpenBefore(lines, keys, j, i) && Indent(lines[j]) == skipIndent)
    && (forall j: nat | OpenBefore(lines, keys, j, i) :: skipping && Indent(lines[j]) >= skipIndent)
  }

  lemma OpenStep(lines: seq<string>, keys: seq<string>, j: nat, i: nat)
    requires i < |lines|
    ensures OpenBefore(lines, keys, j, i + 1) <==>
            if j == i then Judge(lines[i], keys).Block?
            else OpenBefore(lines, keys, j, i) && Absorbed(lines[i], Indent(lines[j]))
  {
  }

  lemma AbsorbedStep(lines: seq<string>, keys: seq<string>, i: nat, skipIndent: nat)
    requires i < |lines| && Tracks(lines, keys, i, true, skipIndent) && Absorbed(lines[i], skipIndent)
    ensures Removed(lines, keys, i) && Tracks(lines, keys, i + 1, true, skipIndent)
  {
    var o: nat :| OpenBefore(lines, keys, o, i) && Indent(lines[o]) == skipIndent;
    OpenStep(lines, keys, o, i);
    forall j: nat { OpenStep(lines, keys, j, i); }
  }

  lemma FreeStep(lines: seq<string>, keys: seq<string>, i: nat, skipping: bool, skipIndent: nat)
    requires i < |lines| && Tracks(lines, keys, i, skipping, skipIndent)
    requires skipping ==> !Absorbed(lines[i], skipIndent)
    ensures Removed(lines, keys, i) <==> KeyLine(lines[i], keys)
    ensures Tracks(lines, keys, i + 1, Judge(lines[i], keys).Block?, Indent(lines[i]))
  {
    forall j: nat { OpenStep(lines, keys, j, i); }
  }

  method StripLines(lines: seq<string>, keys: seq<string>) returns (result: seq<string>)
    ensures result == Kept(lines, keys, |lines|)
  {
    result := [];
    var skipping, skipIndent := false, 0;
    for i := 0 to |lines|
      invariant result == Kept(lines, keys, i)
      invariant Tracks(lines, keys, i, skipping, skipIndent)
    {
      var line := lines[i];
      KeptStep(lines, keys, i);
      if skipping && Absorbed(line, skipIndent) {
        AbsorbedStep(lines, keys, i, skipIndent);
        continue;
      }
      FreeStep(lines, keys, i, skipping, skipIndent);
      var verdict := JudgeLine(line, keys);
      skipping, skipIndent := verdict.Block?, Indent(line);
      if verdict.NoKey? { result := result + [line]; }
    }
  }

  /** The loop over the keys, left at the first match. */
  method JudgeLine(line: string, keys: seq<string>) returns (verdict: Verdict)
    ensures verdict == Judge(line, keys)
  {
    if BlankOrComment(line) { return NoKey; }
    for i := 0 to |keys|
      invariant Judge(line, keys) == Judge(line, keys[i..])
    {
      if HasKey(line, keys[i]) {
        return if BlockValue(ValueAfter(line, keys[i])) then Block else OneLine;
      }
    }
    return NoKey;
  }

  /** The output lines in source order, none of them a key line. */
  lemma OutputHasNoKeyLine(lines: seq<string>, keys: seq<string>)
    ensures forall l | l in Kept(lines, keys, |lines|) :: l in lines && !KeyLine(l, keys)
  {
  }

  ghost predicate NoKeyLines(lines: seq<string>, keys: seq<string>) {
    forall j | 0 <= j < |lines| :: Judge(lines[j], keys).NoKey?
  }

  lemma {:induction false} NothingToStrip(lines: seq<string>, keys: seq<string>, n: nat)
    requires n <= |lines| && NoKeyLines(lines, keys)
    ensures Kept(lines, keys, n) == lines[..n]
  {
    if n > 0 {
      NothingToStrip(lines, keys, n - 1);
      NothingRemoved(lines, keys, n - 1);
      KeepOneMore(lines, keys, n - 1);
    }
  }

  lemma KeepOneMore(lines: seq<string>, keys: seq<string>, n: nat)
    requires n < |lines| && !Removed(lines, keys, n) && Kept(lines, keys, n) == lines[..n]
    ensures Kept(lines, keys, n + 1) == lines[..n + 1]
  {
    KeptStep(lines, keys, n);
    assert lines[..n + 1] == lines[..n] + [lines[n]];
  }

  lemma NothingRemoved(lines: seq<string>, keys: seq<string>, i: nat)
    requires i < |lines| && NoKeyLines(lines, keys)
    ensures !Removed(lines, keys, i)
  {
  }

  /* ----- the same, said of the characters of the lines ----- */

  ghost predicate CommentLine(line: string) {
    Blank(line) || exists k: nat :: CharAfterBlank(line, k, '#')
  }

  /** `c` is the first character of `line` that is no white space, and stands at `k`. */
  ghost predicate CharAfterBlank(line: string, k: nat, c: char) { k < |line| && Blank(line[..k]) && line[k] == c }

  /** The line is written as an indentation, the key, a colon and the tail. */
  ghost predicate KeyWritten(line: string, key: string, tail: string) {
    exists indent :: indent != "" && Blank(indent) && line == indent + (key + ":" + tail)
  }

  /** After a key: nothing, or the start of a flow map or of a block scalar. */
  ghost predicate BlockTail(tail: string) {
    Blank(tail) || exists k: nat :: CharAfterBlank(tail, k, '{') || CharAfterBlank(tail, k, '|')
                                    || CharAfterBlank(tail, k, '>')
  }

  /** Key `i` is the first of the list that the line is written with. */
  ghost predicate FirstKeyAt(line: string, keys: seq<string>, i: nat, tail: string) {
    i < |keys| && KeyWritten(line, keys[i], tail) && forall h, t | 0 <= h < i :: !KeyWritten(line, keys[h], t)
  }

  lemma CommentMeaning(line: string)
    ensures BlankOrComment(line) <==> CommentLine(line)
  {
    IndentIsBlank(line);
    if Blank(line) {
      IndentIs(line, |line|);
    } else if Indent(line) < |line| && line[Indent(line)] == '#' {
      assert CharAfterBlank(line, Indent(line), '#');
    } else if k: nat :| CharAfterBlank(line, k, '#') {
      IndentIs(line, k);
    }
    if Indent(line) == |line| { assert line[..|line|] == line; }
  }

  lemma KeyParts(line: string, key: string, indent: string, tail: string)
    requires key == "" || !IsSpace(key[0])
    requires indent != "" && Blank(indent) && line == indent + (key + ":" + tail)
    ensures HasKey(line, key) && TailAfter(line, key) == tail
  {
    var rest := key + ":" + tail;
    IndentAfterBlank(indent, rest);
    assert rest[0] == (key + ":")[0];
    assert line[|indent|..] == rest && rest[..|key + ":"|] == key + ":";
  }

  lemma KeyMeaning(line: string, key: string)
    requires key == "" || !IsSpace(key[0])
    ensures HasKey(line, key) <==> exists tail :: KeyWritten(line, key, tail)
    ensures forall tail | KeyWritten(line, key, tail) :: HasKey(line, key) && TailAfter(line, key) == tail
  {
    if HasKey(line, key) {
      var j, tail := Indent(line), TailAfter(line, key);
      IndentIsBlank(line);
      assert line[j..] == key + ":" + tail;
      assert line == line[..j] + (key + ":" + tail);
      assert KeyWritten(line, key, tail);
    }
    forall tail | KeyWritten(line, key, tail) ensures HasKey(line, key) && TailAfter(line, key) == tail {
      var indent :| indent != "" && Blank(indent) && line == indent + (key + ":" + tail);
      KeyParts(line, key, indent, tail);
    }
  }

  lemma TailMeaning(tail: string)
    ensures BlockValue(Strip(tail)) <==> BlockTail(tail)
  {
    StripBegins(tail);
    if !Blank(tail) {
      var k := Indent(tail);
      IndentIsBlank(tail);
      assert CharAfterBlank(tail, k, tail[k]);
      forall m: nat, c | CharAfterBlank(tail, m, c) && !IsSpace(c) ensures m == k { IndentIs(tail, m); }
    }
  }

  /** For keys as the callers give them: a line without any of the keys, and a blank or comment line, is
      no key line; any other is judged by what follows the first key of the list it is written with. */
  lemma {:induction false} JudgeMeaning(line: string, keys: seq<string>)
    requires TrimmedKeys(keys)
    ensures Judge(line, keys).NoKey? <==>
            CommentLine(line) || forall i, tail | 0 <= i < |keys| :: !KeyWritten(line, keys[i], tail)
    ensures forall i, tail | FirstKeyAt(line, keys, i, tail) && !CommentLine(line) ::
              Judge(line, keys) == if BlockTail(tail) then Block else OneLine
  {
    CommentMeaning(line);
    if keys != [] && !CommentLine(line) {
      assert keys[0] in keys && forall k | k in keys[1..] :: k in keys;
      KeyMeaning(line, keys[0]);
      if HasKey(line, keys[0]) {
        TailMeaning(TailAfter(line, keys[0]));
      } else {
        JudgeMeaning(line, keys[1..]);
        LaterKeys(line, keys);
      }
    }
  }

  /** A line not written with the first key is written with the others as with the list without it. */
  lemma LaterKeys(line: string, keys: seq<string>)
    requires keys != [] && forall t :: !KeyWritten(line, keys[0], t)
    ensures forall i, tail | 0 <= i < |keys| && KeyWritten(line, keys[i], tail) ::
              i > 0 && KeyWritten(line, keys[1..][i - 1], tail)
    ensures forall i, tail | 0 <= i < |keys| - 1 && KeyWritten(line, keys[1..][i], tail) ::
              KeyWritten(line, keys[i + 1], tail)
    ensures forall i: nat, tail | FirstKeyAt(line, keys, i, tail) :: i > 0 && FirstKeyAt(line, keys[1..], i - 1, tail)
  {
    forall i: nat, tail | FirstKeyAt(line, keys, i, tail)
      ensures i > 0 && FirstKeyAt(line, keys[1..], i - 1, tail)
    {
      forall h, t | 0 <= h < i - 1 ensures !KeyWritten(line, keys[1..][h], t) { assert keys[1..][h] == keys[h + 1]; }
    }
  }

  ghost predicate KeyLineWritten(line: string, keys: seq<string>) {
    !CommentLine(line) && exists i, tail :: 0 <= i < |keys| && KeyWritten(line, keys[i], tail)
  }

  ghost predicate BlockLineWritten(line: string, keys: seq<string>) {
    !CommentLine(line) && exists i, tail :: FirstKeyAt(line, keys, i, tail) && BlockTail(tail)
  }

  /** The line is blank, a comment, or indented deeper than `header`. */
  ghost predicate Under(line: string, header: string) {
    CommentLine(line) || exists n: nat :: n < |header| && Blank(header[..n]) && !IsSpace(header[n])
                                          && n < |line| && Blank(line[..n + 1])
  }

  /** Everything from the line after `j` down to line `i` is under line `j`, which opens a block. */
  ghost predicate BlockReaches(lines: seq<string>, keys: seq<string>, j: nat, i: nat)
    requires j < i < |lines|
  {
    BlockLineWritten(lines[j], keys) && forall k | j < k <= i :: Under(lines[k], lines[j])
  }

  /** The line goes: it has a key, or only lines under it lie between it and a line with a block. */
  ghost predicate Goes(lines: seq<string>, keys: seq<string>, i: nat)
    requires i < |lines|
  {
    || KeyLineWritten(lines[i], keys)
    || exists j: nat :: j < i && BlockReaches(lines, keys, j, i)
  }

  lemma {:induction false} SomeFirstKey(line: string, keys: seq<string>, n: nat)
    requires n <= |keys| && exists i, tail :: 0 <= i < n && KeyWritten(line, keys[i], tail)
    ensures exists i, tail :: FirstKeyAt(line, keys, i, tail)
  {
    if exists i, tail :: 0 <= i < n - 1 && KeyWritten(line, keys[i], tail) {
      SomeFirstKey(line, keys, n - 1);
    } else {
      var i, tail :| 0 <= i < n && KeyWritten(line, keys[i], tail);
      assert FirstKeyAt(line, keys, i, tail);
    }
  }

  lemma LinesMeaning(line: string, keys: seq<string>)
    requires TrimmedKeys(keys)
    ensures KeyLine(line, keys) <==> KeyLineWritten(line, keys)
    ensures Judge(line, keys).Block? <==> BlockLineWritten(line, keys)
  {
    JudgeMeaning(line, keys);
    if KeyLineWritten(line, keys) { SomeFirstKey(line, keys, |keys|); }
  }

  lemma DeeperMeaning(line: string, n: nat)
    ensures Indent(line) > n <==> n < |line| && Blank(line[..n + 1])
  {
    if Indent(line) > n {
      forall c | c in line[..n + 1] ensures IsSpace(c) {}
    } else if n < |line| {
      assert line[..n + 1][Indent(line)] == line[Indent(line)];
    }
  }

  lemma UnderMeaning(line: string, header: string)
    requires !CommentLine(header)
    ensures Absorbed(line, Indent(header)) <==> Under(line, header)
  {
    CommentMeaning(line);
    CommentMeaning(header);
    IndentIsBlank(header);
    DeeperMeaning(line, Indent(header));
    forall m: nat | m < |header| && Blank(header[..m]) && !IsSpace(header[m]) ensures m == Indent(header) {
      IndentIs(header, m);
    }
  }

  lemma BlockMeaning(lines: seq<string>, keys: seq<string>, j: nat, i: nat)
    requires j < i < |lines| && TrimmedKeys(keys)
    ensures OpenBefore(lines, keys, j, i) && Absorbed(lines[i], Indent(lines[j])) <==> BlockReaches(lines, keys, j, i)
  {
    LinesMeaning(lines[j], keys);
    if BlockLineWritten(lines[j], keys) {
      forall k | j < k <= i ensures Absorbed(lines[k], Indent(lines[j])) <==> Under(lines[k], lines[j]) {
        UnderMeaning(lines[k], lines[j]);
      }
    }
  }

  lemma RemovedMeaning(lines: seq<string>, keys: seq<string>, i: nat)
    requires i < |lines| && TrimmedKeys(keys)
    ensures Removed(lines, keys, i) <==> Goes(lines, keys, i)
  {
    LinesMeaning(lines[i], keys);
    forall j: nat | j < i
      ensures OpenBefore(lines, keys, j, i) && Absorbed(lines[i], Indent(lines[j])) <==> BlockReaches(lines, keys, j, i)
    {
      BlockMeaning(lines, keys, j, i);
    }
  }

  /** `result` is the lines that do not go, in their order. */
  ghost predicate Survive(lines: seq<string>, keys: seq<string>, at: seq<nat>, result: seq<string>) {
    && (forall i, j | 0 <= i < j < |at| :: at[i] < at[j])
    && (forall k: nat | k < |lines| :: k in at <==> !Goes(lines, keys, k))
    && |result| == |at| && forall i | 0 <= i < |at| :: at[i] < |lines| && result[i] == lines[at[i]]
  }

  lemma KeptSurvive(lines: seq<string>, keys: seq<string>)
    requires TrimmedKeys(keys)
    ensures Survive(lines, keys, KeptIndexes(lines, keys, |lines|), Kept(lines, keys, |lines|))
  {
    forall k: nat | k < |lines| ensures k in KeptIndexes(lines, keys, |lines|) <==> !Goes(lines, keys, k) {
      RemovedMeaning(lines, keys, k);
    }
  }

  /* ----- whole texts ----- */

  ghost function Stripped(content: string, keys: seq<string>): string {
    var lines := Split(content, '\n');
    Join(Kept(lines, keys, |lines|), "\n")
  }

  /** `strip_yaml_blocks`; without leading white space in a key, the regular expression is `HasKey`. */
  method StripYamlBlocks(content: string, keys: seq<string>) returns (text: string)
    requires TrimmedKeys(keys)
    ensures text == Stripped(content, keys)
    ensures exists at: seq<nat>, result ::
              Survive(Split(content, '\n'), keys, at, result) && text == Join(result, "\n")
  {
    KeptSurvive(Split(content, '\n'), keys);
    var result := StripLines(Split(content, '\n'), keys);
    text := Join(result, "\n");
  }

  lemma OutputStays(again: seq<string>, out: seq<string>, lines: seq<string>, keys: seq<string>)
    requires out == Kept(lines, keys, |lines|) && again == if out == [] then [""] else out
    ensures Kept(again, keys, |again|) == again
  {
    OutputHasNoKeyLine(lines, keys);
    forall j | 0 <= j < |again| ensures Judge(again[j], keys).NoKey? {
      if out != [] { assert again[j] in out; }
    }
    NothingToStrip(again, keys, |again|);
    assert again[..|again|] == again;
  }

  /** Stripping twice is stripping once. */
  lemma StripTwice(content: string, keys: seq<string>)
    ensures Stripped(Stripped(content, keys), keys) == Stripped(content, keys)
  {
    var lines := Split(content, '\n');
    var out := Kept(lines, keys, |lines|);
    SplitPiecesLackSeparator(content, '\n');
    if out != [] {
      OutputHasNoKeyLine(lines, keys);
      SplitOfJoin(out, '\n');
    }
    OutputStays(if out == [] then [""] else out, out, lines, keys);
  }
}
