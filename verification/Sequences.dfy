/** Sequence vocabulary shared by the models: first-occurrence deduplication,
    splitting on a character, joining, and the pigeonhole principle. */
module Sequences {

  datatype Option<+T> = None | Some(value: T)

  ghost predicate NoDuplicates<T(!new)>(xs: seq<T>) {
    forall i, j | 0 <= i < j < |xs| :: xs[i] != xs[j]
  }

  lemma NoDuplicatesConcat<T(!new)>(a: seq<T>, b: seq<T>)
    requires NoDuplicates(a) && NoDuplicates(b) && forall x | x in a :: x !in b
    ensures NoDuplicates(a + b)
  {
    var ab := a + b;
    forall i, j | 0 <= i < j < |ab| ensures ab[i] != ab[j] {
      if i < |a| <= j { assert a[i] in a && b[j - |a|] in b; }
    }
  }

  /* ----- first occurrences ----- */

  /** The distinct elements of `xs`, in the order in which each first appears. */
  function Distinct<T(==,!new)>(xs: seq<T>): (ys: seq<T>)
    ensures forall x :: x in ys <==> x in xs
  {
    if xs == [] then [] else
      var last := xs[|xs| - 1];
      var ys := Distinct(xs[..|xs| - 1]);
      assert xs == xs[..|xs| - 1] + [last];
      if last in ys then ys else ys + [last]
  }

  lemma DistinctStep<T(!new)>(xs: seq<T>, x: T)
    ensures Distinct(xs + [x]) == if x in Distinct(xs) then Distinct(xs) else Distinct(xs) + [x]
  {
    assert (xs + [x])[..|xs|] == xs;
  }

  /** `x` occurs in `xs` at position `k` and not before. */
  ghost predicate FirstAt<T(!new)>(xs: seq<T>, x: T, k: nat) {
    k < |xs| && xs[k] == x && x !in xs[..k]
  }

  /** `ys` lists elements of `xs` so that later entries first appear later in `xs`. */
  ghost predicate InFirstOrder<T(!new)>(xs: seq<T>, ys: seq<T>) {
    forall i, j, k: nat, l: nat | 0 <= i < j < |ys| && FirstAt(xs, ys[i], k) && FirstAt(xs, ys[j], l) :: k < l
  }

  lemma {:induction false} DistinctProperties<T(!new)>(xs: seq<T>)
    ensures NoDuplicates(Distinct(xs))
    ensures InFirstOrder(xs, Distinct(xs))
  {
    if xs != [] {
      var front, last := xs[..|xs| - 1], xs[|xs| - 1];
      DistinctProperties(front);
      assert xs == front + [last];
      var ys := Distinct(xs);
      forall i, j, k: nat, l: nat | 0 <= i < j < |ys| && FirstAt(xs, ys[i], k) && FirstAt(xs, ys[j], l)
        ensures k < l
      {
        var inFront := Distinct(front);
        assert ys[i] in front by { assert ys[i] in inFront; }
        assert k < |front|;
        assert xs[..k] == front[..k];
        if l < |front| {
          assert xs[..l] == front[..l];
          assert FirstAt(front, ys[i], k) && FirstAt(front, ys[j], l);
          assert front[l] in inFront;
          assert j < |inFront|;
        }
      }
    }
  }

  /** First order survives one more element, listed or not. */
  lemma FirstOrderGrows<T(!new)>(xs: seq<T>, x: T, ys: seq<T>)
    requires InFirstOrder(xs, ys) && forall y | y in ys :: y in xs
    ensures InFirstOrder(xs + [x], ys)
    ensures x !in xs ==> InFirstOrder(xs + [x], ys + [x])
  {
    var more, listed := xs + [x], ys + [x];
    assert more[..|xs|] == xs && forall m | 0 <= m < |xs| :: more[m] == xs[m];
    forall y, k: nat | y in xs && FirstAt(more, y, k) ensures FirstAt(xs, y, k) {
      assert k <= |xs| ==> more[..k] == xs[..k];
    }
    forall i, j, k: nat, l: nat | 0 <= i < j < |ys| && FirstAt(more, ys[i], k) && FirstAt(more, ys[j], l)
      ensures k < l
    {
      assert ys[i] in ys && ys[j] in ys;
    }
    if x !in xs {
      forall i, j, k: nat, l: nat | 0 <= i < j < |listed| && FirstAt(more, listed[i], k) && FirstAt(more, listed[j], l)
        ensures k < l
      {
        assert ys[i] in ys;
        if j < |ys| { assert ys[j] in ys; }
      }
    }
  }

  /** A finite set bounds the length of any duplicate-free sequence drawn from it. */
  lemma {:induction false} Pigeonhole<T(!new)>(xs: seq<T>, s: set<T>)
    requires NoDuplicates(xs)
    requires forall x | x in xs :: x in s
    ensures |xs| <= |s|
  {
    if xs != [] {
      var rest := xs[1..];
      forall x | x in rest ensures x in s - {xs[0]} {
        var i :| 0 <= i < |rest| && rest[i] == x;
        assert xs[i + 1] == x;
        assert x != xs[0];
      }
      Pigeonhole(rest, s - {xs[0]});
    }
  }

  /* ----- filtering ----- */

  /** The elements to keep, in their order. */
  function Filter<T>(xs: seq<T>, keep: T -> bool): seq<T> {
    if xs == [] then [] else
      var front, last := xs[..|xs| - 1], xs[|xs| - 1];
      if keep(last) then Filter(front, keep) + [last] else Filter(front, keep)
  }

  /** `at` lists, in order, exactly the positions of `xs` that hold elements to keep. */
  ghost predicate Picks<T(!new)>(xs: seq<T>, keep: T -> bool, at: seq<nat>) {
    && (forall i | 0 <= i < |at| :: at[i] < |xs|)
    && (forall i, j | 0 <= i < j < |at| :: at[i] < at[j])
    && (forall k: nat | k < |xs| :: k in at <==> keep(xs[k]))
  }

  /** Filtering takes exactly the elements to keep, none twice, in their order. */
  lemma {:induction false} FilterMeaning<T(!new)>(xs: seq<T>, keep: T -> bool) returns (at: seq<nat>)
    ensures Picks(xs, keep, at) && |Filter(xs, keep)| == |at|
    ensures forall i | 0 <= i < |at| :: Filter(xs, keep)[i] == xs[at[i]]
  {
    if xs == [] {
      at := [];
    } else {
      var front, last := xs[..|xs| - 1], xs[|xs| - 1];
      at := FilterMeaning(front, keep);
      if keep(last) { at := PickedToo(front, keep, at, last); }
      assert xs == front + [last];
    }
  }

  lemma PickedToo<T(!new)>(front: seq<T>, keep: T -> bool, at: seq<nat>, last: T) returns (more: seq<nat>)
    requires Picks(front, keep, at) && keep(last)
    ensures Picks(front + [last], keep, more) && more == at + [|front|]
  {
    more := at + [|front|];
    forall k: nat | k < |front + [last]| ensures k in more <==> keep((front + [last])[k]) {
      assert k in more <==> k in at || k == |front|;
    }
  }

  lemma {:induction false} FilterMembers<T(!new)>(xs: seq<T>, keep: T -> bool)
    ensures forall x :: x in Filter(xs, keep) <==> x in xs && keep(x)
  {
    if xs != [] {
      FilterMembers(xs[..|xs| - 1], keep);
      assert xs == xs[..|xs| - 1] + [xs[|xs| - 1]];
    }
  }

  /* ----- splitting and joining text ----- */

  /** Python's `text.split(sep)` for a one-character separator. */
  function Split(text: string, sep: char): (parts: seq<string>)
    ensures |parts| >= 1
  {
    if text == "" then [""] else
      var rest := Split(text[1..], sep);
      if text[0] == sep then [""] + rest
      else [[text[0]] + rest[0]] + rest[1..]
  }

  /** Python's `sep.join(parts)`. */
  function Join(parts: seq<string>, sep: string): string {
    if parts == [] then ""
    else if |parts| == 1 then parts[0]
    else parts[0] + sep + Join(parts[1..], sep)
  }

  lemma {:induction false} SplitPiecesLackSeparator(text: string, sep: char)
    ensures forall p | p in Split(text, sep) :: sep !in p
  {
    if text != "" {
      SplitPiecesLackSeparator(text[1..], sep);
      var rest := Split(text[1..], sep);
      assert rest[0] in rest;
      forall p | p in Split(text, sep) ensures sep !in p {
        if text[0] == sep {
          assert p == "" || p in rest;
        } else {
          assert p == [text[0]] + rest[0] || p in rest;
        }
      }
    }
  }

  lemma {:induction false} JoinOfSplit(text: string, sep: char)
    ensures Join(Split(text, sep), [sep]) == text
  {
    if text != "" {
      JoinOfSplit(text[1..], sep);
      var rest := Split(text[1..], sep);
      var parts := Split(text, sep);
      if text[0] == sep {
        assert parts[1..] == rest;
        assert Join(parts, [sep]) == "" + [sep] + Join(rest, [sep]);
      } else {
        assert parts[1..] == rest[1..];
        if |rest| > 1 {
          assert Join(parts, [sep]) == [text[0]] + rest[0] + [sep] + Join(rest[1..], [sep]);
          assert [text[0]] + rest[0] + [sep] + Join(rest[1..], [sep]) ==
                 [text[0]] + (rest[0] + [sep] + Join(rest[1..], [sep]));
        }
      }
    }
  }

  /** Splitting a text that starts with a separator-free piece. */
  lemma {:induction false} SplitHead(piece: string, tail: string, sep: char)
    requires sep !in piece
    ensures Split(piece + [sep] + tail, sep) == [piece] + Split(tail, sep)
    ensures Split(piece, sep) == [piece]
  {
    if piece == "" {
      assert piece + [sep] + tail == [sep] + tail;
    } else {
      SplitHead(piece[1..], tail, sep);
      assert (piece + [sep] + tail)[1..] == piece[1..] + [sep] + tail;
      assert piece == [piece[0]] + piece[1..];
      var rest := Split(piece[1..] + [sep] + tail, sep);
      assert rest[1..] == Split(tail, sep);
    }
  }

  lemma {:induction false} SplitOfJoin(parts: seq<string>, sep: char)
    requires parts != [] && forall p | p in parts :: sep !in p
    ensures Split(Join(parts, [sep]), sep) == parts
  {
    if |parts| == 1 {
      SplitHead(parts[0], "", sep);
    } else {
      var rest := Join(parts[1..], [sep]);
      SplitOfJoin(parts[1..], sep);
      SplitHead(parts[0], rest, sep);
      assert Split(parts[0] + [sep] + rest, sep) == [parts[0]] + parts[1..];
    }
  }

  /* ----- decimal text ----- */

  function Digit(d: nat): char requires d < 10 { "0123456789"[d] }

  function Decimal(n: nat): (s: string)
    ensures s != "" && forall c | c in s :: '0' <= c <= '9'
  {
    if n < 10 then [Digit(n)] else Decimal(n / 10) + [Digit(n % 10)]
  }

  /** Python's `str(i)` on an integer. */
  function IntText(i: int): string { if i < 0 then "-" + Decimal(-i) else Decimal(i) }

  lemma {:induction false} DecimalInjective(m: nat, n: nat)
    requires Decimal(m) == Decimal(n)
    ensures m == n
  {
    var s, t := Decimal(m), Decimal(n);
    if m < 10 && n < 10 {
    } else if m >= 10 && n >= 10 {
      assert s[..|s| - 1] == Decimal(m / 10) && t[..|t| - 1] == Decimal(n / 10);
      assert s[|s| - 1] == Digit(m % 10) && t[|t| - 1] == Digit(n % 10);
      DecimalInjective(m / 10, n / 10);
    }
  }

  lemma DecimalHasNoSign(n: nat)
    ensures Decimal(n)[0] != '-'
  {
    assert Decimal(n)[0] in Decimal(n);
  }

  lemma IntTextSign(i: int)
    ensures i < 0 <==> IntText(i)[0] == '-'
    ensures i < 0 ==> IntText(i)[1..] == Decimal(-i)
  {
    if i >= 0 { DecimalHasNoSign(i); }
  }

  lemma IntTextInjective(i: int, j: int)
    requires IntText(i) == IntText(j)
    ensures i == j
  {
    IntTextSign(i);
    IntTextSign(j);
    if i < 0 { DecimalInjective(-i, -j); } else { DecimalInjective(i, j); }
  }
}
