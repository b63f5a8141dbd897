/** Recording Iceberg writes by swapping `DataFrame.writeTo`, and the instrumented run built on it. */
module WriteCapture {
  import opened Sequences

  type ListId = nat

  /** What `DataFrame.writeTo` can be: the original, or an interceptor closing over its list and
      over what it replaced. */
  datatype WriteTo = Original | Intercepted(list: ListId, replaced: WriteTo)

  /** The lists a call goes through, outermost interceptor first. */
  function OpenLists(m: WriteTo): seq<ListId> {
    match m
    case Original => []
    case Intercepted(list, replaced) => [list] + OpenLists(replaced)
  }

  /** What user code does: a write (whose original may raise), a `with capture_writes(...)` block (whose
      interceptor may fail to install), or an exception. */
  datatype Stmt = Write(table: string, raises: bool) | Capture(installs: bool, body: seq<Stmt>) | Fail

  /** Whether a block is left by an exception. */
  predicate Raises(stmts: seq<Stmt>)
    decreases stmts, 0
  {
    stmts != [] && (RaisesOne(stmts[0]) || Raises(stmts[1..]))
  }

  predicate RaisesOne(stmt: Stmt)
    decreases stmt, 1
  {
    match stmt
    case Write(_, raises) => raises
    case Capture(_, body) => Raises(body)
    case Fail => true
  }

  /** The tables a block writes to, in order, up to where an exception leaves it. */
  function Written(stmts: seq<Stmt>): seq<string>
    decreases stmts, 0
  {
    if stmts == [] then []
    else if RaisesOne(stmts[0]) then WrittenOne(stmts[0])
    else WrittenOne(stmts[0]) + Written(stmts[1..])
  }

  function WrittenOne(stmt: Stmt): seq<string>
    decreases stmt, 1
  {
    match stmt
    case Write(table, _) => [table]
    case Capture(_, body) => Written(body)
    case Fail => []
  }

  lemma {:induction false} WrittenConcat(a: seq<Stmt>, b: seq<Stmt>)
    ensures Raises(a + b) <==> Raises(a) || Raises(b)
    ensures Written(a + b) == if Raises(a) then Written(a) else Written(a) + Written(b)
  {
    if a == [] {
      assert a + b == b;
    } else {
      WrittenConcat(a[1..], b);
      assert (a + b)[1..] == a[1..] + b;
    }
  }

  /** What one more statement after `a` adds: a write is recorded before its original may raise, and an
      exception ends everything. */
  lemma WrittenMore(a: seq<Stmt>, table: string, raises: bool, installs: bool, body: seq<Stmt>, rest: seq<Stmt>)
    requires !Raises(a)
    ensures Written(a + [Write(table, raises)] + rest) ==
            Written(a) + [table] + if raises then [] else Written(rest)
    ensures Written(a + [Fail] + rest) == Written(a)
    ensures Written(a + [Capture(installs, body)] + rest) ==
            Written(a) + Written(body) + if Raises(body) then [] else Written(rest)
  {
    WrittenStep(a, Write(table, raises), rest);
    WrittenStep(a, Fail, rest);
    WrittenStep(a, Capture(installs, body), rest);
    assert Written(a) + [] + [] == Written(a);
  }

  lemma WrittenStep(a: seq<Stmt>, stmt: Stmt, rest: seq<Stmt>)
    requires !Raises(a)
    ensures Written(a + [stmt] + rest) ==
            Written(a) + WrittenOne(stmt) + if RaisesOne(stmt) then [] else Written(rest)
  {
    assert a + [stmt] + rest == a + ([stmt] + rest);
    WrittenConcat(a, [stmt] + rest);
    assert ([stmt] + rest)[1..] == rest;
  }

  /** `parse_table_name` */
  function ShortName(full: string): string { var parts := Split(full, '.'); parts[|parts| - 1] }

  function ShortNames(tables: seq<string>): (r: seq<string>)
    ensures |r| == |tables| && forall i | 0 <= i < |tables| :: r[i] == ShortName(tables[i])
  {
    seq(|tables|, i requires 0 <= i < |tables| => ShortName(tables[i]))
  }

  /** The short name is what follows the last dot, or the whole name. */
  lemma {:induction false} ShortNameMeaning(full: string)
    ensures '.' !in ShortName(full)
    ensures ShortName(full) == full || exists n :: 0 <= n < |full| && full == full[..n] + "." + ShortName(full)
  {
    SplitPiecesLackSeparator(full, '.');
    if full != "" {
      ShortNameMeaning(full[1..]);
      var rest := full[1..];
      assert ShortName(rest) == rest ==> '.' !in rest;
      if full[0] == '.' {
        if ShortName(rest) == rest {
          assert full == full[..0] + "." + ShortName(full);
        } else {
          var n :| 0 <= n < |rest| && rest == rest[..n] + "." + ShortName(rest);
          assert full == full[..n + 1] + "." + ShortName(full);
        }
      } else if ShortName(rest) == rest {
        SplitHead(rest, "", '.');
      } else {
        var n :| 0 <= n < |rest| && rest == rest[..n] + "." + ShortName(rest);
        DottedSplits(rest[..n], ShortName(rest));
        assert full == full[..n + 1] + "." + ShortName(full);
      }
    }
  }

  lemma {:induction false} DottedSplits(before: string, after: string)
    ensures |Split(before + "." + after, '.')| > 1
  {
    if before == "" {
      assert ("." + after)[1..] == after && before + "." + after == "." + after;
    } else {
      DottedSplits(before[1..], after);
      assert (before + "." + after)[1..] == before[1..] + "." + after;
    }
  }

  /** A line of log output. */
  datatype Marker = Description(text: string) | WritesTo(table: string) | ResourceActual(json: string)
                  | ExecutionPlan(json: string)

  function WriteMarkers(tables: seq<string>): (r: seq<Marker>)
    ensures |r| == |tables| && forall i | 0 <= i < |tables| :: r[i] == WritesTo(tables[i])
  {
    seq(|tables|, i requires 0 <= i < |tables| => WritesTo(tables[i]))
  }

  /** The process as far as writes go: the patched method, the lists handed out, the original's calls. */
  datatype Snapshot = Snapshot(writeTo: WriteTo, lists: map<ListId, seq<string>>, delegated: seq<string>,
                                nextList: ListId)

  ghost predicate Sound(p: Snapshot) {
    && NoDuplicates(OpenLists(p.writeTo))
    && (forall l | l in OpenLists(p.writeTo) :: l in p.lists)
    && (forall l | l in p.lists :: l < p.nextList)
  }

  /** From `p` to `q`, every list open in `p` and the original see each of `tables` once, in order; other
      lists stay, and the method is the one it was. */
  ghost predicate Saw(p: Snapshot, q: Snapshot, tables: seq<string>) {
    && Sound(p) && Sound(q) && q.writeTo == p.writeTo && q.nextList >= p.nextList
    && q.delegated == p.delegated + tables
    && forall l | l in p.lists ::
         l in q.lists && q.lists[l] == if l in OpenLists(p.writeTo) then p.lists[l] + tables else p.lists[l]
  }

  lemma SawBoth(p: Snapshot, q: Snapshot, r: Snapshot, first: seq<string>, second: seq<string>)
    requires Saw(p, q, first) && Saw(q, r, second)
    ensures Saw(p, r, first + second)
  {
    forall l | l in p.lists
      ensures l in r.lists
      ensures r.lists[l] == if l in OpenLists(p.writeTo) then p.lists[l] + (first + second) else p.lists[l]
    {
      assert l in q.lists;
      assert p.lists[l] + first + second == p.lists[l] + (first + second);
    }
    assert p.delegated + first + second == p.delegated + (first + second);
  }

  /** Opening one more list around `tables` and closing it again. */
  lemma SawThroughCapture(p: Snapshot, list: ListId, installs: bool, q: Snapshot, tables: seq<string>)
    requires Sound(p) && list == p.nextList
    requires Saw(Entered(p, installs), q, tables)
    ensures Saw(p, q.(writeTo := p.writeTo), tables)
    ensures list !in p.lists && list in q.lists && q.lists[list] == if installs then tables else []
  {
    var e := Entered(p, installs);
    assert installs ==> OpenLists(e.writeTo) == [list] + OpenLists(p.writeTo);
    assert list in e.lists && e.lists[list] == [];
    forall l | l in p.lists
      ensures l in q.lists && q.lists[l] == if l in OpenLists(p.writeTo) then p.lists[l] + tables else p.lists[l]
    {
      assert l in e.lists && e.lists[l] == p.lists[l] && l != list;
    }
    forall l | l in OpenLists(p.writeTo) ensures l in q.lists { assert l in p.lists; }
  }

  /** The process just after a capture has been entered. */
  function Entered(p: Snapshot, installs: bool): Snapshot {
    Snapshot(if installs then Intercepted(p.nextList, p.writeTo) else p.writeTo,
             p.lists[p.nextList := []], p.delegated, p.nextList + 1)
  }

  lemma EnteredIsSound(p: Snapshot, installs: bool)
    requires Sound(p)
    ensures Sound(Entered(p, installs))
  {
    var outer := OpenLists(p.writeTo);
    assert p.nextList !in outer;
    NoDuplicatesConcat([p.nextList], outer);
  }

  /* ----- what a run reports ----- */

  /** Every short name written to is printed once, in order of first write, and no other name is. */
  ghost predicate NamesPrinted(output: seq<Marker>, tables: seq<string>) {
    && (forall t :: WritesTo(t) in output <==> exists i :: 0 <= i < |tables| && ShortName(tables[i]) == t)
    && (forall a, b | 0 <= a < b < |output| && output[a].WritesTo? && output[b].WritesTo? ::
          WrittenFirst(tables, output[a].table, output[b].table))
  }

  /** `s` is the short name of a table written before any table with the short name `t`. */
  ghost predicate WrittenFirst(tables: seq<string>, s: string, t: string) {
    exists i :: 0 <= i < |tables| && ShortName(tables[i]) == s && forall k | 0 <= k <= i :: ShortName(tables[k]) != t
  }

  /** The kinds of lines in the order in which a run prints them. */
  function Place(m: Marker): nat {
    match m
    case Description(_) => 0
    case WritesTo(_) => 1
    case ResourceActual(_) => 2
    case ExecutionPlan(_) => 3
  }

  ghost predicate InOrder(output: seq<Marker>) {
    forall a, b | 0 <= a < b < |output| ::
      Place(output[a]) < Place(output[b]) || (output[a].WritesTo? && output[b].WritesTo?)
  }

  /** A run's lines: a description exactly if it is not empty; after that, unless an exception was raised,
      the names written to, and then the metrics and the plan, each exactly if collected. Lines come in
      this order, and only names can be several. */
  ghost predicate Reports(output: seq<Marker>, description: string, raised: bool, tables: seq<string>,
                          resource: Option<string>, plan: Option<string>) {
    && InOrder(output)
    && (forall text :: Description(text) in output <==> text == description != "")
    && (raised ==> forall m | m in output :: m.Description?)
    && (!raised ==>
          && NamesPrinted(output, tables)
          && (forall json :: ResourceActual(json) in output <==> resource == Some(json))
          && (forall json :: ExecutionPlan(json) in output <==> plan == Some(json)))
  }

  class Process {
    var writeTo: WriteTo
    var lists: map<ListId, seq<string>>
    var delegated: seq<string>
    var nextList: ListId

    ghost function View(): Snapshot reads this { Snapshot(writeTo, lists, delegated, nextList) }

    constructor ()
      ensures Sound(View()) && View() == Snapshot(Original, map[], [], 0)
    {
      writeTo, lists, delegated, nextList := Original, map[], [], 0;
    }

    /** Calling `m`: each interceptor appends to its list and then calls what it replaced. */
    method Invoke(m: WriteTo, table: string)
      requires NoDuplicates(OpenLists(m)) && forall l | l in OpenLists(m) :: l in lists
      modifies this`lists, this`delegated
      ensures delegated == old(delegated) + [table]
      ensures lists.Keys == old(lists).Keys
      ensures forall l | l in lists :: lists[l] == if l in OpenLists(m) then old(lists)[l] + [table] else old(lists)[l]
      decreases m
    {
      match m
      case Original =>
        delegated := delegated + [table];
      case Intercepted(list, replaced) =>
        assert OpenLists(m)[0] == list && OpenLists(m)[1..] == OpenLists(replaced);
        assert list !in OpenLists(replaced);
        lists := lists[list := lists[list] + [table]];
        Invoke(replaced, table);
    }

    /** The first half of `capture_writes`: `original` stays None when the method cannot be replaced. */
    method Enter(installs: bool) returns (list: ListId, original: Option<WriteTo>)
      modifies this
      ensures View() == Entered(old(View()), installs) && list == old(nextList)
      ensures original == if installs then Some(old(writeTo)) else None
    {
      list, original := nextList, None;
      nextList, lists := nextList + 1, lists[list := []];
      if installs {
        original := Some(writeTo);
        writeTo := Intercepted(list, writeTo);
      }
    }

    /** The second half: the `finally` clause. */
    method Exit(original: Option<WriteTo>)
      modifies this`writeTo
      ensures writeTo == if original.Some? then original.value else old(writeTo)
    {
      if original.Some? { writeTo := original.value; }
    }

    /** A whole `with capture_writes(...)` block: its list ends up with exactly the writes inside it, in
        order; every list open around it and the original see each write once; the method is restored,
        by exception or not. */
    method RunCapture(installs: bool, body: seq<Stmt>) returns (list: ListId, raised: bool)
      requires Sound(View())
      modifies this
      ensures raised == Raises(body) && Saw(old(View()), View(), Written(body))
      ensures list !in old(lists) && list in lists && lists[list] == if installs then Written(body) else []
      decreases body, 1
    {
      EnteredIsSound(View(), installs);
      var original;
      list, original := Enter(installs);
      raised := Run(body);
      SawThroughCapture(old(View()), list, installs, View(), Written(body));
      Exit(original);
    }

    method Run(stmts: seq<Stmt>) returns (raised: bool)
      requires Sound(View())
      modifies this
      ensures raised == Raises(stmts) && Saw(old(View()), View(), Written(stmts))
      decreases stmts, 0
    {
      if stmts == [] { return false; }
      raised := RunOne(stmts[0]);
      if !raised {
        ghost var middle := View();
        raised := Run(stmts[1..]);
        SawBoth(old(View()), middle, View(), WrittenOne(stmts[0]), Written(stmts[1..]));
      }
    }

    method RunOne(stmt: Stmt) returns (raised: bool)
      requires Sound(View())
      modifies this
      ensures raised == RaisesOne(stmt) && Saw(old(View()), View(), WrittenOne(stmt))
      decreases stmt, 1
    {
      match stmt
      case Write(table, raises) =>
        Invoke(writeTo, table);
        return raises;
      case Capture(installs, body) =>
        var list;
        list, raised := RunCapture(installs, body);
      case Fail =>
        return true;
    }

    /* ----- EtlNexusMixin.run ----- */

    /** The stages under the interceptor, if there is a session to install it for. */
    method RunStages(hasSpark: bool, installs: bool, stages: seq<Stmt>) returns (captured: seq<string>, raised: bool)
      requires Sound(View())
      modifies this
      ensures Saw(old(View()), View(), Written(stages)) && raised == Raises(stages)
      ensures captured == if hasSpark && installs then Written(stages) else []
    {
      captured := [];
      if hasSpark {
        var list;
        list, raised := RunCapture(installs, stages);
        captured := lists[list];
      } else {
        raised := Run(stages);
      }
    }

    /** `run` on an ETL whose `extract`, `transform` and `load` together do `stages`. The resource and plan
        texts are None when they cannot be collected; `hasSpark` says whether the ETL has a session. */
    method RunEtl(description: string, hasSpark: bool, installs: bool, stages: seq<Stmt>, resource: Option<string>,
                  plan: Option<string>)
      returns (output: seq<Marker>, raised: bool)
      requires Sound(View())
      modifies this
      ensures Saw(old(View()), View(), Written(stages)) && raised == Raises(stages)
      ensures output == EtlOutput(description, raised, if hasSpark && installs then Written(stages) else [],
                                  if hasSpark then Extras(resource, plan) else [])
      ensures Reports(output, description, raised, if hasSpark && installs then Written(stages) else [],
                      if hasSpark then resource else None, if hasSpark then plan else None)
    {
      var captured;
      captured, raised := RunStages(hasSpark, installs, stages);
      output := Print(description, hasSpark, raised, captured, resource, plan);
      OutputReports(description, raised, captured, if hasSpark then resource else None,
                    if hasSpark then plan else None);
    }
  }

  /** What `run` prints around its stages. */
  method Print(description: string, hasSpark: bool, raised: bool, captured: seq<string>, resource: Option<string>,
               plan: Option<string>) returns (output: seq<Marker>)
    requires hasSpark || captured == []
    ensures output == EtlOutput(description, raised, captured, if hasSpark then Extras(resource, plan) else [])
  {
    output := if description != "" then [Description(description)] else [];
    if raised { return; }
    var writes := EmitWrites(ShortNames(captured));
    output := output + writes;
    if !hasSpark { return; }
    output := output + Extras(resource, plan);
  }

  /** The resource and plan lines, each only if collected. */
  function Extras(resource: Option<string>, plan: Option<string>): seq<Marker> {
    (if resource.Some? then [ResourceActual(resource.value)] else []) +
    (if plan.Some? then [ExecutionPlan(plan.value)] else [])
  }

  lemma OneMoreMarker(tables: seq<string>, table: string)
    ensures WriteMarkers(tables + [table]) == WriteMarkers(tables) + [WritesTo(table)]
  {
  }

  /** The short names as they come, each printed the first time only. */
  method EmitWrites(shortNames: seq<string>) returns (output: seq<Marker>)
    ensures output == WriteMarkers(Distinct(shortNames))
  {
    var emitted: set<string> := {};
    output := [];
    ghost var seen, names: seq<string> := [], [];
    for i := 0 to |shortNames|
      invariant seen == shortNames[..i] && names == Distinct(seen)
      invariant output == WriteMarkers(names)
      invariant forall t :: t in emitted <==> t in names
    {
      var shortName := shortNames[i];
      DistinctStep(seen, shortName);
      seen := seen + [shortName];
      if shortName !in emitted {
        OneMoreMarker(names, shortName);
        output := output + [WritesTo(shortName)];
        emitted := emitted + {shortName};
        names := names + [shortName];
      }
    }
    assert seen == shortNames;
  }

  /** What a run prints: the description first; after an exception nothing more; otherwise the distinct
      short names of the tables captured, in first-write order, and then the metrics and the plan. */
  function EtlOutput(description: string, raised: bool, captured: seq<string>, extras: seq<Marker>): seq<Marker> {
    var head := if description != "" then [Description(description)] else [];
    if raised then head else head + WriteMarkers(Distinct(ShortNames(captured))) + extras
  }

  /** The write markers of a successful run name each short table name once, in first-write order. */
  lemma PrintedNames(stages: seq<Stmt>)
    ensures var names := Distinct(ShortNames(Written(stages)));
            && NoDuplicates(names) && InFirstOrder(ShortNames(Written(stages)), names)
            && forall n :: n in names <==> exists i :: 0 <= i < |Written(stages)| && ShortName(Written(stages)[i]) == n
  {
    var shorts := ShortNames(Written(stages));
    DistinctProperties(shorts);
    forall n
      ensures n in Distinct(shorts) <==> exists i :: 0 <= i < |Written(stages)| && ShortName(Written(stages)[i]) == n
    {
      if n in shorts {
        var i :| 0 <= i < |shorts| && shorts[i] == n;
        assert ShortName(Written(stages)[i]) == n;
      }
      if i :| 0 <= i < |Written(stages)| && ShortName(Written(stages)[i]) == n { assert shorts[i] == n; }
    }
  }

  lemma NamesAreFirst(tables: seq<string>, i: nat, j: nat)
    requires var names := Distinct(ShortNames(tables)); i < j < |names|
    ensures var names := Distinct(ShortNames(tables)); WrittenFirst(tables, names[i], names[j])
  {
    var shorts := ShortNames(tables);
    var names := Distinct(shorts);
    DistinctProperties(shorts);
    assert names[i] in names && names[j] in names;
    var k := FirstPlace(shorts, names[i]);
    var l := FirstPlace(shorts, names[j]);
    assert k < l;
    forall m | 0 <= m <= k ensures ShortName(tables[m]) != names[j] { assert shorts[m] == shorts[..l][m]; }
    assert ShortName(tables[k]) == names[i];
  }

  lemma {:induction false} FirstPlace(xs: seq<string>, x: string) returns (k: nat)
    requires x in xs
    ensures FirstAt(xs, x, k)
  {
    var front := xs[..|xs| - 1];
    assert xs == front + [xs[|xs| - 1]];
    if x in front {
      k := FirstPlace(front, x);
      assert xs[..k] == front[..k];
    } else {
      k := |xs| - 1;
    }
  }

  lemma MarkersPrintNames(tables: seq<string>)
    ensures NamesPrinted(WriteMarkers(Distinct(ShortNames(tables))), tables)
  {
    var shorts := ShortNames(tables);
    var names := Distinct(shorts);
    var output := WriteMarkers(names);
    forall t ensures WritesTo(t) in output <==> exists i :: 0 <= i < |tables| && ShortName(tables[i]) == t {
      if t in names {
        var i :| 0 <= i < |names| && names[i] == t;
        assert output[i] == WritesTo(t);
        var k :| 0 <= k < |shorts| && shorts[k] == t;
        assert ShortName(tables[k]) == t;
      }
      if i :| 0 <= i < |tables| && ShortName(tables[i]) == t { assert shorts[i] == t; }
    }
    forall a, b | 0 <= a < b < |output| ensures WrittenFirst(tables, output[a].table, output[b].table) {
      NamesAreFirst(tables, a, b);
    }
  }

  /** Lines of other kinds before and after leave the printed names as they are. */
  lemma NamesAmongOthers(before: seq<Marker>, names: seq<Marker>, after: seq<Marker>, tables: seq<string>)
    requires NamesPrinted(names, tables)
    requires forall m | m in before + after :: !m.WritesTo?
    ensures NamesPrinted(before + names + after, tables)
  {
    var output := before + names + after;
    forall t ensures WritesTo(t) in output <==> WritesTo(t) in names {
      assert WritesTo(t) !in before + after;
    }
    forall a, b | 0 <= a < b < |output| && output[a].WritesTo? && output[b].WritesTo?
      ensures WrittenFirst(tables, output[a].table, output[b].table)
    {
      NameStandsInside(before, names, after, a);
      NameStandsInside(before, names, after, b);
    }
  }

  lemma NameStandsInside(before: seq<Marker>, names: seq<Marker>, after: seq<Marker>, a: nat)
    requires a < |before + names + after| && forall m | m in before + after :: !m.WritesTo?
    ensures if |before| <= a < |before| + |names| then names[a - |before|] == (before + names + after)[a]
            else !(before + names + after)[a].WritesTo?
  {
    if a < |before| {
      assert (before + after)[a] == (before + names + after)[a];
    } else if a >= |before| + |names| {
      assert (before + after)[a - |names|] == (before + names + after)[a];
    }
  }

  lemma OrderedConcat(x: seq<Marker>, y: seq<Marker>, p: nat)
    requires InOrder(x) && InOrder(y)
    requires (forall m | m in x :: Place(m) < p) && (forall m | m in y :: Place(m) >= p)
    ensures InOrder(x + y)
  {
    forall a, b | 0 <= a < b < |x + y|
      ensures Place((x + y)[a]) < Place((x + y)[b]) || ((x + y)[a].WritesTo? && (x + y)[b].WritesTo?)
    {
      if a < |x| <= b { assert x[a] in x && y[b - |x|] in y; }
    }
  }

  lemma OutputInOrder(head: seq<Marker>, names: seq<Marker>, extras: seq<Marker>)
    requires |head| <= 1 && (forall m | m in head :: m.Description?) && (forall m | m in names :: m.WritesTo?)
    requires InOrder(extras) && forall m | m in extras :: Place(m) >= 2
    ensures InOrder(head + names + extras)
  {
    OrderedConcat(head, names, 1);
    OrderedConcat(head + names, extras, 2);
  }

  lemma ExtrasMeaning(resource: Option<string>, plan: Option<string>)
    ensures var extras := Extras(resource, plan);
            && InOrder(extras) && (forall m | m in extras :: Place(m) >= 2)
            && (forall json :: ResourceActual(json) in extras <==> resource == Some(json))
            && (forall json :: ExecutionPlan(json) in extras <==> plan == Some(json))
  {
  }

  lemma MembersOfThree(a: seq<Marker>, b: seq<Marker>, c: seq<Marker>)
    ensures forall m :: m in a + b + c <==> m in a || m in b || m in c
  {
  }

  /** What `EtlOutput` prints, line by line. */
  lemma OutputReports(description: string, raised: bool, tables: seq<string>, resource: Option<string>,
                      plan: Option<string>)
    ensures Reports(EtlOutput(description, raised, tables, Extras(resource, plan)), description, raised, tables,
                    resource, plan)
  {
    var head := if description != "" then [Description(description)] else [];
    if !raised {
      var names, extras := WriteMarkers(Distinct(ShortNames(tables))), Extras(resource, plan);
      MarkersPrintNames(tables);
      ExtrasMeaning(resource, plan);
      NamesAmongOthers(head, names, extras, tables);
      OutputInOrder(head, names, extras);
      MembersOfThree(head, names, extras);
    }
  }
}
