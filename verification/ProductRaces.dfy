/** Requests that overlap. A request reads its product once and commits later, when another request
    may have committed in between: it then logs the contents it read, and writes only the columns
    that it changed from what it read. */
module ProductRaces {
  import opened Sequences
  import opened ProductEffects
  import opened ProductStore

  /** A column is written only if its new value differs from the one that was read. */
  function Column<T(==)>(current: T, seen: T, wanted: T): T { if wanted == seen then current else wanted }

  function Merge(current: Product, seen: Product, wanted: Product): Product {
    Product(Column(current.name, seen.name, wanted.name),
            Column(current.description, seen.description, wanted.description),
            Column(current.documentation, seen.documentation, wanted.documentation),
            Column(current.team, seen.team, wanted.team),
            Column(current.scheduleType, seen.scheduleType, wanted.scheduleType),
            Column(current.tables, seen.tables, wanted.tables),
            Column(current.createdBy, seen.createdBy, wanted.createdBy),
            Column(current.lastUpdatedBy, seen.lastUpdatedBy, wanted.lastUpdatedBy))
  }

  /** The database as a session sees it that has read `seen`. */
  function View(db: Database, id: Id, seen: Product): Database { db.(products := db.products[id := seen]) }

  predicate ReadsFirst(request: Request) { request.Update? || request.SetTables? || request.Restore? }

  /** The commit of a request that has read `seen`; a product that is gone by then fails it. */
  function Finish(db: Database, seen: Product, request: Request): (Database, Outcome)
    requires ReadsFirst(request)
  {
    var id := request.id;
    if id !in db.products then (db, NotFound) else
      var current, view := db.products[id], View(db, id, seen);
      match request
      case Update(_, patch, user) =>
        var merged := Merge(current, seen, Patched(seen, patch, user));
        if NameTaken(db, id, merged.name) then (db, DuplicateName) else
          var logged := Snapshot(Snapshot(view, id, patch, "description", user), id, patch, "documentation", user);
          (logged.(products := db.products[id := merged]), Done)
      case SetTables(_, tables, user) =>
        var merged := Merge(current, seen, seen.(tables := Deduped(tables), lastUpdatedBy := user));
        (db.(products := db.products[id := merged]), Done)
      case Restore(_, revision, user) =>
        if Usable(db, id, revision) == None then (db, NotFound) else
          var r := Usable(db, id, revision).value;
          var merged := Merge(current, seen, WithContent(seen, r.fieldName, r.content).(lastUpdatedBy := user));
          (AddRevision(view, id, r.fieldName, user, "restore").(products := db.products[id := merged]), Done)
  }

  /** When nobody committed in between, this is the request as one transaction. */
  lemma FinishAloneIsHandle(db: Database, request: Request)
    requires ReadsFirst(request) && request.id in db.products
    ensures Finish(db, db.products[request.id], request) == Handle(db, request)
  {
    assert View(db, request.id, db.products[request.id]) == db;
  }

  /* ----- one commit ----- */

  /** What a commit leaves of its product, column by column: what the request sets to something other
      than it had read is set, and every other column is as others have left it. */
  lemma FinishColumns(db: Database, seen: Product, request: Request)
    requires ReadsFirst(request) && request.id in db.products && Finish(db, seen, request).1 == Done
    ensures var db', p, id := Finish(db, seen, request).0, db.products[request.id], request.id;
            && OthersStay(db, db', id) && id in db'.products
            && var q := db'.products[id];
               && q.team == p.team && q.createdBy == p.createdBy
               && q.lastUpdatedBy == (if request.user != seen.lastUpdatedBy then request.user else p.lastUpdatedBy)
  {
  }

  /** The text columns and the schedule after an update. */
  lemma UpdatedColumns(db: Database, seen: Product, request: Request)
    requires request.Update? && request.id in db.products && Finish(db, seen, request).1 == Done
    ensures var p, patch := db.products[request.id], request.patch;
            && request.id in Finish(db, seen, request).0.products
            && var q := Finish(db, seen, request).0.products[request.id];
               && q.tables == p.tables
               && (forall name | Wants(patch, seen.name, name) :: q.name == if name != seen.name then name else p.name)
               && (forall text | patch.description == Some(text) ::
                     q.description == if text != seen.description then text else p.description)
               && (forall text | patch.documentation == Some(text) ::
                     q.documentation == if text != seen.documentation then text else p.documentation)
               && (forall text | patch.scheduleType == Some(text) ::
                     q.scheduleType == if text != seen.scheduleType then text else p.scheduleType)
               && (patch.description == None ==> q.description == p.description)
               && (patch.documentation == None ==> q.documentation == p.documentation)
               && (patch.scheduleType == None ==> q.scheduleType == p.scheduleType)
  {
    AskedName(request.patch, seen.name);
  }

  /** The columns after new tables or a restored text. */
  lemma OtherColumns(db: Database, seen: Product, request: Request)
    requires (request.SetTables? || request.Restore?) && request.id in db.products
    requires Valid(db) && Finish(db, seen, request).1 == Done
    ensures var p := db.products[request.id];
            && request.id in Finish(db, seen, request).0.products
            && var q := Finish(db, seen, request).0.products[request.id];
               && q.name == p.name && q.scheduleType == p.scheduleType
               && (request.SetTables? ==>
                     && q.description == p.description && q.documentation == p.documentation
                     && exists kept :: FirstMentions(request.tables, kept)
                                       && q.tables == if kept != seen.tables then kept else p.tables)
               && (request.Restore? ==>
                     && q.tables == p.tables
                     && forall r | RevisionOf(db, request.id, r) && r.id == request.revision ::
                          if r.fieldName == "description" then
                            && q.documentation == p.documentation
                            && q.description == if r.content != seen.description then r.content else p.description
                          else
                            && q.description == p.description
                            && q.documentation ==
                               if r.content != seen.documentation then r.content else p.documentation)
  {
    if request.SetTables? {
      DedupedMeaning(request.tables);
      assert FirstMentions(request.tables, Deduped(request.tables));
    } else {
      forall r | RevisionOf(db, request.id, r) && r.id == request.revision
        ensures FindRevision(db.revisions, request.revision) == Some(r)
      {
        FindsRevision(db.revisions, r);
      }
    }
  }

  /** The request sets `field` of its product, and so logs what it read there. */
  predicate Sets(db: Database, seen: Product, request: Request, field: string)
    requires Restorable(field)
  {
    match request
    case Update(_, patch, _) => Asked(patch, field).Some? && Asked(patch, field).value != Content(seen, field)
    case Restore(id, revision, _) => Usable(db, id, revision).Some? && Usable(db, id, revision).value.fieldName == field
    case _ => false
  }

  /** From `db` to `db'` the log of the field gains what was read, if the request sets the field. */
  ghost predicate LogsWhatItRead(db: Database, db': Database, seen: Product, request: Request, id: Id, field: string)
    requires ReadsFirst(request) && Restorable(field)
  {
    Logged(db'.revisions, id, field) ==
    Logged(db.revisions, id, field) +
    if request.id == id && Sets(db, seen, request, field) then [Content(seen, field)] else []
  }

  lemma UpdateFinishLogs(db: Database, seen: Product, request: Request, id: Id, field: string, db': Database)
    requires request.Update? && Restorable(field)
    requires var view := View(db, request.id, seen);
             var one := Snapshot(view, request.id, request.patch, "description", request.user);
             db'.revisions == Snapshot(one, request.id, request.patch, "documentation", request.user).revisions
    ensures LogsWhatItRead(db, db', seen, request, id, field)
  {
    UpdateLogs(View(db, request.id, seen), request.id, request.patch, request.user, id, field);
  }

  lemma RestoreFinishLogs(db: Database, seen: Product, request: Request, id: Id, field: string, db': Database)
    requires request.Restore? && Restorable(field) && Usable(db, request.id, request.revision).Some?
    requires var restored := Usable(db, request.id, request.revision).value.fieldName;
             db'.revisions ==
             AddRevision(View(db, request.id, seen), request.id, restored, request.user, "restore").revisions
    ensures LogsWhatItRead(db, db', seen, request, id, field)
  {
    var restored := Usable(db, request.id, request.revision).value.fieldName;
    AddRevisionLogs(View(db, request.id, seen), request.id, restored, request.user, "restore", id, field);
  }

  /** A commit adds what it read to the log of each field that it sets. */
  lemma FinishLogs(db: Database, seen: Product, request: Request, id: Id, field: string)
    requires ReadsFirst(request) && Restorable(field) && Finish(db, seen, request).1 == Done
    ensures Finish(db, seen, request).0.products.Keys == db.products.Keys
    ensures LogsWhatItRead(db, Finish(db, seen, request).0, seen, request, id, field)
  {
    var db' := Finish(db, seen, request).0;
    if request.Update? {
      UpdateFinishLogs(db, seen, request, id, field, db');
    } else if request.Restore? {
      RestoreFinishLogs(db, seen, request, id, field, db');
    }
  }

  lemma FinishLeavesUnset(db: Database, seen: Product, request: Request, id: Id, field: string)
    requires ReadsFirst(request) && id in db.products && Restorable(field) && Finish(db, seen, request).1 == Done
    requires request.id != id || !Sets(db, seen, request, field)
    ensures var db' := Finish(db, seen, request).0;
            id in db'.products && Content(db'.products[id], field) == Content(db.products[id], field)
  {
  }

  /** A commit extends its product's history at the end exactly when it sets nothing that has changed
      since it was read. */
  lemma FinishKeepsHistoryIff(db: Database, seen: Product, request: Request, id: Id, field: string)
    requires ReadsFirst(request) && id in db.products && Restorable(field) && Finish(db, seen, request).1 == Done
    ensures var db' := Finish(db, seen, request).0;
            && id in db'.products && |History(db, id, field)| <= |History(db', id, field)|
            && (History(db, id, field) <= History(db', id, field) <==>
                (request.id == id && Sets(db, seen, request, field) ==>
                   Content(seen, field) == Content(db.products[id], field)))
  {
    var db' := Finish(db, seen, request).0;
    var logged, logged' := Logged(db.revisions, id, field), Logged(db'.revisions, id, field);
    FinishLogs(db, seen, request, id, field);
    if request.id == id && Sets(db, seen, request, field) {
      assert History(db, id, field)[|logged|] == Content(db.products[id], field);
      assert History(db', id, field)[|logged|] == Content(seen, field);
      assert History(db', id, field)[..|logged|] == logged;
    } else {
      FinishLeavesUnset(db, seen, request, id, field);
      assert logged' == logged;
    }
  }

  /** The content that such a commit overwrites stays known only if it was known before or is what was
      read or written. */
  lemma OverwrittenContentLost(db: Database, seen: Product, request: Request, field: string)
    requires ReadsFirst(request) && request.id in db.products && Restorable(field)
    requires Finish(db, seen, request).1 == Done && Sets(db, seen, request, field)
    ensures var db', old' := Finish(db, seen, request).0, Content(db.products[request.id], field);
            && request.id in db'.products
            && (old' in History(db', request.id, field) <==>
                || old' in Logged(db.revisions, request.id, field)
                || old' == Content(seen, field) || old' == Content(db'.products[request.id], field))
  {
    FinishLogs(db, seen, request, request.id, field);
  }

  /** Whatever was read, a revision of an existing product may be added under the next id. */
  lemma LogKeepsValid(db: Database, id: Id, field: string, content: Option<string>, user: string, source: string)
    requires Valid(db) && id in db.products && Restorable(field)
    ensures Valid(db.(revisions := db.revisions + [Revision(db.nextId, id, field, content, user, source)],
                      nextId := db.nextId + 1))
  {
  }

  lemma SnapshotKeepsValid(db: Database, view: Database, id: Id, patch: Patch, field: string, user: string)
    requires Valid(db) && id in db.products && id in view.products && Restorable(field)
    requires view.revisions == db.revisions && view.nextId == db.nextId
    ensures var logged := Snapshot(view, id, patch, field, user);
            Valid(db.(revisions := logged.revisions, nextId := logged.nextId))
  {
    if Changes(view, id, patch, field) {
      LogKeepsValid(db, id, field, Content(view.products[id], field), user, "user");
    }
  }

  lemma FinishKeepsValid(db: Database, seen: Product, request: Request)
    requires Valid(db) && ReadsFirst(request)
    ensures Valid(Finish(db, seen, request).0)
  {
    if Finish(db, seen, request).1 == Done {
      var id, after, view := request.id, Finish(db, seen, request).0, View(db, request.id, seen);
      match request
      case Update(_, patch, user) =>
        var one := Snapshot(view, id, patch, "description", user);
        SnapshotKeepsValid(db, view, id, patch, "description", user);
        var mid := db.(revisions := one.revisions, nextId := one.nextId);
        SnapshotKeepsValid(mid, one, id, patch, "documentation", user);
      case SetTables(_, tables, user) =>
      case Restore(_, revision, user) =>
        var field := Usable(db, id, revision).value.fieldName;
        LogKeepsValid(db, id, field, Content(seen, field), user, "restore");
      var logged := db.(revisions := after.revisions, nextId := after.nextId);
      assert Valid(logged) && after == logged.(products := db.products[id := after.products[id]]);
      ReplaceProductKeepsValid(logged, id, after.products[id]);
    }
  }

  /* ----- overlapping requests ----- */

  datatype Draft = Draft(id: Id, seen: Product)

  /** `drafts` holds what each request under way has read. */
  datatype State = State(db: Database, drafts: map<nat, Draft>)

  datatype Step =
    | Read(q: nat, id: Id)
    | Write(q: nat, request: Request)
    | AtOnce(request: Request)
    | GiveUp(q: nat)

  ghost predicate Next(s: State, step: Step, s': State) {
    match step
    case Read(q, id) =>
      id in s.db.products && q !in s.drafts && s' == s.(drafts := s.drafts[q := Draft(id, s.db.products[id])])
    case Write(q, request) =>
      && q in s.drafts && ReadsFirst(request) && request.id == s.drafts[q].id
      && s' == State(Finish(s.db, s.drafts[q].seen, request).0, s.drafts - {q})
    case AtOnce(request) => !ReadsFirst(request) && s' == s.(db := Handle(s.db, request).0)
    case GiveUp(q) => s' == s.(drafts := s.drafts - {q})
  }

  ghost predicate StepTaken(states: seq<State>, steps: seq<Step>, i: nat)
    requires i < |steps| < |states|
  {
    Next(states[i], steps[i], states[i + 1])
  }

  ghost predicate Run(states: seq<State>, steps: seq<Step>) {
    && |states| == |steps| + 1
    && Valid(states[0].db) && states[0].drafts == map[]
    && forall i: nat | i < |steps| :: StepTaken(states, steps, i)
  }

  /** Step `i` commits a new content of the field. */
  ghost predicate Commits(s: State, step: Step, id: Id, field: string)
    requires Restorable(field)
  {
    && step.Write? && step.q in s.drafts && ReadsFirst(step.request) && step.request.id == id
    && Finish(s.db, s.drafts[step.q].seen, step.request).1 == Done
    && Sets(s.db, s.drafts[step.q].seen, step.request, field)
  }

  /** ... although the field is no longer what the request read. */
  ghost predicate Stale(s: State, step: Step, id: Id, field: string)
    requires Restorable(field) && id in s.db.products
  {
    && Commits(s, step, id, field)
    && Content(s.drafts[step.q].seen, field) != Content(s.db.products[id], field)
  }

  lemma StepKeepsProduct(s: State, step: Step, s': State, id: Id)
    requires Next(s, step, s') && Valid(s.db) && id in s.db.products && step != AtOnce(Delete(id))
    ensures Valid(s'.db) && id in s'.db.products
  {
    match step
    case Write(q, request) => FinishKeepsValid(s.db, s.drafts[q].seen, request);
    case AtOnce(request) => HandleKeepsValid(s.db, request);
    case _ =>
  }

  lemma StepKeepsHistoryIff(s: State, step: Step, s': State, id: Id, field: string)
    requires Next(s, step, s') && Valid(s.db) && id in s.db.products && Restorable(field) && step != AtOnce(Delete(id))
    ensures id in s'.db.products
    ensures |History(s.db, id, field)| <= |History(s'.db, id, field)|
    ensures History(s.db, id, field) <= History(s'.db, id, field) <==> !Stale(s, step, id, field)
    ensures !Commits(s, step, id, field) ==> Content(s'.db.products[id], field) == Content(s.db.products[id], field)
  {
    match step
    case Write(q, request) =>
      var seen := s.drafts[q].seen;
      if Finish(s.db, seen, request).1 == Done {
        FinishKeepsHistoryIff(s.db, seen, request, id, field);
        if !Commits(s, step, id, field) { FinishLeavesUnset(s.db, seen, request, id, field); }
      }
    case AtOnce(request) =>
      HistoryGrows(s.db, request, id, field);
      assert Appended(s.db, request, id, field) == [];
    case _ =>
  }

  /** A refused write changes neither products nor log. An update is refused for its name exactly when
      its product still exists and it changes the name it read to one that another product now has; a
      name it leaves alone never stands in its way, whoever has renamed what since it read. */
  lemma RefusedStepsChangeNothing(s: State, step: Step, s': State)
    requires Next(s, step, s') && Valid(s.db)
    ensures step.AtOnce? && Handle(s.db, step.request).1 != Done ==> s'.db == s.db
    ensures step.Write? && Finish(s.db, s.drafts[step.q].seen, step.request).1 != Done ==> s'.db == s.db
    ensures step.Write? && step.request.Update? ==>
              var seen, id := s.drafts[step.q].seen, step.request.id;
              var wanted := NewName(step.request.patch, seen.name);
              Finish(s.db, seen, step.request).1 == DuplicateName <==>
                id in s.db.products && wanted != seen.name && NameTaken(s.db, id, wanted)
  {
    match step
    case AtOnce(request) => RefusalsChangeNothing(s.db, request);
    case Write(q, request) => KeptNameIsFree(s.db, request.id);
    case _ =>
  }

  lemma KeptNameIsFree(db: Database, id: Id)
    requires Valid(db)
    ensures id in db.products ==> !NameTaken(db, id, db.products[id].name)
  {
  }

  /** The product is there from the start and never deleted. */
  ghost predicate Lives(states: seq<State>, steps: seq<Step>, id: Id) {
    Run(states, steps) && id in states[0].db.products && AtOnce(Delete(id)) !in steps
  }

  lemma {:induction false} LivesOn(states: seq<State>, steps: seq<Step>, id: Id, n: nat)
    requires Lives(states, steps, id) && n < |states|
    ensures Valid(states[n].db) && id in states[n].db.products
  {
    if n > 0 {
      LivesOn(states, steps, id, n - 1);
      assert steps[n - 1] in steps && StepTaken(states, steps, n - 1);
      StepKeepsProduct(states[n - 1], steps[n - 1], states[n], id);
    }
  }

  ghost function HistoryAt(states: seq<State>, steps: seq<Step>, id: Id, field: string, n: nat): seq<Option<string>>
    requires Lives(states, steps, id) && Restorable(field) && n < |states|
  {
    LivesOn(states, steps, id, n);
    History(states[n].db, id, field)
  }

  ghost predicate StaleAt(states: seq<State>, steps: seq<Step>, id: Id, field: string, i: nat)
    requires Lives(states, steps, id) && Restorable(field) && i < |steps|
  {
    LivesOn(states, steps, id, i);
    Stale(states[i], steps[i], id, field)
  }

  lemma OneStep(states: seq<State>, steps: seq<Step>, id: Id, field: string, i: nat)
    requires Lives(states, steps, id) && Restorable(field) && i < |steps|
    ensures var h, h' := HistoryAt(states, steps, id, field, i), HistoryAt(states, steps, id, field, i + 1);
            |h| <= |h'| && (h <= h' <==> !StaleAt(states, steps, id, field, i))
  {
    LivesOn(states, steps, id, i);
    assert steps[i] in steps && StepTaken(states, steps, i);
    StepKeepsHistoryIff(states[i], steps[i], states[i + 1], id, field);
  }

  lemma {:induction false} FreshWritesKeepHistory(states: seq<State>, steps: seq<Step>, id: Id, field: string,
                                                  k: nat, n: nat)
    requires Lives(states, steps, id) && Restorable(field) && k <= n < |states|
    requires forall i: nat | i < n :: !StaleAt(states, steps, id, field, i)
    ensures HistoryAt(states, steps, id, field, k) <= HistoryAt(states, steps, id, field, n)
    decreases n
  {
    if k < n {
      FreshWritesKeepHistory(states, steps, id, field, k, n - 1);
      OneStep(states, steps, id, field, n - 1);
    }
  }

  lemma PrefixesAreOrdered<T>(a: seq<T>, b: seq<T>, whole: seq<T>)
    requires a <= whole && b <= whole && |a| <= |b|
    ensures a <= b
  {
    assert a == whole[..|a|] && b == whole[..|b|];
  }

  /** In any interleaving every earlier history is a prefix of the one at step `n` exactly when no
      commit before `n` set the field after it had changed since that request read it. */
  lemma HistoryKeptIffNoStaleWrite(states: seq<State>, steps: seq<Step>, id: Id, field: string, n: nat)
    requires Lives(states, steps, id) && Restorable(field) && n < |states|
    ensures (forall k: nat | k <= n ::
               HistoryAt(states, steps, id, field, k) <= HistoryAt(states, steps, id, field, n)) <==>
            (forall i: nat | i < n :: !StaleAt(states, steps, id, field, i))
  {
    if forall i: nat | i < n :: !StaleAt(states, steps, id, field, i) {
      forall k: nat | k <= n
        ensures HistoryAt(states, steps, id, field, k) <= HistoryAt(states, steps, id, field, n)
      {
        FreshWritesKeepHistory(states, steps, id, field, k, n);
      }
    } else {
      var i: nat :| i < n && StaleAt(states, steps, id, field, i);
      OneStep(states, steps, id, field, i);
      var h, h', last := HistoryAt(states, steps, id, field, i), HistoryAt(states, steps, id, field, i + 1),
                         HistoryAt(states, steps, id, field, n);
      if h <= last && h' <= last { PrefixesAreOrdered(h, h', last); }
    }
  }

  /** Then no content the field ever had is missing from its history. */
  lemma NothingIsLostWithoutStaleWrites(states: seq<State>, steps: seq<Step>, id: Id, field: string, k: nat, n: nat)
    requires Lives(states, steps, id) && Restorable(field) && k <= n < |states|
    requires forall i: nat | i < n :: !StaleAt(states, steps, id, field, i)
    ensures id in states[k].db.products
    ensures Content(states[k].db.products[id], field) in HistoryAt(states, steps, id, field, n)
  {
    LivesOn(states, steps, id, k);
    FreshWritesKeepHistory(states, steps, id, field, k, n);
    var h := HistoryAt(states, steps, id, field, k);
    assert h[|h| - 1] == Content(states[k].db.products[id], field);
  }

  /* ----- what makes a write stale ----- */

  /** What a request has read was the product at one step, and no step since then was its own. */
  lemma {:induction false} ReadWitness(states: seq<State>, steps: seq<Step>, n: nat, q: nat) returns (m: nat)
    requires Run(states, steps) && n < |states| && q in states[n].drafts
    ensures m < n && steps[m] == Read(q, states[n].drafts[q].id)
    ensures states[n].drafts[q].id in states[m].db.products
    ensures states[n].drafts[q].seen == states[m].db.products[states[n].drafts[q].id]
    ensures forall i | m < i < n :: !(steps[i].Read? || steps[i].Write? || steps[i].GiveUp?) || steps[i].q != q
  {
    assert StepTaken(states, steps, n - 1);
    if steps[n - 1].Read? && steps[n - 1].q == q {
      m := n - 1;
    } else {
      m := ReadWitness(states, steps, n - 1, q);
    }
  }

  lemma ContentStaysOnce(states: seq<State>, steps: seq<Step>, id: Id, field: string, i: nat)
    requires Lives(states, steps, id) && Restorable(field) && i < |steps| && !Commits(states[i], steps[i], id, field)
    ensures id in states[i].db.products && id in states[i + 1].db.products
    ensures Content(states[i].db.products[id], field) == Content(states[i + 1].db.products[id], field)
  {
    LivesOn(states, steps, id, i);
    assert steps[i] in steps && StepTaken(states, steps, i);
    StepKeepsHistoryIff(states[i], steps[i], states[i + 1], id, field);
  }

  lemma {:induction false} ContentStays(states: seq<State>, steps: seq<Step>, id: Id, field: string, m: nat, n: nat)
    requires Lives(states, steps, id) && Restorable(field) && m <= n < |states|
    requires forall i | m <= i < n :: !Commits(states[i], steps[i], id, field)
    ensures id in states[m].db.products && id in states[n].db.products
    ensures Content(states[m].db.products[id], field) == Content(states[n].db.products[id], field)
    decreases n
  {
    if m < n {
      ContentStays(states, steps, id, field, m, n - 1);
      ContentStaysOnce(states, steps, id, field, n - 1);
    } else {
      LivesOn(states, steps, id, n);
    }
  }

  lemma SomeCommit(states: seq<State>, steps: seq<Step>, id: Id, field: string, m: nat, n: nat) returns (i: nat)
    requires Lives(states, steps, id) && Restorable(field) && m <= n < |states|
    requires id in states[m].db.products && id in states[n].db.products
    requires Content(states[m].db.products[id], field) != Content(states[n].db.products[id], field)
    ensures m <= i < n && Commits(states[i], steps[i], id, field)
  {
    if forall j | m <= j < n :: !Commits(states[j], steps[j], id, field) {
      ContentStays(states, steps, id, field, m, n);
      assert false;
    }
    var j :| m <= j < n && Commits(states[j], steps[j], id, field);
    i := j;
  }

  lemma StaleReadsProduct(states: seq<State>, steps: seq<Step>, id: Id, field: string, n: nat) returns (q: nat)
    requires Lives(states, steps, id) && Restorable(field) && n < |steps| && StaleAt(states, steps, id, field, n)
    ensures steps[n].Write? && steps[n].q == q && q in states[n].drafts && states[n].drafts[q].id == id
    ensures id in states[n].db.products
    ensures Content(states[n].drafts[q].seen, field) != Content(states[n].db.products[id], field)
  {
    q := steps[n].q;
    LivesOn(states, steps, id, n);
    assert StepTaken(states, steps, n);
  }

  /** A stale write needs another request's commit of the same field between its own read and commit. */
  lemma StaleNeedsOverlap(states: seq<State>, steps: seq<Step>, id: Id, field: string, n: nat) returns (m: nat, i: nat)
    requires Lives(states, steps, id) && Restorable(field) && n < |steps| && StaleAt(states, steps, id, field, n)
    ensures steps[n].Write? && m < i < n && steps[m] == Read(steps[n].q, id)
    ensures Commits(states[i], steps[i], id, field) && steps[i].q != steps[n].q
  {
    var q := StaleReadsProduct(states, steps, id, field, n);
    m := ReadWitness(states, steps, n, q);
    i := SomeCommit(states, steps, id, field, m, n);
  }

  function Describing(id: Id, wanted: Option<string>, user: string): Request {
    Update(id, Patch(None, Some(wanted), None, None), user)
  }

  /** The commit of an update of the description alone, from what was read. */
  lemma UpdateDescription(db: Database, seen: Product, id: Id, wanted: Option<string>, user: string)
    returns (after: Database)
    requires Valid(db) && id in db.products && db.products[id].name == seen.name && wanted != seen.description
    ensures after == Finish(db, seen, Describing(id, wanted, user)).0 && Valid(after)
    ensures id in after.products && after.products[id].name == seen.name
    ensures after.products[id].description == wanted
    ensures Logged(after.revisions, id, "description") == Logged(db.revisions, id, "description") + [seen.description]
  {
    var request := Describing(id, wanted, user);
    after := Finish(db, seen, request).0;
    assert NewName(request.patch, seen.name) == seen.name;
    FinishLogs(db, seen, request, id, "description");
    FinishKeepsValid(db, seen, request);
  }

  /** Two requests that both read before either commits, as a run ending in `one` and then `two`. */
  lemma TwoOverlap(db: Database, id: Id, first: Request, second: Request, one: Database, two: Database)
    returns (states: seq<State>, steps: seq<Step>)
    requires Valid(db) && id in db.products && ReadsFirst(first) && ReadsFirst(second)
    requires first.id == id && second.id == id
    requires one == Finish(db, db.products[id], first).0 && two == Finish(one, db.products[id], second).0
    ensures Run(states, steps) && steps == [Read(0, id), Read(1, id), Write(0, first), Write(1, second)]
    ensures states[0].db == db && states[3].db == one && states[4].db == two
  {
    var p := Draft(id, db.products[id]);
    var s0, s1, s2 := State(db, map[]), State(db, map[0 := p]), State(db, map[0 := p, 1 := p]);
    var s3, s4 := State(one, map[1 := p]), State(two, map[]);
    assert s2.drafts - {0} == s3.drafts && s3.drafts - {1} == s4.drafts;
    assert Next(s2, Write(0, first), s3);
    assert Next(s3, Write(1, second), s4);
    states := [s0, s1, s2, s3, s4];
    steps := [Read(0, id), Read(1, id), Write(0, first), Write(1, second)];
    forall i: nat | i < |steps| ensures StepTaken(states, steps, i) { assert i == 0 || i == 1 || i == 2 || i == 3; }
  }

  /** Both commits, seen only through the contents and the log that they leave. */
  lemma TwoDescriptions(db: Database, id: Id, b: Option<string>, c: Option<string>, user: string)
    returns (one: Database, two: Database)
    requires Valid(db) && id in db.products
    requires var a := db.products[id].description; a != b && a != c
    ensures one == Finish(db, db.products[id], Describing(id, b, user)).0
    ensures two == Finish(one, db.products[id], Describing(id, c, user)).0
    ensures id in one.products && one.products[id].description == b
    ensures id in two.products && two.products[id].description == c
    ensures var a := db.products[id].description;
            Logged(two.revisions, id, "description") == Logged(db.revisions, id, "description") + [a] + [a]
  {
    one := UpdateDescription(db, db.products[id], id, b, user);
    two := UpdateDescription(one, db.products[id], id, c, user);
  }

  lemma DescriptionRace(db: Database, id: Id, b: Option<string>, c: Option<string>, user: string)
    returns (states: seq<State>, steps: seq<Step>)
    requires Valid(db) && id in db.products
    requires var a := db.products[id].description; a != b && a != c
    ensures Lives(states, steps, id) && |steps| == 4 && states[0].db == db
    ensures id in states[3].db.products && states[3].db.products[id].description == b
    ensures id in states[4].db.products && states[4].db.products[id].description == c
    ensures var a := db.products[id].description;
            Logged(states[4].db.revisions, id, "description") == Logged(db.revisions, id, "description") + [a] + [a]
  {
    var one, two := TwoDescriptions(db, id, b, c, user);
    states, steps := TwoOverlap(db, id, Describing(id, b, user), Describing(id, c, user), one, two);
  }

  lemma LastHistory(states: seq<State>, steps: seq<Step>, id: Id, last: Database)
    requires Lives(states, steps, id) && states[|steps|].db == last
    ensures id in last.products
    ensures HistoryAt(states, steps, id, "description", |steps|) ==
            Logged(last.revisions, id, "description") + [last.products[id].description]
  {
    LivesOn(states, steps, id, |steps|);
  }

  /** And that is enough: of two requests that read A and set B and C, the history shows A twice and
      then C. The committed B is in no revision. */
  lemma OverlappingUpdatesLoseOne(db: Database, id: Id, b: Option<string>, c: Option<string>, user: string)
    returns (states: seq<State>, steps: seq<Step>)
    requires Valid(db) && id in db.products && b != c
    requires var a := db.products[id].description; a != b && a != c
    ensures Lives(states, steps, id) && |steps| == 4 && states[0].db == db
    ensures id in states[3].db.products && Content(states[3].db.products[id], "description") == b
    ensures var a := db.products[id].description;
            HistoryAt(states, steps, id, "description", 4) ==
            Logged(db.revisions, id, "description") + [a] + [a] + [c]
    ensures b in HistoryAt(states, steps, id, "description", 4) <==> b in Logged(db.revisions, id, "description")
  {
    states, steps := DescriptionRace(db, id, b, c, user);
    LastHistory(states, steps, id, states[4].db);
  }
}
