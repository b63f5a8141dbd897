/** Data products and their revision log: each request is one transaction on the database. */
module ProductStore {
  import opened Sequences

  type Id = nat

  datatype Product = Product(name: string, description: Option<string>, documentation: Option<string>,
                             team: Option<string>, scheduleType: Option<string>, tables: seq<string>,
                             createdBy: string, lastUpdatedBy: string)

  /** The content a field had before a change. */
  datatype Revision = Revision(id: Id, productId: Id, fieldName: string, content: Option<string>,
                               changedBy: string, changeSource: string)

  /** `revisions` is in creation order; `nextId` stands for the supply of never-repeated ids. */
  datatype Database = Database(products: map<Id, Product>, revisions: seq<Revision>, nextId: Id)

  const RESTORABLE_FIELDS: seq<string> := ["description", "documentation"]

  predicate Restorable(field: string) { field == "description" || field == "documentation" }

  function Content(p: Product, field: string): Option<string>
    requires Restorable(field)
  {
    if field == "description" then p.description else p.documentation
  }

  function WithContent(p: Product, field: string, content: Option<string>): Product
    requires Restorable(field)
  {
    if field == "description" then p.(description := content) else p.(documentation := content)
  }

  /** An update request: the outer option says whether the request names the field at all. */
  datatype Patch = Patch(name: Option<Option<string>>, description: Option<Option<string>>,
                         documentation: Option<Option<string>>, scheduleType: Option<Option<string>>)

  function Asked(patch: Patch, field: string): Option<Option<string>>
    requires Restorable(field)
  {
    if field == "description" then patch.description else patch.documentation
  }

  /** `name` is null or empty in a request that leaves the name alone. */
  function NewName(patch: Patch, current: string): string {
    if patch.name.Some? && patch.name.value.Some? && patch.name.value.value != "" then patch.name.value.value
    else current
  }

  /* ----- `_dedupe` ----- */

  function NonEmpty(tables: seq<string>): (r: seq<string>)
    ensures forall t :: t in r <==> t in tables && t != ""
  {
    if tables == [] then [] else
      var front, last := tables[..|tables| - 1], tables[|tables| - 1];
      assert tables == front + [last];
      if last == "" then NonEmpty(front) else NonEmpty(front) + [last]
  }

  function Deduped(tables: seq<string>): seq<string> { Distinct(NonEmpty(tables)) }

  method Dedupe(tables: seq<string>) returns (out: seq<string>)
    ensures out == Deduped(tables)
  {
    var seen: set<string> := {};
    out := [];
    for i := 0 to |tables|
      invariant out == Deduped(tables[..i])
      invariant forall t :: t in seen <==> t in out
    {
      assert tables[..i + 1][..i] == tables[..i];
      var kept := NonEmpty(tables[..i]);
      assert (kept + [tables[i]])[..|kept|] == kept;
      if tables[i] != "" && tables[i] !in seen {
        seen := seen + {tables[i]};
        out := out + [tables[i]];
      }
    }
    assert tables[..|tables|] == tables;
  }

  /** Every non-empty name once, in order of first mention. */
  ghost predicate FirstMentions(tables: seq<string>, kept: seq<string>) {
    && NoDuplicates(kept) && (forall t :: t in kept <==> t in tables && t != "")
    && InFirstOrder(tables, kept)
  }

  lemma {:induction false} DedupedInOrder(tables: seq<string>)
    ensures InFirstOrder(tables, Deduped(tables))
  {
    if tables != [] {
      var front, last := tables[..|tables| - 1], tables[|tables| - 1];
      DedupedInOrder(front);
      FirstOrderGrows(front, last, Deduped(front));
      assert tables == front + [last];
      if last != "" { DistinctStep(NonEmpty(front), last); }
    }
  }

  /** What `_dedupe` promises. */
  lemma DedupedMeaning(tables: seq<string>)
    ensures FirstMentions(tables, Deduped(tables))
  {
    DistinctProperties(NonEmpty(tables));
    DedupedInOrder(tables);
  }

  /* ----- transactions ----- */

  ghost predicate UniqueNames(products: map<Id, Product>) {
    forall a, b | a in products && b in products && products[a].name == products[b].name :: a == b
  }

  predicate NameTaken(db: Database, id: Id, name: string) {
    exists other :: other in db.products && other != id && db.products[other].name == name
  }

  function AddRevision(db: Database, id: Id, field: string, user: string, source: string): Database
    requires id in db.products && Restorable(field)
  {
    db.(revisions := db.revisions + [Revision(db.nextId, id, field, Content(db.products[id], field), user, source)],
        nextId := db.nextId + 1)
  }

  predicate Changes(db: Database, id: Id, patch: Patch, field: string)
    requires id in db.products && Restorable(field)
  {
    Asked(patch, field).Some? && Asked(patch, field).value != Content(db.products[id], field)
  }

  /** A revision for `field` if the request changes its content. */
  function Snapshot(db: Database, id: Id, patch: Patch, field: string, user: string): Database
    requires id in db.products && Restorable(field)
  {
    if Changes(db, id, patch, field)
    then AddRevision(db, id, field, user, "user") else db
  }

  function Patched(p: Product, patch: Patch, user: string): Product {
    Product(NewName(patch, p.name),
            if patch.description.Some? then patch.description.value else p.description,
            if patch.documentation.Some? then patch.documentation.value else p.documentation,
            p.team,
            if patch.scheduleType.Some? then patch.scheduleType.value else p.scheduleType,
            p.tables, p.createdBy, user)
  }

  datatype Outcome = Done | NotFound | DuplicateName

  datatype Request =
    | Create(product: Product)
    | Update(id: Id, patch: Patch, user: string)
    | SetTables(id: Id, tables: seq<string>, user: string)
    | Delete(id: Id)
    | Restore(id: Id, revision: Id, user: string)

  function FindRevision(revisions: seq<Revision>, id: Id): Option<Revision> {
    if revisions == [] then None
    else if revisions[|revisions| - 1].id == id then Some(revisions[|revisions| - 1])
    else FindRevision(revisions[..|revisions| - 1], id)
  }

  function WithoutProduct(revisions: seq<Revision>, id: Id): seq<Revision> {
    if revisions == [] then [] else
      WithoutProduct(revisions[..|revisions| - 1], id) +
      if revisions[|revisions| - 1].productId == id then [] else [revisions[|revisions| - 1]]
  }

  /** The revision a restore request may use. */
  function Usable(db: Database, id: Id, revision: Id): Option<Revision> {
    match FindRevision(db.revisions, revision)
    case None => None
    case Some(r) => if r.productId == id && Restorable(r.fieldName) then Some(r) else None
  }

  /** The database after a request, and what the caller is told; anything but `Done` changes nothing. */
  function Handle(db: Database, request: Request): (Database, Outcome) {
    match request
    case Create(product) =>
      if NameTaken(db, db.nextId, product.name) then (db, DuplicateName)
      else (db.(products := db.products[db.nextId := product.(tables := Deduped(product.tables),
                                                              lastUpdatedBy := product.createdBy)],
                nextId := db.nextId + 1), Done)
    case Update(id, patch, user) =>
      if id !in db.products then (db, NotFound)
      else if NameTaken(db, id, NewName(patch, db.products[id].name)) then (db, DuplicateName)
      else
        var logged := Snapshot(Snapshot(db, id, patch, "description", user), id, patch, "documentation", user);
        (logged.(products := db.products[id := Patched(db.products[id], patch, user)]), Done)
    case SetTables(id, tables, user) =>
      if id !in db.products then (db, NotFound)
      else
        var p := db.products[id].(tables := Deduped(tables), lastUpdatedBy := user);
        (db.(products := db.products[id := p]), Done)
    case Delete(id) =>
      if id !in db.products then (db, NotFound)
      else (db.(products := db.products - {id}, revisions := WithoutProduct(db.revisions, id)), Done)
    case Restore(id, revision, user) =>
      if id !in db.products || Usable(db, id, revision) == None then (db, NotFound)
      else
        var r := Usable(db, id, revision).value;
        var p := WithContent(db.products[id], r.fieldName, r.content).(lastUpdatedBy := user);
        (AddRevision(db, id, r.fieldName, user, "restore").(products := db.products[id := p]), Done)
  }

  /* ----- what every request keeps ----- */

  ghost predicate Valid(db: Database) {
    && UniqueNames(db.products)
    && (forall id | id in db.products :: id < db.nextId)
    && (forall i | 0 <= i < |db.revisions| ::
          db.revisions[i].id < db.nextId && db.revisions[i].productId in db.products
          && Restorable(db.revisions[i].fieldName))
    && (forall i, j | 0 <= i < j < |db.revisions| :: db.revisions[i].id < db.revisions[j].id)
  }

  lemma {:induction false} WithoutProductKeeps(revisions: seq<Revision>, id: Id)
    ensures forall i | 0 <= i < |WithoutProduct(revisions, id)| ::
              WithoutProduct(revisions, id)[i] in revisions && WithoutProduct(revisions, id)[i].productId != id
    ensures (forall i, j | 0 <= i < j < |revisions| :: revisions[i].id < revisions[j].id) ==>
            forall i, j | 0 <= i < j < |WithoutProduct(revisions, id)| ::
              WithoutProduct(revisions, id)[i].id < WithoutProduct(revisions, id)[j].id
  {
    if revisions != [] {
      var front, last := revisions[..|revisions| - 1], revisions[|revisions| - 1];
      WithoutProductKeeps(front, id);
      assert revisions == front + [last];
    }
  }

  lemma AddRevisionKeepsValid(db: Database, id: Id, field: string, user: string, source: string)
    requires Valid(db) && id in db.products && Restorable(field)
    ensures Valid(AddRevision(db, id, field, user, source))
  {
  }

  lemma ReplaceProductKeepsValid(db: Database, id: Id, p: Product)
    requires Valid(db) && id in db.products && !NameTaken(db, id, p.name)
    ensures Valid(db.(products := db.products[id := p]))
  {
  }

  /** Names stay unique, ids stay unused before they are given out, and every revision belongs to a
      product and sits in creation order, whatever the request. */
  lemma HandleKeepsValid(db: Database, request: Request)
    requires Valid(db)
    ensures Valid(Handle(db, request).0)
  {
    if Handle(db, request).1 == Done {
      match request
      case Create(product) =>
      case Update(id, patch, user) =>
        var one := Snapshot(db, id, patch, "description", user);
        var two := Snapshot(one, id, patch, "documentation", user);
        if one != db { AddRevisionKeepsValid(db, id, "description", user, "user"); }
        if two != one { AddRevisionKeepsValid(one, id, "documentation", user, "user"); }
        ReplaceProductKeepsValid(two, id, Patched(db.products[id], patch, user));
      case SetTables(id, tables, user) =>
        ReplaceProductKeepsValid(db, id, db.products[id].(tables := Deduped(tables), lastUpdatedBy := user));
      case Delete(id) =>
        WithoutProductKeeps(db.revisions, id);
        DeleteKeepsValid(db, id);
      case Restore(id, revision, user) =>
        var r := Usable(db, id, revision).value;
        AddRevisionKeepsValid(db, id, r.fieldName, user, "restore");
        ReplaceProductKeepsValid(AddRevision(db, id, r.fieldName, user, "restore"), id,
          WithContent(db.products[id], r.fieldName, r.content).(lastUpdatedBy := user));
    }
  }

  lemma DeleteKeepsValid(db: Database, id: Id)
    requires Valid(db)
    ensures Valid(db.(products := db.products - {id}, revisions := WithoutProduct(db.revisions, id)))
  {
    WithoutProductKeeps(db.revisions, id);
    var kept := WithoutProduct(db.revisions, id);
    forall i | 0 <= i < |kept|
      ensures kept[i].id < db.nextId && kept[i].productId in db.products - {id} && Restorable(kept[i].fieldName)
    {
      var k :| 0 <= k < |db.revisions| && db.revisions[k] == kept[i];
    }
  }

  /** A refused request leaves products and log alone; an update is refused for its name exactly when
      another product has the name it asks for. */
  lemma RefusalsChangeNothing(db: Database, request: Request)
    ensures Handle(db, request).1 != Done ==> Handle(db, request).0 == db
    ensures request.Update? ==>
              (Handle(db, request).1 == DuplicateName <==>
                 && request.id in db.products
                 && NameTaken(db, request.id, NewName(request.patch, db.products[request.id].name)))
  {
  }

  /** The same update sent again is accepted, logs nothing and changes nothing. */
  lemma UpdateTwice(db: Database, id: Id, patch: Patch, user: string)
    requires Handle(db, Update(id, patch, user)).1 == Done
    ensures var db' := Handle(db, Update(id, patch, user)).0; Handle(db', Update(id, patch, user)) == (db', Done)
  {
    var db' := Handle(db, Update(id, patch, user)).0;
    var p := Patched(db.products[id], patch, user);
    assert db'.products == db.products[id := p] && db'.products[id] == p;
    assert Patched(p, patch, user) == p;
    assert !Changes(db', id, patch, "description") && !Changes(db', id, patch, "documentation");
    assert !NameTaken(db', id, p.name) by {
      assert forall other | other != id ::
        (other in db'.products <==> other in db.products) &&
        (other in db.products ==> db'.products[other] == db.products[other]);
    }
    assert db'.products[id := p] == db'.products;
  }

  /* ----- histories ----- */

  /** The contents logged for a field, oldest first. */
  function Logged(revisions: seq<Revision>, id: Id, field: string): seq<Option<string>> {
    if revisions == [] then [] else
      var last := revisions[|revisions| - 1];
      Logged(revisions[..|revisions| - 1], id, field) +
      if last.productId == id && last.fieldName == field then [last.content] else []
  }

  /** Every content the field has had as far as the log tells, ending with the current one. */
  function History(db: Database, id: Id, field: string): seq<Option<string>>
    requires id in db.products && Restorable(field)
  {
    Logged(db.revisions, id, field) + [Content(db.products[id], field)]
  }

  lemma LoggedStep(revisions: seq<Revision>, r: Revision, id: Id, field: string)
    ensures Logged(revisions + [r], id, field) ==
            Logged(revisions, id, field) + if r.productId == id && r.fieldName == field then [r.content] else []
  {
    assert (revisions + [r])[..|revisions|] == revisions;
  }

  lemma {:induction false} LoggedWithout(revisions: seq<Revision>, gone: Id, id: Id, field: string)
    requires gone != id
    ensures Logged(WithoutProduct(revisions, gone), id, field) == Logged(revisions, id, field)
  {
    if revisions != [] {
      var front, last := revisions[..|revisions| - 1], revisions[|revisions| - 1];
      LoggedWithout(front, gone, id, field);
      LoggedStep(WithoutProduct(front, gone), last, id, field);
      assert WithoutProduct(front, gone) + [] == WithoutProduct(front, gone);
    }
  }

  /** What a successful request appends to the history of one field of one product: nothing, the newly
      asked content, or the restored content. */
  function Appended(db: Database, request: Request, id: Id, field: string): seq<Option<string>>
    requires id in db.products && Restorable(field)
  {
    match request
    case Update(target, patch, _) =>
      if target == id && Changes(db, id, patch, field)
      then [Asked(patch, field).value] else []
    case Restore(target, revision, _) =>
      (match Usable(db, target, revision)
       case None => []
       case Some(r) => if target == id && r.fieldName == field then [r.content] else [])
    case _ => []
  }

  lemma AddRevisionLogs(db: Database, target: Id, changed: string, user: string, source: string, id: Id, field: string)
    requires target in db.products && Restorable(changed) && Restorable(field)
    ensures Logged(AddRevision(db, target, changed, user, source).revisions, id, field) ==
            Logged(db.revisions, id, field) +
            if target == id && changed == field then [Content(db.products[target], field)] else []
  {
    var r := Revision(db.nextId, target, changed, Content(db.products[target], changed), user, source);
    LoggedStep(db.revisions, r, id, field);
  }

  lemma SnapshotLogs(db: Database, target: Id, patch: Patch, changed: string, user: string, id: Id, field: string)
    requires target in db.products && Restorable(changed) && Restorable(field)
    ensures var db' := Snapshot(db, target, patch, changed, user);
            && db'.products == db.products
            && Logged(db'.revisions, id, field) ==
               Logged(db.revisions, id, field) +
               if target == id && changed == field && Changes(db, target, patch, changed)
               then [Content(db.products[target], field)] else []
  {
    if Changes(db, target, patch, changed) { AddRevisionLogs(db, target, changed, user, "user", id, field); }
  }

  /** The two snapshots of an update log the old content of each field it changes. */
  lemma UpdateLogs(db: Database, target: Id, patch: Patch, user: string, id: Id, field: string)
    requires target in db.products && Restorable(field)
    ensures var one := Snapshot(db, target, patch, "description", user);
            Logged(Snapshot(one, target, patch, "documentation", user).revisions, id, field) ==
            Logged(db.revisions, id, field) +
            if target == id && Changes(db, target, patch, field) then [Content(db.products[target], field)] else []
  {
    var one := Snapshot(db, target, patch, "description", user);
    SnapshotLogs(db, target, patch, "description", user, id, field);
    SnapshotLogs(one, target, patch, "documentation", user, id, field);
    if field == "description" {
      assert Logged(one.revisions, id, field) + [] == Logged(one.revisions, id, field);
    } else {
      assert field == "documentation";
      assert Logged(db.revisions, id, field) + [] == Logged(one.revisions, id, field);
      assert Changes(one, target, patch, field) == Changes(db, target, patch, field);
    }
  }

  lemma UpdateHistory(db: Database, target: Id, patch: Patch, user: string, id: Id, field: string)
    requires id in db.products && Restorable(field)
    requires Handle(db, Update(target, patch, user)).1 == Done
    ensures History(Handle(db, Update(target, patch, user)).0, id, field) ==
            History(db, id, field) + Appended(db, Update(target, patch, user), id, field)
  {
    UpdateLogs(db, target, patch, user, id, field);
    var db' := Handle(db, Update(target, patch, user)).0;
    if target == id && Changes(db, id, patch, field) {
      assert Logged(db'.revisions, id, field) == History(db, id, field);
    } else {
      assert Logged(db'.revisions, id, field) == Logged(db.revisions, id, field);
    }
  }

  lemma RestoreHistory(db: Database, target: Id, revision: Id, user: string, id: Id, field: string)
    requires id in db.products && Restorable(field)
    requires Handle(db, Restore(target, revision, user)).1 == Done
    ensures History(Handle(db, Restore(target, revision, user)).0, id, field) ==
            History(db, id, field) + Appended(db, Restore(target, revision, user), id, field)
  {
    var r := Usable(db, target, revision).value;
    AddRevisionLogs(db, target, r.fieldName, user, "restore", id, field);
    var db' := Handle(db, Restore(target, revision, user)).0;
    if target == id && r.fieldName == field {
      assert Logged(db'.revisions, id, field) == History(db, id, field);
    } else {
      assert Logged(db'.revisions, id, field) == Logged(db.revisions, id, field);
    }
  }

  /** A history only ever grows at its end, by exactly what the request sets. */
  lemma HistoryGrows(db: Database, request: Request, id: Id, field: string)
    requires Valid(db) && id in db.products && Restorable(field) && request != Delete(id)
    ensures var (db', outcome) := Handle(db, request);
            && id in db'.products
            && History(db', id, field) ==
               History(db, id, field) + if outcome == Done then Appended(db, request, id, field) else []
  {
    if Handle(db, request).1 == Done {
      match request
      case Create(product) =>
      case Update(target, patch, user) => UpdateHistory(db, target, patch, user, id, field);
      case SetTables(target, tables, user) =>
      case Delete(target) => LoggedWithout(db.revisions, target, id, field);
      case Restore(target, revision, user) => RestoreHistory(db, target, revision, user, id, field);
    }
  }

  lemma {:induction false} NothingLoggedFor(revisions: seq<Revision>, id: Id, field: string)
    requires forall i | 0 <= i < |revisions| :: revisions[i].productId != id
    ensures Logged(revisions, id, field) == []
  {
    if revisions != [] { NothingLoggedFor(revisions[..|revisions| - 1], id, field); }
  }

  /** A new product starts with its own contents and no log, whatever was deleted before. */
  lemma CreatedHistory(db: Database, product: Product, field: string)
    requires Valid(db) && Restorable(field) && Handle(db, Create(product)).1 == Done
    ensures var db' := Handle(db, Create(product)).0;
            db.nextId in db'.products && History(db', db.nextId, field) == [Content(product, field)]
  {
    NothingLoggedFor(db.revisions, db.nextId, field);
  }

  /* ----- runs ----- */

  function HandleAll(db: Database, requests: seq<Request>): Database {
    if requests == [] then db
    else Handle(HandleAll(db, requests[..|requests| - 1]), requests[|requests| - 1]).0
  }

  /** Over any run that does not delete the product, the history at any earlier point is a prefix of
      the history at the end. */
  lemma {:induction false} HistoryIsPrefix(db: Database, requests: seq<Request>, k: nat, id: Id, field: string)
    requires Valid(db) && id in db.products && Restorable(field) && Delete(id) !in requests && k <= |requests|
    ensures Valid(HandleAll(db, requests)) && id in HandleAll(db, requests).products
    ensures id in HandleAll(db, requests[..k]).products
    ensures History(HandleAll(db, requests[..k]), id, field) <= History(HandleAll(db, requests), id, field)
    decreases |requests|
  {
    if requests == [] {
      assert requests[..k] == [];
    } else {
      var front, last := requests[..|requests| - 1], requests[|requests| - 1];
      assert requests == front + [last];
      if k == |requests| {
        assert requests[..k] == requests;
        HistoryIsPrefix(db, front, 0, id, field);
      } else {
        assert front[..k] == requests[..k];
        HistoryIsPrefix(db, front, k, id, field);
      }
      HistoryGrows(HandleAll(db, front), last, id, field);
      HandleKeepsValid(HandleAll(db, front), last);
    }
  }

  /** No content a field ever had is lost: it is still in the history at the end of the run. */
  lemma NothingIsLost(db: Database, requests: seq<Request>, k: nat, id: Id, field: string)
    requires Valid(db) && id in db.products && Restorable(field) && Delete(id) !in requests && k <= |requests|
    ensures id in HandleAll(db, requests[..k]).products && id in HandleAll(db, requests).products
    ensures Content(HandleAll(db, requests[..k]).products[id], field) in History(HandleAll(db, requests), id, field)
  {
    HistoryIsPrefix(db, requests, k, id, field);
    var earlier := History(HandleAll(db, requests[..k]), id, field);
    assert earlier[|earlier| - 1] == Content(HandleAll(db, requests[..k]).products[id], field);
  }

  /* ----- restoring ----- */

  /** A revision of the product can always be restored; its content becomes current, and nothing else
      in the products changes but who updated this one. */
  lemma RestoreMakesCurrent(db: Database, r: Revision, user: string)
    requires Valid(db) && r in db.revisions
    ensures var (db', outcome) := Handle(db, Restore(r.productId, r.id, user));
            && outcome == Done && db'.products.Keys == db.products.Keys
            && Content(db'.products[r.productId], r.fieldName) == r.content
            && db'.products[r.productId] ==
               WithContent(db.products[r.productId], r.fieldName, r.content).(lastUpdatedBy := user)
            && (forall f | Restorable(f) && f != r.fieldName ::
                  Content(db'.products[r.productId], f) == Content(db.products[r.productId], f))
            && forall p | p in db.products && p != r.productId :: db'.products[p] == db.products[p]
  {
    FindsRevision(db.revisions, r);
  }

  lemma {:induction false} FindsRevision(revisions: seq<Revision>, r: Revision)
    requires r in revisions && forall i, j | 0 <= i < j < |revisions| :: revisions[i].id < revisions[j].id
    ensures FindRevision(revisions, r.id) == Some(r)
  {
    var front, last := revisions[..|revisions| - 1], revisions[|revisions| - 1];
    if last != r {
      assert revisions == front + [last];
      FindsRevision(front, r);
    }
  }

  /** The newest revision of a field, if it has any. */
  function Newest(revisions: seq<Revision>, id: Id, field: string): Option<Revision> {
    if revisions == [] then None else
      var last := revisions[|revisions| - 1];
      if last.productId == id && last.fieldName == field then Some(last)
      else Newest(revisions[..|revisions| - 1], id, field)
  }

  lemma {:induction false} NewestIsLastLogged(revisions: seq<Revision>, id: Id, field: string)
    ensures match Newest(revisions, id, field)
            case None => Logged(revisions, id, field) == []
            case Some(r) =>
              && r in revisions && r.productId == id && r.fieldName == field
              && var logged := Logged(revisions, id, field); logged != [] && r.content == logged[|logged| - 1]
  {
    if revisions != [] { NewestIsLastLogged(revisions[..|revisions| - 1], id, field); }
  }

  /** Restoring a field's newest revision right after a change undoes the change. */
  lemma RestoreUndoes(db: Database, request: Request, id: Id, field: string, user: string)
    requires Valid(db) && id in db.products && Restorable(field) && request != Delete(id)
    requires Handle(db, request).1 == Done && Appended(db, request, id, field) != []
    ensures var db' := Handle(db, request).0;
            && Newest(db'.revisions, id, field).Some?
            && var (db'', outcome) := Handle(db', Restore(id, Newest(db'.revisions, id, field).value.id, user));
               outcome == Done && id in db''.products
               && Content(db''.products[id], field) == Content(db.products[id], field)
  {
    var db' := Handle(db, request).0;
    HistoryGrows(db, request, id, field);
    HandleKeepsValid(db, request);
    NewestIsLastLogged(db'.revisions, id, field);
    var logged := Logged(db'.revisions, id, field);
    assert History(db', id, field)[..|logged|] == logged;
    assert |Appended(db, request, id, field)| == 1;
    assert logged == History(db, id, field);
    RestoreMakesCurrent(db', Newest(db'.revisions, id, field).value, user);
  }
}
