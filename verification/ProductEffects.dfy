/** What each request does to the products and to the log, column by column. */
module ProductEffects {
  import opened Sequences
  import opened ProductStore

  /** Every product but `id` is as it was, and no other has come. */
  ghost predicate OthersStay(db: Database, db': Database, id: Id) {
    forall p | p != id :: (p in db'.products <==> p in db.products)
                          && (p in db.products ==> db'.products[p] == db.products[p])
  }

  /** A product other than `id` has the name. */
  ghost predicate OtherHas(db: Database, id: Id, name: string) {
    exists p :: p in db.products && p != id && db.products[p].name == name
  }

  /** A new product has what the request says, its tables without repetition, and its creator as updater. */
  lemma CreateEffect(db: Database, product: Product)
    requires Valid(db)
    ensures var (db', outcome), id := Handle(db, Create(product)), db.nextId;
            && id !in db.products
            && if OtherHas(db, id, product.name) then outcome == DuplicateName && db' == db
               else
                 && outcome == Done && db'.revisions == db.revisions && OthersStay(db, db', id) && id in db'.products
                 && var p := db'.products[id];
                    && p.name == product.name && p.description == product.description
                    && p.documentation == product.documentation && p.team == product.team
                    && p.scheduleType == product.scheduleType && FirstMentions(product.tables, p.tables)
                    && p.createdBy == product.createdBy == p.lastUpdatedBy
  {
    DedupedMeaning(product.tables);
  }

  /** The name an update asks for; null and the empty name ask for none. */
  ghost predicate AsksName(patch: Patch, name: string) { patch.name == Some(Some(name)) && name != "" }

  /** The name the product is to have: the one asked for, or else its own. */
  ghost predicate Wants(patch: Patch, current: string, name: string) {
    AsksName(patch, name) || (name == current && forall n :: !AsksName(patch, n))
  }

  /** The log gains the old content of each field that changes, the description first. */
  ghost predicate LogsOldContents(db: Database, db': Database, id: Id, p: Product, patch: Patch, user: string) {
    var first := if patch.description.Some? && patch.description.value != p.description
                 then [Revision(db.nextId, id, "description", p.description, user, "user")] else [];
    var second := if patch.documentation.Some? && patch.documentation.value != p.documentation
                  then [Revision(db.nextId + |first|, id, "documentation", p.documentation, user, "user")] else [];
    db'.revisions == db.revisions + first + second
  }

  /** An update assigns exactly the columns it names, logs what it changes in the two text fields, and is
      refused for its name exactly when another product has it. */
  lemma UpdateEffect(db: Database, id: Id, patch: Patch, user: string)
    ensures var (db', outcome) := Handle(db, Update(id, patch, user));
            if id !in db.products then outcome == NotFound && db' == db
            else
              var p := db.products[id];
              && (outcome == DuplicateName <==> exists name :: Wants(patch, p.name, name) && OtherHas(db, id, name))
              && (outcome != DuplicateName ==> outcome == Done && id in db'.products)
              && (outcome == DuplicateName ==> db' == db)
              && (outcome == Done ==>
                    && OthersStay(db, db', id) && LogsOldContents(db, db', id, p, patch, user)
                    && var q := db'.products[id];
                       && Wants(patch, p.name, q.name)
                       && q.description == (if patch.description.Some? then patch.description.value else p.description)
                       && q.documentation ==
                          (if patch.documentation.Some? then patch.documentation.value else p.documentation)
                       && q.scheduleType ==
                          (if patch.scheduleType.Some? then patch.scheduleType.value else p.scheduleType)
                       && q.team == p.team && q.tables == p.tables && q.createdBy == p.createdBy
                       && q.lastUpdatedBy == user)
  {
    if id in db.products {
      var p := db.products[id];
      AskedName(patch, p.name);
      var wanted := NewName(patch, p.name);
      assert Wants(patch, p.name, wanted) && (OtherHas(db, id, wanted) <==> NameTaken(db, id, wanted));
      if Handle(db, Update(id, patch, user)).1 == Done { UpdateLogsOld(db, id, patch, user); }
    }
  }

  lemma AskedName(patch: Patch, current: string)
    ensures forall n :: Wants(patch, current, n) <==> n == NewName(patch, current)
  {
    if NewName(patch, current) != current { assert AsksName(patch, NewName(patch, current)); }
  }

  lemma UpdateLogsOld(db: Database, id: Id, patch: Patch, user: string)
    requires id in db.products && Handle(db, Update(id, patch, user)).1 == Done
    ensures LogsOldContents(db, Handle(db, Update(id, patch, user)).0, id, db.products[id], patch, user)
  {
  }

  /** Setting the tables replaces them, without repetition, and notes who did. */
  lemma SetTablesEffect(db: Database, id: Id, tables: seq<string>, user: string)
    ensures var (db', outcome) := Handle(db, SetTables(id, tables, user));
            if id !in db.products then outcome == NotFound && db' == db
            else
              && outcome == Done && id in db'.products && OthersStay(db, db', id) && db'.revisions == db.revisions
              && var p, q := db.products[id], db'.products[id];
                 && FirstMentions(tables, q.tables) && q.lastUpdatedBy == user
                 && q == p.(tables := q.tables, lastUpdatedBy := user)
  {
    DedupedMeaning(tables);
  }

  ghost function OfOthers(id: Id): Revision -> bool { (r: Revision) => r.productId != id }

  lemma {:induction false} WithoutProductFilters(revisions: seq<Revision>, id: Id)
    ensures WithoutProduct(revisions, id) == Filter(revisions, OfOthers(id))
  {
    if revisions != [] { WithoutProductFilters(revisions[..|revisions| - 1], id); }
  }

  /** A deleted product goes with all its revisions; every other product and revision stays, in order. */
  lemma DeleteEffect(db: Database, id: Id)
    ensures var (db', outcome) := Handle(db, Delete(id));
            if id !in db.products then outcome == NotFound && db' == db
            else
              && outcome == Done && id !in db'.products && OthersStay(db, db', id)
              && (forall r | r in db'.revisions :: r.productId != id)
              && (forall r | r in db.revisions && r.productId != id :: r in db'.revisions)
              && db'.revisions == Filter(db.revisions, OfOthers(id))
  {
    WithoutProductFilters(db.revisions, id);
    FilterMembers(db.revisions, OfOthers(id));
  }

  /** `r` is a revision of the product's description or documentation. */
  ghost predicate RevisionOf(db: Database, id: Id, r: Revision) {
    r in db.revisions && r.productId == id && (r.fieldName == "description" || r.fieldName == "documentation")
  }

  /** Restoring logs the current content and puts the revision's in its place; a revision that is missing,
      foreign or of another field changes nothing. */
  lemma RestoreEffect(db: Database, id: Id, revision: Id, user: string)
    requires Valid(db)
    ensures var (db', outcome) := Handle(db, Restore(id, revision, user));
            && (outcome == Done <==> id in db.products && exists r :: RevisionOf(db, id, r) && r.id == revision)
            && (outcome != Done ==> outcome == NotFound && db' == db)
            && forall r | outcome == Done && RevisionOf(db, id, r) && r.id == revision ::
                 && OthersStay(db, db', id) && id in db'.products
                 && var p, q := db.products[id], db'.products[id];
                    if r.fieldName == "description" then
                      && q == p.(description := r.content, lastUpdatedBy := user)
                      && db'.revisions ==
                         db.revisions + [Revision(db.nextId, id, "description", p.description, user, "restore")]
                    else
                      && q == p.(documentation := r.content, lastUpdatedBy := user)
                      && db'.revisions ==
                         db.revisions + [Revision(db.nextId, id, "documentation", p.documentation, user, "restore")]
  {
    forall r | RevisionOf(db, id, r) && r.id == revision ensures FindRevision(db.revisions, revision) == Some(r) {
      FindsRevision(db.revisions, r);
    }
    FoundIsListed(db.revisions, revision);
  }

  lemma {:induction false} FoundIsListed(revisions: seq<Revision>, id: Id)
    ensures FindRevision(revisions, id).Some? ==>
              FindRevision(revisions, id).value in revisions && FindRevision(revisions, id).value.id == id
  {
    if revisions != [] { FoundIsListed(revisions[..|revisions| - 1], id); }
  }

  ghost function OfField(id: Id, field: string): Revision -> bool {
    (r: Revision) => r.productId == id && r.fieldName == field
  }

  ghost predicate ContentsOf(revisions: seq<Revision>, contents: seq<Option<string>>) {
    |contents| == |revisions| && forall i | 0 <= i < |revisions| :: contents[i] == revisions[i].content
  }

  /** A field's logged contents are those of its revisions, oldest first. */
  lemma {:induction false} LoggedMeaning(revisions: seq<Revision>, id: Id, field: string)
    ensures ContentsOf(Filter(revisions, OfField(id, field)), Logged(revisions, id, field))
  {
    if revisions != [] { LoggedMeaning(revisions[..|revisions| - 1], id, field); }
  }
}
