/** The service methods that change data products. Each works on the session's copy of the database,
    commits it, and only then clears the product list cache; a constraint violation at a flush or
    commit rolls the session back. */
module ProductService {
  import opened Sequences
  import opened ProductStore

  class DataProductService {
    var db: Database
    /** How often the product list cache has been cleared. */
    var cacheClears: nat

    constructor ()
      ensures Valid(db) && db.products == map[] && cacheClears == 0
    {
      db, cacheClears := Database(map[], [], 0), 0;
    }

    method CreateProduct(product: Product) returns (outcome: Outcome)
      modifies this
      ensures (db, outcome) == Handle(old(db), Create(product))
      ensures cacheClears == old(cacheClears) + if outcome == Done then 1 else 0
    {
      if NameTaken(db, db.nextId, product.name) { return DuplicateName; }
      var tables := Dedupe(product.tables);
      var row := product.(tables := tables, lastUpdatedBy := product.createdBy);
      db := db.(products := db.products[db.nextId := row], nextId := db.nextId + 1);
      cacheClears := cacheClears + 1;
      return Done;
    }

    method UpdateProductMetadata(id: Id, patch: Patch, user: string) returns (outcome: Outcome)
      modifies this
      ensures (db, outcome) == Handle(old(db), Update(id, patch, user))
      ensures cacheClears == old(cacheClears) + if outcome == Done then 1 else 0
    {
      if id !in db.products { return NotFound; }
      var session := db;
      for i := 0 to |RESTORABLE_FIELDS|
        invariant session.products == db.products
        invariant session == if i == 0 then db
                             else if i == 1 then Snapshot(db, id, patch, "description", user)
                             else Snapshot(Snapshot(db, id, patch, "description", user), id, patch,
                                           "documentation", user)
      {
        var field := RESTORABLE_FIELDS[i];
        if Asked(patch, field).Some? && Asked(patch, field).value != Content(session.products[id], field) {
          session := AddRevision(session, id, field, user, "user");
        }
      }
      session := UpdateMetadata(session, id, patch, user);
      assert forall other | other != id ::
        (other in session.products <==> other in db.products) &&
        (other in db.products ==> session.products[other] == db.products[other]);
      if NameTaken(session, id, session.products[id].name) {
        return DuplicateName;
      }
      db, cacheClears := session, cacheClears + 1;
      return Done;
    }

    /** `update_metadata`: assign what the request names, an empty name excepted. */
    static method UpdateMetadata(session: Database, id: Id, patch: Patch, user: string) returns (after: Database)
      requires id in session.products
      ensures after == session.(products := session.products[id := Patched(session.products[id], patch, user)])
    {
      var product := session.products[id];
      if patch.name.Some? && patch.name.value.Some? && patch.name.value.value != "" {
        product := product.(name := patch.name.value.value);
      }
      if patch.description.Some? { product := product.(description := patch.description.value); }
      if patch.documentation.Some? { product := product.(documentation := patch.documentation.value); }
      if patch.scheduleType.Some? { product := product.(scheduleType := patch.scheduleType.value); }
      product := product.(lastUpdatedBy := user);
      after := session.(products := session.products[id := product]);
    }

    method SetProductTables(id: Id, tables: seq<string>, user: string) returns (outcome: Outcome)
      modifies this
      ensures (db, outcome) == Handle(old(db), SetTables(id, tables, user))
      ensures cacheClears == old(cacheClears) + if outcome == Done then 1 else 0
    {
      if id !in db.products { return NotFound; }
      var deduped := Dedupe(tables);
      var product := db.products[id].(tables := deduped).(lastUpdatedBy := user);
      db, cacheClears := db.(products := db.products[id := product]), cacheClears + 1;
      return Done;
    }

    method DeleteProduct(id: Id) returns (outcome: Outcome)
      modifies this
      ensures (db, outcome) == Handle(old(db), Delete(id))
      ensures cacheClears == old(cacheClears) + if outcome == Done then 1 else 0
    {
      if id !in db.products { return NotFound; }
      db := db.(products := db.products - {id}, revisions := WithoutProduct(db.revisions, id));
      cacheClears := cacheClears + 1;
      return Done;
    }

    method RestoreRevision(id: Id, revisionId: Id, user: string) returns (outcome: Outcome)
      modifies this
      ensures (db, outcome) == Handle(old(db), Restore(id, revisionId, user))
      ensures cacheClears == old(cacheClears) + if outcome == Done then 1 else 0
    {
      if id !in db.products { return NotFound; }
      var revision := FindRevision(db.revisions, revisionId);
      if revision == None || revision.value.productId != id { return NotFound; }
      var field, content := revision.value.fieldName, revision.value.content;
      if field !in RESTORABLE_FIELDS { return NotFound; }
      var session := AddRevision(db, id, field, user, "restore");
      session := UpdateMetadata(session, id, OneField(field, content), user);
      db, cacheClears := session, cacheClears + 1;
      return Done;
    }

    static function OneField(field: string, content: Option<string>): Patch {
      if field == "description" then Patch(None, Some(content), None, None) else Patch(None, None, Some(content), None)
    }
  }
}
