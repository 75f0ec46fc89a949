/**
  Sequences of requests against one store, and what the operations' contracts
  alone let a client conclude about them.
 */
module Scenarios {
  import opened Wrappers
  import opened Events
  import opened Store

  /**
    POST /add with date 2024-03-15 and description "Meeting" and no colour,
    then GET /api/events/{id} with the returned id: the row comes back with
    the default colour.
   */
  method AddThenFetch(store: EventStore, now: string) returns (added: Response<nat>, fetched: Response<Event>)
    requires store.Valid() && store.lastId < MaxRowId
    modifies store
    ensures added.Ok?
    ensures fetched == Ok(Event(added.value, Row("2024-03-15", "Meeting", DefaultColor, now)))
  {
    added := store.Add(Some("2024-03-15"), Some("Meeting"), None, now);
    fetched := store.GetById(added.value);
  }

  /** An explicitly empty colour is stored as the empty text, not replaced by the default. */
  method AddWithEmptyColor(store: EventStore, now: string) returns (added: Response<nat>, fetched: Response<Event>)
    requires store.Valid() && store.lastId < MaxRowId
    modifies store
    ensures added.Ok? && fetched.Ok? && fetched.value.row.color == ""
  {
    added := store.Add(Some("2024-03-15"), Some("Meeting"), Some(""), now);
    fetched := store.GetById(added.value);
  }

  /**
    DELETE /delete/{id} twice: the second request finds no row and answers
    404, whether or not the first one removed a row; GET on the id is 404 too.
   */
  method DeleteTwice(store: EventStore, id: nat) returns (first: Response<()>, second: Response<()>)
    requires store.Valid() && id <= MaxRowId
    modifies store
    ensures first.Ok? <==> id in old(store.table)
    ensures second == Err(NotFound)
    ensures store.GetById(id) == Err(NotFound)
  {
    first := store.Delete(id);
    second := store.Delete(id);
  }

  /** An id is not handed out again after its row is deleted: the next add gets a larger one. */
  method DeletedIdNotReused(store: EventStore, now: string) returns (a: Response<nat>, b: Response<nat>)
    requires store.Valid() && store.lastId + 1 < MaxRowId
    modifies store
    ensures a.Ok? && b.Ok? && a.value < b.value
    ensures a.value !in store.table && b.value in store.table
  {
    a := store.Add(Some("2024-03-15"), Some("Meeting"), None, now);
    var _ := store.Delete(a.value);
    b := store.Add(Some("2024-03-15"), Some("Meeting"), None, now);
  }

  /** PUT /update on a row keeps its creation time; on a missing id it is 404 and changes nothing. */
  method UpdateKeepsCreatedAt(store: EventStore, id: nat) returns (r: Response<()>)
    requires store.Valid() && id <= MaxRowId
    modifies store
    ensures id in old(store.table) ==>
      r.Ok? && store.GetById(id) == Ok(Event(id, Row("2024-03-16", "Moved", DefaultColor, old(store.table)[id].createdAt)))
    ensures id !in old(store.table) ==> r == Err(NotFound) && store.table == old(store.table)
  {
    r := store.Update(id, Some("2024-03-16"), Some("Moved"), None);
  }
}
