/**
  The event store behind the HTTP handlers of app.py: the `events` table held in
  memory as a map from id to row, the AUTOINCREMENT counter, and the seven
  operations on them. Request parsing, SQL, JSON and HTML are not modelled;
  each handler becomes a method or function taking the request's fields and
  returning the store's answer or the error status the handler sends.
 */
module Store {
  import opened Wrappers
  import opened Events
  import Text
  import Calendar

  /**
    The largest integer SQLite stores in an INTEGER column. An AUTOINCREMENT
    table that has used it cannot take new rows (SQLITE_FULL), and the sqlite3
    module refuses to bind a larger Python int as a parameter (OverflowError).
   */
  const MaxRowId: nat := 0x7FFF_FFFF_FFFF_FFFF

  /** A required text field that is present and not empty (Python's `not value` is false). */
  predicate Filled(v: Option<string>)
  {
    v.Some? && v.value != ""
  }

  /** `get('color', '#4361ee')`: the default applies only when the field is absent. */
  function ColorOrDefault(color: Option<string>): (c: string)
    ensures color.None? ==> c == DefaultColor
    ensures color.Some? ==> c == color.value
  {
    match color
    case None => DefaultColor
    case Some(c) => c
  }

  /** `event_date BETWEEN lo AND hi` on text values. */
  predicate InWindow(date: string, lo: string, hi: string)
  {
    Text.Le(lo, date) && Text.Le(date, hi)
  }

  /** InWindow on a row's date, as the condition Filter takes; contracts use InWindow itself. */
  function Between(lo: string, hi: string): Event -> bool
  {
    (e: Event) => InWindow(e.row.eventDate, lo, hi)
  }

  /**
    The upcoming window `[today, today + 7 days]` compared as ISO text holds
    exactly the dates today + 0, ..., today + 7: eight calendar days, both ends
    included.
   */
  lemma UpcomingWindowDays(today: Calendar.Date, last: Calendar.Date, e: Calendar.Date)
    requires Calendar.Valid(today) && Calendar.Valid(e) && Calendar.AddDays(today, 7) == Some(last)
    ensures InWindow(Calendar.IsoFormat(e), Calendar.IsoFormat(today), Calendar.IsoFormat(last))
        <==> exists k :: 0 <= k <= 7 && Calendar.AddDays(today, k) == Some(e)
  {
    Calendar.IsoFormatOrder(today, e);
    Calendar.IsoFormatOrder(e, last);
    Calendar.AddDaysSpan(today, 7, last, e);
  }

  /** With today 2024-01-01 the window's upper bound is 2024-01-08. */
  lemma FirstWeekOf2024Bounds()
    ensures Calendar.AddDays(Calendar.Date(2024, 1, 1), 7) == Some(Calendar.Date(2024, 1, 8))
    ensures Calendar.IsoFormat(Calendar.Date(2024, 1, 1)) == "2024-01-01"
    ensures Calendar.IsoFormat(Calendar.Date(2024, 1, 8)) == "2024-01-08"
  {
  }

  /** That window includes both 2024-01-01 and 2024-01-08, and excludes 2023-12-31 and 2024-01-09. */
  lemma FirstWeekOf2024Window()
    ensures InWindow("2024-01-01", "2024-01-01", "2024-01-08")
    ensures InWindow("2024-01-08", "2024-01-01", "2024-01-08")
    ensures !InWindow("2023-12-31", "2024-01-01", "2024-01-08")
    ensures !InWindow("2024-01-09", "2024-01-01", "2024-01-08")
  {
  }

  /**
    Stored dates are compared as text: "2024-1-5" names a day inside the week
    from 2024-01-01, but as text it sorts after "2024-01-08" and is left out.
   */
  lemma UnpaddedDateOutsideWindow()
    ensures !InWindow("2024-1-5", "2024-01-01", "2024-01-08")
  {
  }

  /** Across the end of February in a leap year (2024, and 2000, divisible by 400) the bound counts 29 February. */
  lemma LeapYearWindows()
    ensures Calendar.AddDays(Calendar.Date(2024, 2, 25), 7) == Some(Calendar.Date(2024, 3, 3))
    ensures Calendar.AddDays(Calendar.Date(2000, 2, 25), 7) == Some(Calendar.Date(2000, 3, 3))
  {
  }

  /** In a common year (2023, and 1900, divisible by 100 but not 400) February ends on the 28th. */
  lemma CommonYearWindows()
    ensures Calendar.AddDays(Calendar.Date(2023, 2, 25), 7) == Some(Calendar.Date(2023, 3, 4))
    ensures Calendar.AddDays(Calendar.Date(1900, 2, 25), 7) == Some(Calendar.Date(1900, 3, 4))
  {
  }

  /** The upper bound rolls over into the next year, and does not exist past 9999-12-31. */
  lemma YearEndWindows()
    ensures Calendar.AddDays(Calendar.Date(2024, 12, 28), 7) == Some(Calendar.Date(2025, 1, 4))
    ensures Calendar.AddDays(Calendar.Date(9999, 12, 24), 7) == Some(Calendar.LastDate)
    ensures Calendar.AddDays(Calendar.Date(9999, 12, 25), 7) == None
  {
  }

  /** The loop of `get_upcoming_events` that turns each fetched row into a `{id, event_date, description, color}` element. */
  method ToUpcomingList(rows: seq<Event>) returns (list: seq<Upcoming>)
    ensures list == UpcomingList(rows)
  {
    list := [];
    var i := 0;
    while i < |rows|
      invariant 0 <= i <= |rows|
      invariant list == UpcomingList(rows[..i])
    {
      var e := rows[i];
      list := list + [Upcoming(e.id, e.row.eventDate, e.row.description, e.row.color)];
      assert rows[..i + 1] == rows[..i] + [e];
      assert rows[..i + 1][..|rows[..i + 1]| - 1] == rows[..i];
      i := i + 1;
    }
    assert rows[..i] == rows;
  }

  class EventStore {
    /** The rows of the `events` table, by id. */
    var table: Table
    /** The largest id assigned so far: the table's entry in SQLite's `sqlite_sequence`. */
    var lastId: nat
    /** Every id assigned so far, including those of rows since deleted. */
    ghost var issued: set<nat>

    ghost predicate Valid()
      reads this
    {
      && table.Keys <= issued
      && (forall id :: id in issued ==> 1 <= id <= lastId)
      && lastId <= MaxRowId
      && (forall id :: id in table ==> table[id].eventDate != "" && table[id].description != "")
    }

    /** `init_db` on a database file that does not exist yet: an empty table. */
    constructor ()
      ensures Valid()
      ensures table == map[] && lastId == 0 && issued == {}
    {
      table := map[];
      lastId := 0;
      issued := {};
    }

    /** The whole table in scan (ascending id) order. */
    function Rows(): seq<Event>
      reads this
    {
      Scan(table, lastId)
    }

    /** The rows of `SELECT ... FROM events ORDER BY event_date`. */
    function RowsByDate(): seq<Event>
      reads this
    {
      SortBy(Rows(), DateAscending)
    }

    /** In a valid store the scan lists every row of the table once, in ascending id order. */
    lemma RowsSpec()
      requires Valid()
      ensures forall e :: e in Rows() <==> e.id in table && table[e.id] == e.row
      ensures forall i, j :: 0 <= i < j < |Rows()| ==> Rows()[i].id < Rows()[j].id
    {
      ScanSpec(table, lastId);
    }

    /** The number of rows a filtered scan returns is the number of rows of the table that match. */
    lemma RowsCount(p: Event -> bool)
      requires Valid()
      ensures |Filter(Rows(), p)| == |set id | id in table && p(Event(id, table[id]))|
    {
      FilterScanCount(table, lastId, p);
      assert IdsWhere(table, lastId, p) == set id | id in table && p(Event(id, table[id]));
    }

    /**
      `SELECT ... WHERE p ORDER BY o`: every row of the table that satisfies p,
      each once, sorted by o.
     */
    lemma SelectSpec(p: Event -> bool, o: Order)
      requires Valid()
      ensures forall e :: e in SortBy(Filter(Rows(), p), o) <==> e.id in table && table[e.id] == e.row && p(e)
      ensures |SortBy(Filter(Rows(), p), o)| == |set id | id in table && p(Event(id, table[id]))|
      ensures Sorted(SortBy(Filter(Rows(), p), o), o)
    {
      RowsSpec();
      FilterMembers(Rows(), p);
      SortByMembers(Filter(Rows(), p), o);
      SortByCorrect(Filter(Rows(), p), o);
      RowsCount(p);
    }

    /**
      `add_event`: a missing `event_date` or `description` form field raises
      KeyError, which the handler's catch-all turns into a 500; an empty one is
      a 400. Otherwise the row is inserted with the next AUTOINCREMENT id, which
      is returned. SQLite refuses the insert once the largest id has been used.
     */
    method Add(eventDate: Option<string>, description: Option<string>, color: Option<string>, now: string)
      returns (r: Response<nat>)
      requires Valid()
      modifies this
      ensures Valid()
      ensures eventDate.None? || description.None? ==> r == Err(ServerError) && unchanged(this)
      ensures eventDate.Some? && description.Some? && !(Filled(eventDate) && Filled(description)) ==>
        r == Err(BadRequest) && unchanged(this)
      ensures Filled(eventDate) && Filled(description) && old(lastId) == MaxRowId ==>
        r == Err(ServerError) && unchanged(this)
      ensures Filled(eventDate) && Filled(description) && old(lastId) < MaxRowId ==>
        && r == Ok(old(lastId) + 1)
        && r.value !in old(issued)
        && (forall id :: id in old(issued) ==> id < r.value)
        && table == old(table)[r.value := Row(eventDate.value, description.value, ColorOrDefault(color), now)]
        && lastId == r.value
        && issued == old(issued) + {r.value}
    {
      if eventDate.None? || description.None? {
        return Err(ServerError);
      }
      if eventDate.value == "" || description.value == "" {
        return Err(BadRequest);
      }
      if lastId == MaxRowId {
        return Err(ServerError);
      }
      var id := lastId + 1;
      table := table[id := Row(eventDate.value, description.value, ColorOrDefault(color), now)];
      lastId := id;
      issued := issued + {id};
      r := Ok(id);
    }

    /** `get_event_by_id`: the stored row with that id, or 404. */
    function GetById(id: nat): (r: Response<Event>)
      reads this
      ensures id > MaxRowId ==> r == Err(ServerError)
      ensures id <= MaxRowId ==> (r.Ok? <==> id in table)
      ensures id <= MaxRowId && id !in table ==> r == Err(NotFound)
      ensures r.Ok? ==> r.value.id == id && r.value.row == table[id]
    {
      if id > MaxRowId then Err(ServerError)
      else if id in table then Ok(Event(id, table[id]))
      else Err(NotFound)
    }

    /** `delete_event`: 404 when no row has that id; otherwise that row and no other is removed. */
    method Delete(id: nat) returns (r: Response<()>)
      requires Valid()
      modifies this
      ensures Valid()
      ensures id > MaxRowId ==> r == Err(ServerError) && unchanged(this)
      ensures id <= MaxRowId && id !in old(table) ==> r == Err(NotFound) && unchanged(this)
      ensures id <= MaxRowId && id in old(table) ==>
        && r == Ok(())
        && table == old(table) - {id}
        && lastId == old(lastId)
        && issued == old(issued)
    {
      if id > MaxRowId {
        return Err(ServerError);
      }
      if id !in table {
        return Err(NotFound);
      }
      table := table - {id};
      r := Ok(());
    }

    /**
      `update_event`: a missing or empty `event_date` or `description` is a 400
      before any lookup; an id with no row is a 404; otherwise the row's date,
      description and colour are overwritten and its `created_at` kept.
     */
    method Update(id: nat, eventDate: Option<string>, description: Option<string>, color: Option<string>)
      returns (r: Response<()>)
      requires Valid()
      modifies this
      ensures Valid()
      ensures !(Filled(eventDate) && Filled(description)) ==> r == Err(BadRequest) && unchanged(this)
      ensures Filled(eventDate) && Filled(description) && id > MaxRowId ==> r == Err(ServerError) && unchanged(this)
      ensures Filled(eventDate) && Filled(description) && id <= MaxRowId && id !in old(table) ==>
        r == Err(NotFound) && unchanged(this)
      ensures Filled(eventDate) && Filled(description) && id <= MaxRowId && id in old(table) ==>
        && r == Ok(())
        && table == old(table)[id := Row(eventDate.value, description.value, ColorOrDefault(color), old(table)[id].createdAt)]
        && lastId == old(lastId)
        && issued == old(issued)
    {
      if !Filled(eventDate) || !Filled(description) {
        return Err(BadRequest);
      }
      if id > MaxRowId {
        return Err(ServerError);
      }
      if id !in table {
        return Err(NotFound);
      }
      table := table[id := Row(eventDate.value, description.value, ColorOrDefault(color), table[id].createdAt)];
      r := Ok(());
    }

    /**
      `view_event`: the rows of the given date, most recently created first; a
      missing or empty date is a 400, and no matching row is an empty list (the
      handler's empty-state page), not an error.
     */
    function View(date: Option<string>): (r: Response<seq<Event>>)
      reads this
      requires Valid()
      ensures r.Err? <==> !Filled(date)
      ensures r.Err? ==> r.status == BadRequest
      ensures r.Ok? ==> forall e :: e in r.value <==> e.id in table && table[e.id] == e.row && e.row.eventDate == date.value
      ensures r.Ok? ==> |r.value| == |set id | id in table && table[id].eventDate == date.value|
      ensures r.Ok? ==> Sorted(r.value, CreatedDescending)
    {
      if !Filled(date) then Err(BadRequest)
      else
        SelectSpec(OnDate(date.value), CreatedDescending);
        assert (set id | id in table && OnDate(date.value)(Event(id, table[id])))
            == (set id | id in table && table[id].eventDate == date.value);
        Ok(SortBy(Filter(Rows(), OnDate(date.value)), CreatedDescending))
    }

    /**
      `get_all_events`: the rows sorted by date, gathered into a dictionary
      from each date to the `{description, color}` entries of that date.
     */
    method AllEvents() returns (groups: map<string, seq<Entry>>)
      requires Valid()
      ensures groups == GroupByDate(RowsByDate())
      ensures forall d :: d in groups <==> exists id :: id in table && table[id].eventDate == d
      ensures forall d :: d in groups ==> groups[d] != [] && groups[d] == Entries(Filter(RowsByDate(), OnDate(d)))
    {
      var rows := RowsByDate();
      groups := map[];
      var i := 0;
      while i < |rows|
        invariant 0 <= i <= |rows|
        invariant groups == GroupByDate(rows[..i])
      {
        var e := rows[i];
        var d := e.row.eventDate;
        if d !in groups {
          groups := groups[d := []];
        }
        groups := groups[d := groups[d] + [Entry(e.row.description, e.row.color)]];
        assert rows[..i + 1] == rows[..i] + [e];
        GroupByDateSnoc(rows[..i], e);
        i := i + 1;
      }
      assert rows[..i] == rows;
      GroupByDateKeys(rows);
      GroupByDateGroups(rows);
      GroupByDateNonEmpty(rows);
      RowsSpec();
      SortByMembers(Rows(), DateAscending);
      forall d | d in groups
        ensures exists id :: id in table && table[id].eventDate == d
      {
        var e :| e in rows && e.row.eventDate == d;
        assert e.id in table && table[e.id].eventDate == d;
      }
      forall d | exists id :: id in table && table[id].eventDate == d
        ensures d in groups
      {
        var id :| id in table && table[id].eventDate == d;
        assert Event(id, table[id]) in rows;
      }
    }

    /**
      Each date group of `get_all_events` holds the stored rows of that date,
      each once, whatever order the sort leaves rows of equal date in.
     */
    lemma DateGroupIsStoredRows(d: string)
      requires Valid()
      ensures multiset(Filter(RowsByDate(), OnDate(d))) == multiset(Filter(Rows(), OnDate(d)))
      ensures forall e :: e in Filter(RowsByDate(), OnDate(d)) <==> e.id in table && table[e.id] == e.row && e.row.eventDate == d
    {
      SortByCorrect(Rows(), DateAscending);
      FilterPermutation(RowsByDate(), Rows(), OnDate(d));
      SortByMembers(Rows(), DateAscending);
      RowsSpec();
      FilterMembers(RowsByDate(), OnDate(d));
    }

    /**
      `get_upcoming_events` on the given day: the rows whose date text lies
      between today and today + 7 days in ISO form, both included, sorted by
      date. When today + 7 days is past 9999-12-31 the date arithmetic raises
      OverflowError and the request fails with 500.
     */
    method UpcomingEvents(today: Calendar.Date) returns (r: Response<seq<Upcoming>>)
      requires Valid() && Calendar.Valid(today)
      ensures Calendar.AddDays(today, 7).None? <==> r.Err?
      ensures r.Err? ==> r.status == ServerError
      ensures r.Ok? ==>
        var lo, hi := Calendar.IsoFormat(today), Calendar.IsoFormat(Calendar.AddDays(today, 7).value);
        && |r.value| == |set id | id in table && InWindow(table[id].eventDate, lo, hi)|
        && (forall i :: 0 <= i < |r.value| ==>
              var u := r.value[i];
              u.id in table && u == UpcomingOf(Event(u.id, table[u.id])) && InWindow(u.eventDate, lo, hi))
        && (forall id :: id in table && InWindow(table[id].eventDate, lo, hi) ==>
              exists i :: 0 <= i < |r.value| && r.value[i].id == id)
        && (forall i, j :: 0 <= i < j < |r.value| ==> Text.Le(r.value[i].eventDate, r.value[j].eventDate))
    {
      var next := Calendar.AddDays(today, 7);
      if next.None? {
        return Err(ServerError);
      }
      var lo, hi := Calendar.IsoFormat(today), Calendar.IsoFormat(next.value);
      var rows := SortBy(Filter(Rows(), Between(lo, hi)), DateAscending);
      var list := ToUpcomingList(rows);
      r := Ok(list);
      UpcomingSpec(lo, hi, rows, list);
    }

    /** What the upcoming list is, given that it lists the sorted rows of the window. */
    lemma UpcomingSpec(lo: string, hi: string, rows: seq<Event>, list: seq<Upcoming>)
      requires Valid()
      requires rows == SortBy(Filter(Rows(), Between(lo, hi)), DateAscending)
      requires list == UpcomingList(rows)
      ensures |list| == |set id | id in table && InWindow(table[id].eventDate, lo, hi)|
      ensures forall i :: 0 <= i < |list| ==>
        list[i].id in table && list[i] == UpcomingOf(Event(list[i].id, table[list[i].id])) && InWindow(list[i].eventDate, lo, hi)
      ensures forall id :: id in table && InWindow(table[id].eventDate, lo, hi) ==>
        exists i :: 0 <= i < |list| && list[i].id == id
      ensures forall i, j :: 0 <= i < j < |list| ==> Text.Le(list[i].eventDate, list[j].eventDate)
    {
      SelectSpec(Between(lo, hi), DateAscending);
      assert (set id | id in table && Between(lo, hi)(Event(id, table[id])))
          == (set id | id in table && InWindow(table[id].eventDate, lo, hi));
      forall i | 0 <= i < |list|
        ensures list[i].id in table && list[i] == UpcomingOf(Event(list[i].id, table[list[i].id]))
        ensures InWindow(list[i].eventDate, lo, hi)
      {
        UpcomingListAt(rows, i);
        assert rows[i] in rows;
      }
      forall id | id in table && InWindow(table[id].eventDate, lo, hi)
        ensures exists i :: 0 <= i < |list| && list[i].id == id
      {
        var e := Event(id, table[id]);
        assert e in rows;
        var i :| 0 <= i < |rows| && rows[i] == e;
        UpcomingListAt(rows, i);
      }
      forall i, j | 0 <= i < j < |list|
        ensures Text.Le(list[i].eventDate, list[j].eventDate)
      {
        UpcomingListAt(rows, i);
        UpcomingListAt(rows, j);
      }
    }
  }
}
