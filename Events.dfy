/**
  The rows of the `events` table and the pure parts of the queries run against
  it: the scan of the table in rowid order, the WHERE filters, the ORDER BY
  sorts, and the grouping of rows by date that `get_all_events` builds.
 */
module Events {
  import Text

  /** The default of the `color` column and of the `color` request field. */
  const DefaultColor := "#4361ee"

  /** The columns of one row besides its key `id`. */
  datatype Row = Row(eventDate: string, description: string, color: string, createdAt: string)

  /** A row together with its key, as `SELECT id, ...` returns it. */
  datatype Event = Event(id: nat, row: Row)

  /** The table: AUTOINCREMENT key to row. */
  type Table = map<nat, Row>

  /** One entry of a date group in `get_all_events`: `{description, color}`. */
  datatype Entry = Entry(description: string, color: string)

  /** One element of the `get_upcoming_events` list: `{id, event_date, description, color}`. */
  datatype Upcoming = Upcoming(id: nat, eventDate: string, description: string, color: string)

  /**
    The error statuses of the responses: 400 (BadRequest), 404 (NotFound) and
    500 (ServerError), the last for an exception the inputs determine.
   */
  datatype Status = BadRequest | NotFound | ServerError

  /** What a handler answers: a value, or an error status. */
  datatype Response<T> = Ok(value: T) | Err(status: Status)

  /**
    The rows with ids 1..n in ascending id order, which is the order in which
    SQLite scans a rowid table when a query does not impose another.
   */
  function Scan(t: Table, n: nat): seq<Event>
  {
    if n == 0 then []
    else Scan(t, n - 1) + (if n in t then [Event(n, t[n])] else [])
  }

  /** The scan lists exactly the rows with ids 1..n, each once, in ascending id order. */
  lemma {:induction false} ScanSpec(t: Table, n: nat)
    ensures forall e :: e in Scan(t, n) <==> 1 <= e.id <= n && e.id in t && t[e.id] == e.row
    ensures forall i, j :: 0 <= i < j < |Scan(t, n)| ==> Scan(t, n)[i].id < Scan(t, n)[j].id
  {
    if n > 0 {
      ScanSpec(t, n - 1);
    }
  }

  /** The elements of s that satisfy p, in the order of s (a WHERE clause). */
  function Filter(s: seq<Event>, p: Event -> bool): (r: seq<Event>)
  {
    if s == [] then []
    else Filter(s[..|s| - 1], p) + (if p(s[|s| - 1]) then [s[|s| - 1]] else [])
  }

  lemma {:induction false} FilterMembers(s: seq<Event>, p: Event -> bool)
    ensures forall e :: e in Filter(s, p) <==> e in s && p(e)
  {
    if s != [] {
      FilterMembers(s[..|s| - 1], p);
      assert s == s[..|s| - 1] + [s[|s| - 1]];
    }
  }

  /** Filtering keeps each satisfying element as often as it occurs and drops the others. */
  lemma {:induction false} FilterCounts(s: seq<Event>, p: Event -> bool, e: Event)
    ensures multiset(Filter(s, p))[e] == if p(e) then multiset(s)[e] else 0
  {
    if s != [] {
      FilterCounts(s[..|s| - 1], p, e);
      assert s == s[..|s| - 1] + [s[|s| - 1]];
    }
  }

  /** Filtering two permutations of one another gives permutations of one another. */
  lemma FilterPermutation(s: seq<Event>, t: seq<Event>, p: Event -> bool)
    requires multiset(s) == multiset(t)
    ensures multiset(Filter(s, p)) == multiset(Filter(t, p))
  {
    forall e | true
      ensures multiset(Filter(s, p))[e] == multiset(Filter(t, p))[e]
    {
      FilterCounts(s, p, e);
      FilterCounts(t, p, e);
    }
  }

  /** The ids of the rows with ids 1..n that satisfy p. */
  ghost function IdsWhere(t: Table, n: nat, p: Event -> bool): set<nat>
  {
    set id: nat | 1 <= id <= n && id in t && p(Event(id, t[id]))
  }

  /** A filtered scan holds one element per matching row: its length is the number of matching ids. */
  lemma {:induction false} FilterScanCount(t: Table, n: nat, p: Event -> bool)
    ensures |Filter(Scan(t, n), p)| == |IdsWhere(t, n, p)|
  {
    if n > 0 {
      FilterScanCount(t, n - 1, p);
      var last := if n in t then [Event(n, t[n])] else [];
      assert Scan(t, n) == Scan(t, n - 1) + last;
      if n in t {
        FilterSnoc(Scan(t, n - 1), Event(n, t[n]), p);
      } else {
        assert Scan(t, n - 1) + last == Scan(t, n - 1);
      }
      IdsWhereStep(t, n, p);
    }
  }

  lemma FilterSnoc(s: seq<Event>, x: Event, p: Event -> bool)
    ensures Filter(s + [x], p) == Filter(s, p) + (if p(x) then [x] else [])
  {
    assert (s + [x])[..|s + [x]| - 1] == s;
  }

  lemma IdsWhereStep(t: Table, n: nat, p: Event -> bool)
    requires n > 0
    ensures n in t && p(Event(n, t[n])) ==> IdsWhere(t, n, p) == IdsWhere(t, n - 1, p) + {n} && n !in IdsWhere(t, n - 1, p)
    ensures !(n in t && p(Event(n, t[n]))) ==> IdsWhere(t, n, p) == IdsWhere(t, n - 1, p)
  {
  }

  /** The two orders the queries sort by. */
  datatype Order =
    | DateAscending      // ORDER BY event_date
    | CreatedDescending  // ORDER BY created_at DESC

  /** a may come before b in order o. */
  predicate InOrder(a: Event, b: Event, o: Order)
  {
    match o
    case DateAscending => Text.Le(a.row.eventDate, b.row.eventDate)
    case CreatedDescending => Text.Le(b.row.createdAt, a.row.createdAt)
  }

  predicate Sorted(s: seq<Event>, o: Order)
  {
    forall i, j :: 0 <= i < j < |s| ==> InOrder(s[i], s[j], o)
  }

  lemma InOrderTotal(a: Event, b: Event, o: Order)
    ensures InOrder(a, b, o) || InOrder(b, a, o)
  {
    match o
    case DateAscending => Text.LeTotal(a.row.eventDate, b.row.eventDate);
    case CreatedDescending => Text.LeTotal(a.row.createdAt, b.row.createdAt);
  }

  lemma InOrderTransitive(a: Event, b: Event, c: Event, o: Order)
    requires InOrder(a, b, o) && InOrder(b, c, o)
    ensures InOrder(a, c, o)
  {
    match o
    case DateAscending => Text.LeTransitive(a.row.eventDate, b.row.eventDate, c.row.eventDate);
    case CreatedDescending => Text.LeTransitive(c.row.createdAt, b.row.createdAt, a.row.createdAt);
  }

  /** Inserts x before the first element it may precede. */
  function Insert(x: Event, s: seq<Event>, o: Order): seq<Event>
  {
    if s == [] then [x]
    else if InOrder(x, s[0], o) then [x] + s
    else [s[0]] + Insert(x, s[1..], o)
  }

  lemma {:induction false} InsertPermutes(x: Event, s: seq<Event>, o: Order)
    ensures multiset(Insert(x, s, o)) == multiset(s) + multiset{x}
  {
    if s != [] && !InOrder(x, s[0], o) {
      InsertPermutes(x, s[1..], o);
      assert s == [s[0]] + s[1..];
    }
  }

  lemma {:induction false} InsertSorted(x: Event, s: seq<Event>, o: Order)
    requires Sorted(s, o)
    ensures Sorted(Insert(x, s, o), o)
  {
    if s == [] {
    } else if InOrder(x, s[0], o) {
      var r := [x] + s;
      forall i, j | 0 <= i < j < |r| ensures InOrder(r[i], r[j], o) {
        if i == 0 && j > 1 {
          InOrderTransitive(x, s[0], s[j - 1], o);
        }
      }
    } else {
      var rest := Insert(x, s[1..], o);
      InsertSorted(x, s[1..], o);
      InsertPermutes(x, s[1..], o);
      InOrderTotal(x, s[0], o);
      var r := [s[0]] + rest;
      forall i, j | 0 <= i < j < |r| ensures InOrder(r[i], r[j], o) {
        if i == 0 {
          var y := rest[j - 1];
          assert y in multiset(rest);
          assert y == x || y in s[1..];
        }
      }
    }
  }

  /**
    A stable insertion sort. SQL leaves the order of rows with equal sort keys
    open; this model keeps them in scan order.
   */
  function SortBy(s: seq<Event>, o: Order): seq<Event>
  {
    if s == [] then [] else Insert(s[0], SortBy(s[1..], o), o)
  }

  /** The sorted sequence is ordered by o and is a permutation of its input. */
  lemma {:induction false} SortByCorrect(s: seq<Event>, o: Order)
    ensures Sorted(SortBy(s, o), o)
    ensures multiset(SortBy(s, o)) == multiset(s)
  {
    if s != [] {
      SortByCorrect(s[1..], o);
      InsertSorted(s[0], SortBy(s[1..], o), o);
      InsertPermutes(s[0], SortBy(s[1..], o), o);
      assert s == [s[0]] + s[1..];
    }
  }

  /** Sorting keeps the elements and the length. */
  lemma SortByMembers(s: seq<Event>, o: Order)
    ensures |SortBy(s, o)| == |s|
    ensures forall e :: e in SortBy(s, o) <==> e in s
  {
    SortByCorrect(s, o);
    assert |SortBy(s, o)| == |multiset(SortBy(s, o))|;
    forall e
      ensures e in SortBy(s, o) <==> e in s
    {
      assert e in SortBy(s, o) <==> e in multiset(SortBy(s, o));
      assert e in s <==> e in multiset(s);
    }
  }

  function EntryOf(e: Event): Entry
  {
    Entry(e.row.description, e.row.color)
  }

  /** The `{description, color}` entries of s, in the order of s. */
  function Entries(s: seq<Event>): (r: seq<Entry>)
    ensures |r| == |s|
  {
    if s == [] then [] else Entries(s[..|s| - 1]) + [EntryOf(s[|s| - 1])]
  }

  function UpcomingOf(e: Event): Upcoming
  {
    Upcoming(e.id, e.row.eventDate, e.row.description, e.row.color)
  }

  /** The `{id, event_date, description, color}` elements of s, in the order of s. */
  function UpcomingList(s: seq<Event>): (r: seq<Upcoming>)
    ensures |r| == |s|
  {
    if s == [] then [] else UpcomingList(s[..|s| - 1]) + [UpcomingOf(s[|s| - 1])]
  }

  lemma {:induction false} UpcomingListAt(s: seq<Event>, i: int)
    requires 0 <= i < |s|
    ensures UpcomingList(s)[i] == UpcomingOf(s[i])
  {
    if i < |s| - 1 {
      UpcomingListAt(s[..|s| - 1], i);
    }
  }

  /**
    `WHERE event_date = date` as the condition Filter takes. Contracts about
    the table state the same condition directly on its rows.
   */
  function OnDate(date: string): Event -> bool
  {
    (e: Event) => e.row.eventDate == date
  }

  /**
    The dictionary `get_all_events` builds from the rows s: for each row in turn,
    the group of its date is created if missing and the row's entry appended.
   */
  function GroupByDate(s: seq<Event>): map<string, seq<Entry>>
  {
    if s == [] then map[]
    else
      var g := GroupByDate(s[..|s| - 1]);
      var e := s[|s| - 1];
      var d := e.row.eventDate;
      g[d := (if d in g then g[d] else []) + [EntryOf(e)]]
  }

  /** Grouping one more row extends only the group of that row's date. */
  lemma GroupByDateSnoc(s: seq<Event>, e: Event)
    ensures var g := GroupByDate(s); var d := e.row.eventDate;
      GroupByDate(s + [e]) == g[d := (if d in g then g[d] else []) + [EntryOf(e)]]
  {
    assert (s + [e])[..|s + [e]| - 1] == s;
  }

  lemma EntriesSnoc(s: seq<Event>, e: Event)
    ensures Entries(s + [e]) == Entries(s) + [EntryOf(e)]
  {
    assert (s + [e])[..|s + [e]| - 1] == s;
  }

  /** The groups are keyed by exactly the dates of the rows. */
  lemma {:induction false} GroupByDateKeys(s: seq<Event>)
    ensures forall d :: d in GroupByDate(s) <==> exists e :: e in s && e.row.eventDate == d
  {
    if s != [] {
      var init, e := s[..|s| - 1], s[|s| - 1];
      assert s == init + [e];
      GroupByDateKeys(init);
      GroupByDateSnoc(init, e);
    }
  }

  /**
    Every row is listed once, under its own date: the group of date d lists the
    entries of the rows of date d in input order.
   */
  lemma {:induction false} GroupByDateGroup(s: seq<Event>, d: string)
    requires d in GroupByDate(s)
    ensures GroupByDate(s)[d] == Entries(Filter(s, OnDate(d)))
  {
    var init, e := s[..|s| - 1], s[|s| - 1];
    assert s == init + [e];
    GroupByDateSnoc(init, e);
    FilterSnoc(init, e, OnDate(d));
    if d == e.row.eventDate {
      EntriesSnoc(Filter(init, OnDate(d)), e);
      if d in GroupByDate(init) {
        GroupByDateGroup(init, d);
      } else {
        GroupByDateKeys(init);
        FilterMembers(init, OnDate(d));
        assert Filter(init, OnDate(d)) == [];
      }
    } else {
      assert !OnDate(d)(e);
      assert Filter(s, OnDate(d)) == Filter(init, OnDate(d));
      GroupByDateGroup(init, d);
    }
  }

  lemma GroupByDateGroups(s: seq<Event>)
    ensures forall d :: d in GroupByDate(s) ==> GroupByDate(s)[d] == Entries(Filter(s, OnDate(d)))
  {
    forall d | d in GroupByDate(s)
      ensures GroupByDate(s)[d] == Entries(Filter(s, OnDate(d)))
    {
      GroupByDateGroup(s, d);
    }
  }

  /** No group is empty. */
  lemma GroupByDateNonEmpty(s: seq<Event>)
    ensures forall d :: d in GroupByDate(s) ==> GroupByDate(s)[d] != []
  {
    GroupByDateKeys(s);
    GroupByDateGroups(s);
    forall d | d in GroupByDate(s)
      ensures GroupByDate(s)[d] != []
    {
      var e :| e in s && e.row.eventDate == d;
      FilterMembers(s, OnDate(d));
      assert e in Filter(s, OnDate(d));
    }
  }
}
