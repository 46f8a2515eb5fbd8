/** The read side of `utils.py`: each query is a `find` filter over the
    collection (in its natural order), sorted by `fecha_hora` where the
    source asks for `.sort("fecha_hora", 1)`. A datetime the source cannot
    construct (ValueError, OverflowError) makes the query None. */
module Queries {

  import opened Wrappers
  import opened Calendar
  import opened Tasks

  /** The documents of `docs` that satisfy `p`, in their order. */
  function Select(docs: seq<Entry>, p: Entry -> bool): (r: seq<Entry>)
    ensures ExactlyMatching(r, docs, p)
    ensures IsSubsequence(r, docs)
  {
    if docs == [] then []
    else
      assert docs == [docs[0]] + docs[1..];
      var rest := Select(docs[1..], p);
      if p(docs[0]) then
        assert ([docs[0]] + rest)[1..] == rest;
        [docs[0]] + rest
      else rest
  }

  predicate SortedByFechaHora(s: seq<Entry>) {
    forall i, j :: 0 <= i < j < |s| ==> NotAfter(s[i].task.fechaHora, s[j].task.fechaHora)
  }

  /** An element no later than the head of a sorted list is no later than all of it. */
  lemma BelowHead(e: Entry, s: seq<Entry>)
    requires SortedByFechaHora(s) && s != []
    requires NotAfter(e.task.fechaHora, s[0].task.fechaHora)
    ensures SortedByFechaHora([e] + s)
  {
    forall j | 0 <= j < |s| ensures NotAfter(e.task.fechaHora, s[j].task.fechaHora) {
      NotAfterTransitive(e.task.fechaHora, s[0].task.fechaHora, s[j].task.fechaHora);
    }
  }

  /** Putting back the head of a sorted list in front of a sorted
      permutation of its tail plus a later element keeps it sorted. */
  lemma HeadBeforeRest(s: seq<Entry>, e: Entry, rest: seq<Entry>)
    requires SortedByFechaHora(s) && s != []
    requires Before(s[0].task.fechaHora, e.task.fechaHora)
    requires SortedByFechaHora(rest) && multiset(rest) == multiset(s[1..]) + multiset{e}
    ensures SortedByFechaHora([s[0]] + rest)
    ensures multiset([s[0]] + rest) == multiset(s) + multiset{e}
  {
    forall x | x in rest ensures NotAfter(s[0].task.fechaHora, x.task.fechaHora) {
      assert x in multiset(rest);
      if x != e {
        assert x in multiset(s[1..]);
        var k :| 0 <= k < |s[1..]| && s[1..][k] == x;
        assert s[k + 1] == x;
      }
    }
    assert s == [s[0]] + s[1..];
  }

  function Insert(e: Entry, s: seq<Entry>): (r: seq<Entry>)
    requires SortedByFechaHora(s)
    ensures SortedByFechaHora(r)
    ensures multiset(r) == multiset(s) + multiset{e}
  {
    if s == [] then [e]
    else if NotAfter(e.task.fechaHora, s[0].task.fechaHora) then
      BelowHead(e, s);
      [e] + s
    else
      var rest := Insert(e, s[1..]);
      HeadBeforeRest(s, e, rest);
      [s[0]] + rest
  }

  /** An ascending sort on `fecha_hora`: a sorted permutation of its input. */
  function SortByFechaHora(s: seq<Entry>): (r: seq<Entry>)
    ensures SortedByFechaHora(r)
    ensures multiset(r) == multiset(s)
  {
    if s == [] then []
    else
      assert s == [s[0]] + s[1..];
      Insert(s[0], SortByFechaHora(s[1..]))
  }

  predicate AllWellFormed(docs: seq<Entry>) {
    forall x :: x in docs ==> WellFormed(x.task)
  }

  /** A result that holds each document of `docs` satisfying `p`, as many
      times as `docs` does, and nothing else. */
  ghost predicate ExactlyMatching(r: seq<Entry>, docs: seq<Entry>, p: Entry -> bool) {
    forall x :: multiset(r)[x] == if p(x) then multiset(docs)[x] else 0
  }

  // ---------------------------------------------------------------------
  // get_month_tasks

  function InHalfOpen(t: DateTime, lo: DateTime, hi: DateTime): bool {
    NotAfter(lo, t) && Before(t, hi)
  }

  /** `get_month_tasks(year, month)`, in natural order. */
  function MonthTasks(docs: seq<Entry>, year: int, month: int): (r: Option<seq<Entry>>)
    ensures r.Some? <==> MIN_YEAR <= year <= MAX_YEAR && 1 <= month <= 12 && !(year == MAX_YEAR && month == 12)
  {
    match MonthBounds(year, month)
    case None => None
    case Some((lo, hi)) => Some(Select(docs, (x: Entry) => InHalfOpen(x.task.fechaHora, lo, hi)))
  }

  predicate InMonth(x: Entry, year: int, month: int) {
    x.task.fechaHora.date.year == year && x.task.fechaHora.date.month == month
  }

  /** The month query returns exactly those tasks due in that calendar month
      (December's window ending at January 1 of the next year). */
  lemma MonthTasksExact(docs: seq<Entry>, year: int, month: int)
    requires AllWellFormed(docs)
    requires MonthTasks(docs, year, month).Some?
    ensures ExactlyMatching(MonthTasks(docs, year, month).value, docs, (x: Entry) => InMonth(x, year, month))
  {
    var (lo, hi) := MonthBounds(year, month).value;
    var r := MonthTasks(docs, year, month).value;
    forall x: Entry ensures multiset(r)[x] == if InMonth(x, year, month) then multiset(docs)[x] else 0 {
      if x in docs {
        MonthWindow(year, month, x.task.fechaHora);
      }
    }
  }

  // ---------------------------------------------------------------------
  // get_day_tasks

  /** `get_day_tasks(year, month, day)`, ascending by `fecha_hora`. */
  function DayTasks(docs: seq<Entry>, year: int, month: int, day: int): (r: Option<seq<Entry>>)
    ensures r.Some? <==> ValidDate(Date(year, month, day)) && !(year == MAX_YEAR && month == 12 && day == 31)
    ensures r.Some? ==> SortedByFechaHora(r.value)
  {
    var date := Date(year, month, day);
    if !ValidDate(date) then None
    else
      var next := NextDay(date);
      if next.year > MAX_YEAR then None
      else Some(SortByFechaHora(Select(docs, (x: Entry) => InHalfOpen(x.task.fechaHora, StartOfDay(date), StartOfDay(next)))))
  }

  /** The day query returns, sorted, exactly those tasks due on that date. */
  lemma DayTasksExact(docs: seq<Entry>, year: int, month: int, day: int)
    requires AllWellFormed(docs)
    requires DayTasks(docs, year, month, day).Some?
    ensures ExactlyMatching(DayTasks(docs, year, month, day).value, docs,
                            (x: Entry) => x.task.fechaHora.date == Date(year, month, day))
  {
    var date := Date(year, month, day);
    var r := DayTasks(docs, year, month, day).value;
    forall x: Entry ensures multiset(r)[x] == if x.task.fechaHora.date == date then multiset(docs)[x] else 0 {
      if x in docs {
        DayWindow(date, x.task.fechaHora);
      }
    }
  }

  // ---------------------------------------------------------------------
  // get_pending_admin_tasks

  predicate NeedsAdmin(x: Entry) {
    x.task.estado == EXTENSION_SOLICITADA || x.task.estado == IMPOSIBLE
  }

  /** `get_pending_admin_tasks()`: those tasks waiting for an extension
      decision or marked impossible, ascending by `fecha_hora`. */
  function PendingAdminTasks(docs: seq<Entry>): (r: seq<Entry>)
    ensures SortedByFechaHora(r)
    ensures ExactlyMatching(r, docs, NeedsAdmin)
  {
    SortByFechaHora(Select(docs, NeedsAdmin))
  }

  // ---------------------------------------------------------------------
  // get_filtered_tasks

  /** The query `get_filtered_tasks` builds: each membership filter only
      when its list is non-empty (None and [] are both falsy), the
      inclusive whole-day range only when both bounds are given. */
  predicate MatchesFilter(x: Entry, estados: seq<string>, usuarios: seq<string>,
                          inicio: Option<Date>, fin: Option<Date>) {
    && (estados != [] ==> x.task.estado in estados)
    && (usuarios != [] ==> x.task.asignadoA in usuarios)
    && (inicio.Some? && fin.Some? ==>
          NotAfter(Combine(inicio.value, MIDNIGHT), x.task.fechaHora) &&
          NotAfter(x.task.fechaHora, Combine(fin.value, LAST_INSTANT)))
  }

  /** `get_filtered_tasks(estados, usuarios, fecha_inicio, fecha_fin)`, ascending by `fecha_hora`. */
  function FilteredTasks(docs: seq<Entry>, estados: seq<string>, usuarios: seq<string>,
                         inicio: Option<Date>, fin: Option<Date>): (r: seq<Entry>)
    ensures SortedByFechaHora(r)
    ensures ExactlyMatching(r, docs, (x: Entry) => MatchesFilter(x, estados, usuarios, inicio, fin))
  {
    SortByFechaHora(Select(docs, (x: Entry) => MatchesFilter(x, estados, usuarios, inicio, fin)))
  }

  /** The filter in calendar terms: the range keeps those tasks whose due
      date lies between the two dates, both included. */
  predicate MatchesByDate(x: Entry, estados: seq<string>, usuarios: seq<string>,
                          inicio: Option<Date>, fin: Option<Date>) {
    && (estados != [] ==> x.task.estado in estados)
    && (usuarios != [] ==> x.task.asignadoA in usuarios)
    && (inicio.Some? && fin.Some? ==>
          !DateBefore(x.task.fechaHora.date, inicio.value) && !DateBefore(fin.value, x.task.fechaHora.date))
  }

  lemma FilteredTasksExact(docs: seq<Entry>, estados: seq<string>, usuarios: seq<string>,
                           inicio: Option<Date>, fin: Option<Date>)
    requires AllWellFormed(docs)
    ensures ExactlyMatching(FilteredTasks(docs, estados, usuarios, inicio, fin), docs,
                            (x: Entry) => MatchesByDate(x, estados, usuarios, inicio, fin))
  {
    var r := FilteredTasks(docs, estados, usuarios, inicio, fin);
    forall x: Entry ensures multiset(r)[x] == if MatchesByDate(x, estados, usuarios, inicio, fin) then multiset(docs)[x] else 0 {
      if x in docs && inicio.Some? && fin.Some? {
        WholeDayWindow(inicio.value, fin.value, x.task.fechaHora);
      }
    }
  }
}
