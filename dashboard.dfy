/** The computations of the calendar page (`pages/dashboard.py`): the
    status symbol, the month's assignees grouped by day, the low-time alert,
    the administrator gate and the day selected by default. */
module Dashboard {

  import opened Wrappers
  import opened Calendar
  import opened Tasks

  // ---------------------------------------------------------------------
  // get_status_color

  const YELLOW := "\U{1F7E1}"
  const GREEN := "\U{1F7E2}"
  const HOLLOW_RED := "\U{2B55}"
  const ORANGE := "\U{1F7E0}"
  const WHITE := "\U{26AA}"

  const SYMBOLS: map<string, string> :=
    map[PENDIENTE := YELLOW, COMPLETADA := GREEN, IMPOSIBLE := HOLLOW_RED, EXTENSION_SOLICITADA := ORANGE]

  /** The argument `get_status_color` receives: a string, or any other value. */
  datatype Value = Str(s: string) | NotAString

  function LowerChar(c: char): char {
    if 'A' <= c <= 'Z' then (c as int - 'A' as int + 'a' as int) as char else c
  }

  /** `str.lower()` on the letters A to Z. */
  function Lower(s: string): string {
    seq(|s|, i requires 0 <= i < |s| => LowerChar(s[i]))
  }

  /** `get_status_color(estado)`: one of the four status symbols, or white
      exactly when the value is not a string or its lowercase form is none
      of the four statuses. */
  function StatusSymbol(estado: Value): (symbol: string)
    ensures symbol in SYMBOLS.Values || symbol == WHITE
    ensures symbol == WHITE <==> estado.NotAString? || Lower(estado.s) !in SYMBOLS
  {
    match estado
    case NotAString => WHITE
    case Str(s) => var key := Lower(s); if key in SYMBOLS then SYMBOLS[key] else WHITE
  }

  /** Each coloured symbol stands for exactly one status, compared without
      regard to case. */
  lemma StatusSymbolMeaning(estado: Value)
    ensures StatusSymbol(estado) == YELLOW <==> estado.Str? && Lower(estado.s) == PENDIENTE
    ensures StatusSymbol(estado) == GREEN <==> estado.Str? && Lower(estado.s) == COMPLETADA
    ensures StatusSymbol(estado) == HOLLOW_RED <==> estado.Str? && Lower(estado.s) == IMPOSIBLE
    ensures StatusSymbol(estado) == ORANGE <==> estado.Str? && Lower(estado.s) == EXTENSION_SOLICITADA
  {
    assert YELLOW != GREEN && YELLOW != HOLLOW_RED && YELLOW != ORANGE && YELLOW != WHITE;
    assert GREEN != HOLLOW_RED && GREEN != ORANGE && GREEN != WHITE;
    assert HOLLOW_RED != ORANGE && HOLLOW_RED != WHITE && ORANGE != WHITE;
  }

  lemma UpperCaseStatus()
    ensures StatusSymbol(Str("COMPLETADA")) == GREEN
    ensures StatusSymbol(Str("Extension_Solicitada")) == ORANGE
  {
    assert Lower("COMPLETADA") == COMPLETADA;
    assert Lower("Extension_Solicitada") == EXTENSION_SOLICITADA;
  }

  // ---------------------------------------------------------------------
  // tasks_by_day

  /** What the grouping loop reads of a month task: `task['fecha_hora']`
      (None where the key is missing or the value has no `.day`) and
      `task['asignado_a']` (None where the key is missing). */
  datatype CalendarItem = CalendarItem(fechaHora: Option<DateTime>, asignadoA: Option<string>)

  predicate OnDay(item: CalendarItem, day: int) {
    item.fechaHora.Some? && item.fechaHora.value.date.day == day
  }

  /** Some item is dated on day-of-month `day`. */
  ghost predicate HasTaskOn(items: seq<CalendarItem>, day: int) {
    exists i :: 0 <= i < |items| && OnDay(items[i], day)
  }

  /** The assignees of the items dated on `day`, in order, repeats kept. */
  function NamesOn(items: seq<CalendarItem>, day: int): seq<string> {
    if items == [] then []
    else
      var last := items[|items| - 1];
      NamesOn(items[..|items| - 1], day) + (if OnDay(last, day) && last.asignadoA.Some? then [last.asignadoA.value] else [])
  }

  /** A day no item is dated on has no assignees. */
  lemma {:induction false} NoNamesOffDay(items: seq<CalendarItem>, day: int)
    requires !HasTaskOn(items, day)
    ensures NamesOn(items, day) == []
  {
    if items != [] {
      var init := items[..|items| - 1];
      assert !HasTaskOn(init, day) by {
        forall k | 0 <= k < |init| ensures !OnDay(init[k], day) {
          assert init[k] == items[k];
        }
      }
      NoNamesOffDay(init, day);
      assert !OnDay(items[|items| - 1], day);
    }
  }

  /** The loop that builds `tasks_by_day`: a key for every day some item is
      dated on, even when that item has no assignee, and under it the
      assignees of that day's items in input order. */
  method GroupByDay(items: seq<CalendarItem>) returns (byDay: map<int, seq<string>>)
    ensures forall day :: day in byDay <==> HasTaskOn(items, day)
    ensures forall day :: day in byDay ==> byDay[day] == NamesOn(items, day)
  {
    byDay := map[];
    for i := 0 to |items|
      invariant forall day :: day in byDay <==> HasTaskOn(items[..i], day)
      invariant forall day :: day in byDay ==> byDay[day] == NamesOn(items[..i], day)
    {
      assert items[..i + 1][..i] == items[..i];
      var item := items[i];
      if item.fechaHora.Some? {
        var day := item.fechaHora.value.date.day;
        if day !in byDay {
          NoNamesOffDay(items[..i], day);
          byDay := byDay[day := []];
        }
        if item.asignadoA.Some? {
          byDay := byDay[day := byDay[day] + [item.asignadoA.value]];
        }
      }
      assert forall day :: HasTaskOn(items[..i + 1], day) <==> HasTaskOn(items[..i], day) || OnDay(item, day) by {
        forall day ensures HasTaskOn(items[..i + 1], day) <==> HasTaskOn(items[..i], day) || OnDay(item, day) {
          if HasTaskOn(items[..i + 1], day) && !OnDay(item, day) {
            var k :| 0 <= k < i + 1 && OnDay(items[..i + 1][k], day);
            assert items[..i][k] == items[k];
          }
          if HasTaskOn(items[..i], day) {
            var k :| 0 <= k < i && OnDay(items[..i][k], day);
            assert items[..i + 1][k] == items[k];
          }
          if OnDay(item, day) {
            assert items[..i + 1][i] == item;
          }
        }
      }
    }
    assert items[..|items|] == items;
  }

  // ---------------------------------------------------------------------
  // The low-time alert

  const ALERT_WINDOW := 3 * 3600 * 1000000

  /** `timedelta(0) < task['fecha_hora'] - datetime.now() < timedelta(hours=3)`:
      only a task not yet due raises it, so a task due now or overdue never does. */
  function LowTimeAlert(due: DateTime, now: DateTime): (alert: bool)
    requires ValidDateTime(due) && ValidDateTime(now)
    ensures alert <==> Before(now, due) && Micros(due) - Micros(now) < ALERT_WINDOW
  {
    MicrosOrder(now, due);
    var remaining := Micros(due) - Micros(now);
    0 < remaining < ALERT_WINDOW
  }

  /** The alert is shown only for a task due today or tomorrow. */
  lemma AlertMeansDueSoon(due: DateTime, now: DateTime)
    requires ValidDateTime(due) && ValidDateTime(now)
    ensures LowTimeAlert(due, now) ==> due.date == now.date || due.date == NextDay(now.date)
  {
    if LowTimeAlert(due, now) {
      TimeOfDayOrder(due.time, now.time);
      TimeOfDayOrder(now.time, due.time);
      var od, on := Ordinal(due.date), Ordinal(now.date);
      assert od - on < 2;
      OrdinalMonotone(due.date, now.date);
      if od != on {
        NextDayOrdinal(now.date);
        OrdinalMonotone(due.date, NextDay(now.date));
      }
    }
  }

  // ---------------------------------------------------------------------
  // The administrator gate

  const ADMIN := "rossy"

  datatype Session = Session(loggedIn: bool, username: string)

  datatype Screen = LoginPrompt | PermissionDenied | SwitchTo(page: string)

  /** Pressing "Agregar tarea" (to `pages/task.py`) or "Administrar tareas"
      (to `pages/task_manager.py`): a page only reached after login, and only
      the administrator passes. */
  function PressAdminButton(session: Session, page: string): (screen: Screen)
    ensures !session.loggedIn ==> screen == LoginPrompt
    ensures screen.SwitchTo? <==> session.loggedIn && session.username == ADMIN
    ensures screen.SwitchTo? ==> screen.page == page
  {
    if !session.loggedIn then LoginPrompt
    else if session.username != ADMIN then PermissionDenied
    else SwitchTo(page)
  }

  // ---------------------------------------------------------------------
  // The default selected day

  /** `min(current_date.day, calendar.monthrange(year, month)[1])`. */
  function DefaultDay(today: Date, year: int, month: int): (day: int)
    requires ValidDate(today) && 1 <= month <= 12
    ensures MIN_YEAR <= year <= MAX_YEAR ==> ValidDate(Date(year, month, day))
    ensures today.day <= DaysInMonth(year, month) ==> day == today.day
    ensures today.day > DaysInMonth(year, month) ==> day == DaysInMonth(year, month)
  {
    if today.day < DaysInMonth(year, month) then today.day else DaysInMonth(year, month)
  }
}
