/** The calendar view: for the month of today's date it lays out one cell per
    day, shading the days the record marks on-site, and shows the on-site
    total against the quota. */
module View {
  import opened Calendar
  import opened IsoDate
  import opened Attendance
  import opened Plugin

  /** What `render` shows for one day: its number, the key a click toggles,
      and whether the cell is shaded on-site. */
  datatype DayCell = DayCell(day: int, key: string, onsite: bool)

  /** The cell of day `day` of month `month` of `year`, as `render` builds it
      from the date the constructor makes. */
  function CellOf(r: Record, year: int, month: int, day: int): DayCell
    requires MinYear <= year <= MaxYear
    requires 0 <= month < 12 && 1 <= day <= 31
  {
    var key := DateKey(ConstructorYear(year), month, day);
    DayCell(day, key, IsOnsite(r, key))
  }

  /** A cell shows its day, carries a key that reads back as the date the
      constructor made (so a year 0..99 reads back as 1900..1999), and is
      shaded exactly when the record holds a truthy value for that key. */
  lemma CellOfReadsBack(r: Record, year: int, month: int, day: int)
    requires MinYear <= year <= MaxYear
    requires 0 <= month < 12 && 1 <= day <= 31
    ensures var c := CellOf(r, year, month, day);
      && c.day == day
      && |c.key| >= 6 && KeyYear(c.key) == ConstructorYear(year) && KeyMonth(c.key) == month && KeyDay(c.key) == day
      && (c.onsite <==> c.key in r && r[c.key])
  {
    DateKeyRoundTrip(ConstructorYear(year), month, day);
  }

  /** The cells of days 1..n of the month, in order. */
  function DayCells(r: Record, year: int, month: int, n: int): (cells: seq<DayCell>)
    requires MinYear <= year <= MaxYear
    requires 0 <= month < 12 && 0 <= n <= 31
    ensures |cells| == n
  {
    if n == 0 then [] else DayCells(r, year, month, n - 1) + [CellOf(r, year, month, n)]
  }

  /** The i-th of them is the cell of day i + 1. */
  lemma {:induction false} DayCellsAt(r: Record, year: int, month: int, n: int, i: int)
    requires MinYear <= year <= MaxYear
    requires 0 <= month < 12 && 0 <= n <= 31
    requires 0 <= i < n
    ensures DayCells(r, year, month, n)[i] == CellOf(r, year, month, i + 1)
    decreases n
  {
    if i < n - 1 {
      DayCellsAt(r, year, month, n - 1, i);
    }
  }

  /** Clicking a day's cell toggles its key: that cell's shading flips and
      every other cell of the month keeps its shading. */
  lemma ClickChangesOnlyThatCell(r: Record, year: int, month: int, clicked: int, other: int)
    requires MinYear <= year <= MaxYear
    requires 0 <= month < 12
    requires 1 <= clicked <= DaysInMonth(ConstructorYear(year), month)
    requires 1 <= other <= DaysInMonth(ConstructorYear(year), month)
    ensures var r' := Toggled(r, CellOf(r, year, month, clicked).key);
      CellOf(r', year, month, other).onsite ==
        if other == clicked then !CellOf(r, year, month, other).onsite else CellOf(r, year, month, other).onsite
  {
    var y := ConstructorYear(year);
    if DateKey(y, month, clicked) == DateKey(y, month, other) {
      DateKeyInjective(y, month, clicked, y, month, other);
    }
  }

  class CalendarView {
    const plugin: OnsiteCalendarPlugin

    constructor (plugin: OnsiteCalendarPlugin)
      ensures this.plugin == plugin
    {
      this.plugin := plugin;
    }

    /** `render` for today's date in `year` and `month` (as `getFullYear()`
        and `getMonth()` give them): probe days 1..31, stop at the first one
        whose date is invalid or rolls into the next month, and make a cell
        for each day before it; then the on-site total of the whole record and
        the quota. */
    method Render(year: int, month: int) returns (cells: seq<DayCell>, total: nat, quota: int)
      requires MinYear <= year <= MaxYear
      requires 0 <= month < 12
      ensures |cells| == VisitedDays(year, month)
      ensures cells == DayCells(plugin.data, year, month, |cells|)
      ensures total == TotalOnsite(plugin.data) && total <= |plugin.data|
      ensures quota == plugin.quota
    {
      cells := [];
      var day := 1;
      while day <= 31
        invariant 1 <= day <= 32
        invariant |cells| == day - 1
        invariant RunEnd(Probes(year, month), day) == VisitedDays(year, month)
        invariant cells == DayCells(plugin.data, year, month, day - 1)
      {
        ProbesAt(year, month, day);
        if GetMonth(year, month, day) != Some(month) {
          break;
        }
        cells := cells + [CellOf(plugin.data, year, month, day)];
        day := day + 1;
      }
      total := TotalOnsite(plugin.data);
      quota := plugin.quota;
    }
  }
}
