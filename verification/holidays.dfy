/**
 Next-holiday selection (proximo_feriado.py). The holiday list, which the
 service fetches from a public calendar API, and today's date are
 parameters; the object's two-field state update (`loading`, `holiday`) is
 a function from the old state to the new one.
 */
module Holidays {
  import opened Wrappers
  import opened Text

  datatype Holiday = Holiday(dia: int, mes: int, motivo: string, tipo: string)

  datatype Today = Today(day: int, month: int)

  /** What `holiday` holds: nothing yet, a chosen holiday, or the notice that
      no holiday of the requested type is left this year. */
  datatype Shown = Unset | Chosen(holiday: Holiday) | Notice(text: string)

  datatype NextHoliday = NextHoliday(loading: bool, year: nat, holiday: Shown)

  /** The Python exception the untyped selection can raise. */
  datatype Raised = IndexError

  /** A freshly built selector: still loading, nothing chosen. */
  function Start(year: nat): NextHoliday {
    NextHoliday(true, year, Unset)
  }

  /** Strictly after today within the year; a holiday on today itself is not. */
  predicate AfterToday(h: Holiday, today: Today) {
    (h.mes == today.month && h.dia > today.day) || h.mes > today.month
  }

  /** The test reads `(same month and later day) or later month`: any later
      month qualifies whatever its day, an earlier month never does, and in
      today's month only a later day does. */
  lemma AfterTodayByMonth(h: Holiday, today: Today)
    ensures h.mes > today.month ==> AfterToday(h, today)
    ensures h.mes < today.month ==> !AfterToday(h, today)
    ensures h.mes == today.month ==> (AfterToday(h, today) <==> h.dia > today.day)
  {
  }

  /** A holiday the selection accepts: after today and, when a type is given,
      of that type ignoring case. */
  predicate Wanted(h: Holiday, today: Today, kind: Option<string>) {
    AfterToday(h, today) && (kind.None? || EqualsIgnoreCase(h.tipo, kind.value))
  }

  /** The position of the first accepted holiday, as `next(generator, ...)` finds it. */
  function FirstWanted(hs: seq<Holiday>, today: Today, kind: Option<string>): (r: Option<nat>)
    ensures r.Some? ==> r.value < |hs| && Wanted(hs[r.value], today, kind)
    ensures r.Some? ==> forall j :: 0 <= j < r.value ==> !Wanted(hs[j], today, kind)
    ensures r.None? ==> forall j :: 0 <= j < |hs| ==> !Wanted(hs[j], today, kind)
  {
    if hs == [] then None
    else if Wanted(hs[0], today, kind) then Some(0)
    else match FirstWanted(hs[1..], today, kind)
      case None => None
      case Some(i) => Some(i + 1)
  }

  /** A position holding the first accepted holiday is the one `FirstWanted` reports. */
  lemma FirstWantedIs(hs: seq<Holiday>, today: Today, kind: Option<string>, i: nat)
    requires i < |hs| && Wanted(hs[i], today, kind)
    requires forall j :: 0 <= j < i ==> !Wanted(hs[j], today, kind)
    ensures FirstWanted(hs, today, kind) == Some(i)
  {
  }

  /** The text shown when no holiday of the requested type is left. */
  function NoHolidayNotice(year: nat, kind: string): string {
    "No hay feriados para el año " + Decimal(year) + " de tipo " + kind
  }

  /** `NextHoliday.set_next`. Without a type the first holiday after today is
      chosen, falling back to the first holiday of the list; that fallback is
      computed before the search, so an empty list raises IndexError even
      though nothing would have been found. With a type the first holiday
      after today of that type is chosen; if there is none the state shows a
      notice and keeps loading. */
  function SetNext(st: NextHoliday, hs: seq<Holiday>, today: Today, kind: Option<string>): (r: Result<NextHoliday, Raised>)
    ensures r.Failure? <==> kind.None? && |hs| == 0
    ensures r.Success? ==> r.value.year == st.year
    ensures r.Success? && r.value.holiday.Chosen? ==> !r.value.loading && r.value.holiday.holiday in hs
    ensures r.Success? && kind.None? ==> r.value.holiday.Chosen?
    ensures r.Success? && kind.Some? ==>
      (r.value.holiday.Chosen? <==> exists i :: 0 <= i < |hs| && Wanted(hs[i], today, kind))
    ensures r.Success? && !r.value.holiday.Chosen? ==>
      kind.Some? && r.value == st.(holiday := Notice(NoHolidayNotice(st.year, kind.value)))
  {
    if kind.None? then
      if |hs| == 0 then Failure(IndexError)
      else
        var fallback := hs[0];
        var chosen := match FirstWanted(hs, today, None)
          case Some(i) => hs[i]
          case None => fallback;
        Success(NextHoliday(false, st.year, Chosen(chosen)))
    else
      match FirstWanted(hs, today, kind)
      case Some(i) => Success(NextHoliday(false, st.year, Chosen(hs[i])))
      case None => Success(st.(holiday := Notice(NoHolidayNotice(st.year, kind.value))))
  }

  /** A freshly built selector (`__init__`: loading, nothing chosen) that finds
      no holiday of the requested type is still loading and shows the notice,
      so `render` prints the searching banner. */
  lemma FreshSelectorWithoutMatchKeepsLoading(year: nat, hs: seq<Holiday>, today: Today, kind: string)
    requires forall j :: 0 <= j < |hs| ==> !Wanted(hs[j], today, Some(kind))
    ensures SetNext(Start(year), hs, today, Some(kind)) ==
      Success(NextHoliday(true, year, Notice(NoHolidayNotice(year, kind))))
  {
    assert FirstWanted(hs, today, Some(kind)).None?;
  }

  /** Untyped selection picks the first holiday after today when there is one. */
  lemma UntypedPicksFirstAfterToday(st: NextHoliday, hs: seq<Holiday>, today: Today, i: nat)
    requires i < |hs| && AfterToday(hs[i], today)
    requires forall j :: 0 <= j < i ==> !AfterToday(hs[j], today)
    ensures SetNext(st, hs, today, None) == Success(NextHoliday(false, st.year, Chosen(hs[i])))
  {
    FirstWantedIs(hs, today, None, i);
  }

  /** Untyped selection with nothing after today falls back to the first holiday. */
  lemma UntypedFallsBackToFirst(st: NextHoliday, hs: seq<Holiday>, today: Today)
    requires |hs| > 0
    requires forall j :: 0 <= j < |hs| ==> !AfterToday(hs[j], today)
    ensures SetNext(st, hs, today, None) == Success(NextHoliday(false, st.year, Chosen(hs[0])))
  {
  }

  /** Typed selection picks the first holiday after today of that type. */
  lemma TypedPicksFirstOfType(st: NextHoliday, hs: seq<Holiday>, today: Today, kind: string, i: nat)
    requires i < |hs| && AfterToday(hs[i], today) && EqualsIgnoreCase(hs[i].tipo, kind)
    requires forall j :: 0 <= j < i ==> !(AfterToday(hs[j], today) && EqualsIgnoreCase(hs[j].tipo, kind))
    ensures SetNext(st, hs, today, Some(kind)) == Success(NextHoliday(false, st.year, Chosen(hs[i])))
  {
    FirstWantedIs(hs, today, Some(kind), i);
  }

  /** Typed selection with no holiday of that type left shows the notice and
      leaves `loading` as it was. */
  lemma TypedWithoutMatchShowsNotice(st: NextHoliday, hs: seq<Holiday>, today: Today, kind: string)
    requires forall j :: 0 <= j < |hs| ==> !(AfterToday(hs[j], today) && EqualsIgnoreCase(hs[j].tipo, kind))
    ensures SetNext(st, hs, today, Some(kind)) ==
      Success(NextHoliday(st.loading, st.year, Notice(NoHolidayNotice(st.year, kind))))
  {
  }

  /** The type filter `fetch_holidays` passes on: an empty type means none. */
  function NormaliseKind(kind: Option<string>): (r: Option<string>)
    ensures r.Some? ==> r.value != ""
    ensures kind.Some? && kind.value != "" ==> r == kind
    ensures kind.None? || kind.value == "" ==> r.None?
  {
    if kind.Some? && kind.value != "" then kind else None
  }

  /** `NextHoliday.fetch_holidays` once the calendar has answered with `data`. */
  function FetchHolidays(st: NextHoliday, data: seq<Holiday>, today: Today, kind: Option<string>): (r: Result<NextHoliday, Raised>)
    ensures r.Failure? <==> (kind.None? || kind.value == "") && |data| == 0
    ensures r.Success? ==> r.value.year == st.year
    ensures (kind.None? || kind.value == "") && r.Success? ==> r.value.holiday.Chosen? && !r.value.loading
    ensures kind.Some? && kind.value != "" ==>
      (r.Success? && r.value.holiday.Chosen? <==> exists i :: 0 <= i < |data| && Wanted(data[i], today, kind))
  {
    SetNext(st, data, today, NormaliseKind(kind))
  }

  /** An empty type string selects exactly as no type does. */
  lemma EmptyKindIsNoKind(st: NextHoliday, data: seq<Holiday>, today: Today)
    ensures FetchHolidays(st, data, today, Some("")) == FetchHolidays(st, data, today, None)
    ensures FetchHolidays(st, data, today, Some("")) == SetNext(st, data, today, None)
  {
  }
}
