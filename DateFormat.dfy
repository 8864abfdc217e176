/** How an event card shows its period: `formatDate` and the start/end choice
    in `EventCard` (components/EventDisplay.tsx). */
module DateFormat {
  import opened Options
  import opened Strings

  /** `formatDate` hands years below this back as raw text. */
  const MinDisplayYear := 1970

  /** The pt-BR rendering of a date. `render(year, month, day)` stands for
      `new Date(year, month - 1, day)` formatted by `Intl.DateTimeFormat` for
      pt-BR in the America/Sao_Paulo time zone; it is `None` when the
      constructed date is invalid (its time value is NaN). */
  type Renderer = (int, int, int) -> Option<string>

  /** `formatDate`: `None` is `null`. An absent or blank string gives `null`;
      text that does not split into three `/`-separated numbers with a year of
      at least 1970, or whose date cannot be built, comes back unchanged;
      otherwise the rendered date. */
  function FormatDate(dateString: Option<string>, render: Renderer): (r: Option<string>)
  {
    if dateString.None? || Trim(dateString.value) == [] then None
    else
      var s := dateString.value;
      var parts := Split(s, '/');
      if |parts| != 3 then Some(s)
      else
        var day, month, year := ToNumber(parts[0]), ToNumber(parts[1]), ToNumber(parts[2]);
        if day.None? || month.None? || year.None? || year.value < MinDisplayYear then Some(s)
        else
          match render(year.value, month.value, day.value)
          case None => Some(s)
          case Some(text) => Some(text)
  }

  /** `formatDate` yields `null` exactly for an absent or all-white-space string. */
  lemma FormatDateNull(dateString: Option<string>, render: Renderer)
    ensures FormatDate(dateString, render) == None <==> dateString.None? || Blank(dateString.value)
  {
    if dateString.Some? {
      TrimEmptyIffBlank(dateString.value);
    }
  }

  /** Text without exactly two `/` separators is shown as it is. */
  lemma FormatDateWrongShape(s: string, render: Renderer)
    requires !Blank(s)
    requires Count(s, '/') != 2
    ensures FormatDate(Some(s), render) == Some(s)
  {
    TrimEmptyIffBlank(s);
    SplitCount(s, '/');
  }

  /** Text whose three pieces are not all numbers, or whose year is below 1970,
      is shown as it is. */
  lemma FormatDateInvalidParts(s: string, render: Renderer)
    requires !Blank(s)
    requires var parts := Split(s, '/');
      |parts| == 3
      && (ToNumber(parts[0]).None? || ToNumber(parts[1]).None? || ToNumber(parts[2]).None?
          || ToNumber(parts[2]).value < MinDisplayYear)
    ensures FormatDate(Some(s), render) == Some(s)
  {
    TrimEmptyIffBlank(s);
  }

  /** `DD/MM/YYYY` text: day and month zero-padded to two digits, the year to four. */
  function BrDateText(day: nat, month: nat, year: nat): string {
    PadStart(Decimal(day), 2, '0') + "/" + PadStart(Decimal(month), 2, '0') + "/" + PadStart(Decimal(year), 4, '0')
  }

  /** Three runs of digits joined by `/` split back into those runs. */
  lemma SplitThree(d: string, m: string, y: string)
    requires AllDigits(d) && AllDigits(m) && AllDigits(y)
    ensures Split(d + "/" + m + "/" + y, '/') == [d, m, y]
  {
    forall p | p in [d, m, y] ensures '/' !in p {
      assert AllDigits(p);
    }
    SplitJoin([d, m, y], '/');
    assert [d, m, y][1..] == [m, y];
    assert [m, y][1..] == [y];
    assert Join([y], '/') == y;
    assert Join([m, y], '/') == m + ['/'] + y;
    assert Join([d, m, y], '/') == d + ['/'] + (m + ['/'] + y);
    assert d + "/" + m + "/" + y == d + ['/'] + (m + ['/'] + y);
  }

  /** Once the text is known to split into three numbers with a year from 1970
      on, the result is the rendering of those numbers. */
  lemma FormatDateOfNumbers(s: string, render: Renderer, day: int, month: int, year: int)
    requires !Blank(s)
    requires var parts := Split(s, '/');
      |parts| == 3 && ToNumber(parts[0]) == Some(day) && ToNumber(parts[1]) == Some(month)
      && ToNumber(parts[2]) == Some(year)
    requires year >= MinDisplayYear
    ensures FormatDate(Some(s), render) == if render(year, month, day).Some? then render(year, month, day) else Some(s)
  {
    TrimEmptyIffBlank(s);
  }

  /** Three runs of digits joined by `/` reach the renderer as their values;
      an empty run reads as 0, as `Number("")` does. */
  lemma FormatDateOfDigitRuns(d: string, m: string, y: string, render: Renderer, day: int, month: int, year: int)
    requires AllDigits(d) && AllDigits(m) && AllDigits(y)
    requires ToNumber(d) == Some(day) && ToNumber(m) == Some(month) && ToNumber(y) == Some(year)
    requires year >= MinDisplayYear
    ensures var s := d + "/" + m + "/" + y;
      FormatDate(Some(s), render) == if render(year, month, day).Some? then render(year, month, day) else Some(s)
  {
    var s := d + "/" + m + "/" + y;
    assert !Blank(s) by {
      assert s[|d|] == '/';
    }
    SplitThree(d, m, y);
    FormatDateOfNumbers(s, render, day, month, year);
  }

  /** A well-formed `DD/MM/YYYY` date from 1970 on reaches the renderer with
      exactly its own year, month and day, and is shown as rendered (or as it
      is if that date cannot be built). */
  lemma {:induction false} FormatDateReadsComponents(day: nat, month: nat, year: nat, render: Renderer)
    requires year >= MinDisplayYear
    ensures var s := BrDateText(day, month, year);
      FormatDate(Some(s), render) == if render(year, month, day).Some? then render(year, month, day) else Some(s)
  {
    var d, m, y := PadStart(Decimal(day), 2, '0'), PadStart(Decimal(month), 2, '0'), PadStart(Decimal(year), 4, '0');
    PaddedDecimalDigits(day, 2);
    PaddedDecimalDigits(month, 2);
    PaddedDecimalDigits(year, 4);
    PaddedDecimalToNumber(day, 2);
    PaddedDecimalToNumber(month, 2);
    PaddedDecimalToNumber(year, 4);
    FormatDateOfDigitRuns(d, m, y, render, day, month, year);
  }

  /** A template literal's rendering of a possibly-null string. */
  function Show(s: Option<string>): string {
    if s.None? then "null" else s.value
  }

  /** The period line of a card, from the formatted start and end dates:
      `de <start> à <end>` when the end is a non-empty string different from
      the start, otherwise the start alone (which may be `null`, and is then
      not shown). */
  function DateDisplay(start: Option<string>, end: Option<string>): (r: Option<string>)
  {
    if end.Some? && end.value != [] && end != start then Some("de " + Show(start) + " à " + end.value)
    else start
  }

  /** The range text replaces the start date exactly when the end is present,
      non-empty and differs from the start; the range always names both. */
  lemma DateDisplayRangeIff(start: Option<string>, end: Option<string>)
    ensures DateDisplay(start, end) != start <==> end.Some? && end.value != [] && end != start
    ensures DateDisplay(start, end) != start ==>
      DateDisplay(start, end) == Some("de " + Show(start) + " à " + end.value)
  {
  }

  /** An event without an end date, or with a blank one, shows its start date
      alone. */
  lemma NoEndShowsStart(startText: Option<string>, endText: Option<string>, render: Renderer)
    requires endText.None? || Blank(endText.value)
    ensures DateDisplay(FormatDate(startText, render), FormatDate(endText, render)) == FormatDate(startText, render)
  {
    FormatDateNull(endText, render);
  }
}
