/** The date/time entry state machine as a specification: the state the
    key handler works on, what one key does to it, and the two lines draw
    renders from it. */
module Machine {
  import opened Fields
  import opened Keys
  import opened Format
  import opened TextBuf

  datatype Option<T> = None | Some(value: T)

  /** The five values save_and_exit hands to the clock. */
  datatype DateTime = DateTime(year: int, month: int, day: int, hour: int, minute: int)

  /** values[5], cursor, and the half mode: the first digit `half`, the
      flag `halfMode` and the saved value `rollback`. */
  datatype State = State(values: seq<int>, cursor: Field, half: int, halfMode: bool, rollback: int)

  predicate WellFormed(s: State) {
    |s.values| == FieldCount
  }

  /** The state invariant: every field within its limits, and during half
      mode the selected field still holds its saved value and the pending
      first digit can start a value that fits. */
  predicate Inv(s: State)
    ensures Inv(s) ==> |s.values| == FieldCount && forall i: Field :: 0 <= s.values[i] <= 99
  {
    WellFormed(s) &&
    (forall i: Field :: InRange(i, s.values[i])) &&
    (s.halfMode ==>
      s.values[s.cursor] == s.rollback &&
      0 <= s.half <= 9 && s.half * 10 <= LimitsUp[s.cursor])
  }

  /** What one key causes: the next state, whether draw runs, whether the
      main loop is asked to quit, and what (if anything) is committed. */
  datatype Reaction = Reaction(next: State, redraw: bool, quit: bool, commit: Option<DateTime>)

  function Committed(values: seq<int>): (d: DateTime)
    requires |values| == FieldCount
    ensures [d.year, d.month, d.day, d.hour, d.minute] == values
  {
    DateTime(values[Year], values[Month], values[Day], values[Hour], values[Minute])
  }

  /** reset_input: leave half mode and restore the saved value. */
  function RolledBack(s: State): (r: State)
    requires WellFormed(s)
    ensures WellFormed(r) && !r.halfMode && r.values[s.cursor] == s.rollback
    ensures forall i: Field :: i != s.cursor ==> r.values[i] == s.values[i]
    ensures r.cursor == s.cursor && r.half == s.half && r.rollback == s.rollback
    ensures Inv(s) && s.halfMode ==> r == s.(halfMode := false)
  {
    s.(halfMode := false, values := s.values[s.cursor := s.rollback])
  }

  /** main_win_key_handler on the key class of the key's name. */
  function Step(s: State, k: Key): (r: Reaction)
    requires WellFormed(s)
    requires k.Digit? ==> 0 <= k.code <= 9
    ensures WellFormed(r.next)
  {
    var c := s.cursor;
    if k.Digit? then
      if s.halfMode then
        var res := s.half * 10 + k.code;
        if Acceptable(c, res) then
          Reaction(s.(values := s.values[c := res], halfMode := false, cursor := NextField(c)), true, false, None)
        else
          Reaction(RolledBack(s), true, false, None)
      else if k.code * 10 > LimitsUp[c] then
        Reaction(s, false, false, None)
      else
        Reaction(s.(rollback := s.values[c], halfMode := true, half := k.code), true, false, None)
    else
      // Escape asks to quit and then falls through to the checks below.
      var quit := k == Escape;
      if s.halfMode then Reaction(RolledBack(s), true, quit, None)
      else if k == Confirm then Reaction(s, true, true, Some(Committed(s.values)))
      else if k == Increase then Reaction(s.(values := s.values[c := Incremented(c, s.values[c])]), true, quit, None)
      else if k == Decrease then Reaction(s.(values := s.values[c := Decremented(c, s.values[c])]), true, quit, None)
      else if k == MoveLeft then Reaction(s.(cursor := PrevField(c)), true, quit, None)
      else if k == MoveRight then Reaction(s.(cursor := NextField(c)), true, quit, None)
      else Reaction(s, true, quit, None)
  }

  /** The values prepare seeds from a broken-down local time: months are
      counted from 0 in tm_mon, years from 1900 in tm_year. */
  function Seed(tmYear: int, tmMon: int, tmMday: int, tmHour: int, tmMin: int): (v: seq<int>)
    ensures |v| == FieldCount
    ensures tmYear < 109 ==> v[Year] == 0
    ensures tmYear >= 109 ==> v[Year] + 2000 == tmYear + 1900
    ensures v[Month] == tmMon + 1 && v[Day] == tmMday && v[Hour] == tmHour && v[Minute] == tmMin
  {
    [SeedYear(tmYear), tmMon + 1, tmMday, tmHour, tmMin]
  }

  /** A local time from 2000 to 2099 (in the ranges localtime returns)
      seeds values within every field's limits; years before 2009 give 0. */
  lemma SeedInRange(tmYear: int, tmMon: int, tmMday: int, tmHour: int, tmMin: int)
    requires tmYear <= 199 && 0 <= tmMon <= 11 && 1 <= tmMday <= 31
    requires 0 <= tmHour <= 23 && 0 <= tmMin <= 59
    ensures var v := Seed(tmYear, tmMon, tmMday, tmHour, tmMin);
      forall i: Field :: InRange(i, v[i])
  {
  }

  /** A 2005 clock seeds Year 0, a 2015 clock Year 15, and a 2100 clock
      Year 100, which is above the limit: prepare does not clamp. */
  lemma SeedYearExamples()
    ensures SeedYear(105) == 0 && SeedYear(115) == 15
    ensures SeedYear(200) == 100 && !InRange(Year, SeedYear(200))
  {
  }

  /** The static initial state, all zeros, breaks the invariant (Month and
      Day 0 are below their limits): prepare has to run first. */
  lemma ZeroStateBreaksInvariant()
    ensures !Inv(State([0, 0, 0, 0, 0], Year, 0, false, 0))
  {
    var s := State([0, 0, 0, 0, 0], Year, 0, false, 0);
    assert s.values[Month] == 0 && !InRange(Month, s.values[Month]);
  }

  /** prepare establishes the invariant: any state outside half mode whose
      values were seeded from a local time from 2000 to 2099 satisfies it. */
  lemma SeededStateKeepsInvariant(tmYear: int, tmMon: int, tmMday: int, tmHour: int, tmMin: int,
                                  cursor: Field, half: int, rollback: int)
    requires tmYear <= 199 && 0 <= tmMon <= 11 && 1 <= tmMday <= 31
    requires 0 <= tmHour <= 23 && 0 <= tmMin <= 59
    ensures Inv(State(Seed(tmYear, tmMon, tmMday, tmHour, tmMin), cursor, half, false, rollback))
  {
    SeedInRange(tmYear, tmMon, tmMday, tmHour, tmMin);
  }

  // ---------------------------------------------------------------------
  // Properties of a single key

  /** Every key keeps the state invariant. */
  lemma StepKeepsInvariant(s: State, k: Key)
    requires Inv(s)
    requires k.Digit? ==> 0 <= k.code <= 9
    ensures Inv(Step(s, k).next)
  {
  }

  /** First digit: refused without redraw when it cannot start a value
      that fits; otherwise it enters half mode, saving the field's value and
      changing neither the values nor the cursor. */
  lemma FirstDigit(s: State, d: int)
    requires WellFormed(s) && !s.halfMode && 0 <= d <= 9
    ensures var r := Step(s, Digit(d));
      r.next.values == s.values && r.next.cursor == s.cursor &&
      !r.quit && r.commit == None &&
      (r.redraw <==> d * 10 <= LimitsUp[s.cursor]) &&
      (r.next.halfMode <==> d * 10 <= LimitsUp[s.cursor]) &&
      (d * 10 > LimitsUp[s.cursor] ==> r.next == s) &&
      (d * 10 <= LimitsUp[s.cursor] ==>
         r.next.half == d && r.next.rollback == s.values[s.cursor])
  {
  }

  /** Second digit: the two-digit value is stored and the cursor advances
      exactly when the value is acceptable; otherwise the field keeps its
      value and the cursor stays. Either way half mode ends. */
  lemma SecondDigit(s: State, d: int)
    requires Inv(s) && s.halfMode && 0 <= d <= 9
    ensures var r := Step(s, Digit(d));
      var res := s.half * 10 + d;
      !r.next.halfMode && r.redraw && !r.quit && r.commit == None &&
      (Acceptable(s.cursor, res) ==>
         r.next.values == s.values[s.cursor := res] && r.next.cursor == NextField(s.cursor)) &&
      (!Acceptable(s.cursor, res) ==>
         r.next.values == s.values && r.next.cursor == s.cursor)
  {
  }

  /** Two digits in a row from a settled state: d1 is ignored if d1*10 is
      above the field's upper limit; otherwise the field becomes d1*10+d2
      and the cursor advances if that is acceptable, and else the state is
      as before with the cursor where it was. */
  lemma DigitPair(s: State, d1: int, d2: int)
    requires Inv(s) && !s.halfMode && 0 <= d1 <= 9 && 0 <= d2 <= 9
    ensures var r1 := Step(s, Digit(d1));
      var r2 := Step(r1.next, Digit(d2));
      var c := s.cursor;
      (d1 * 10 > LimitsUp[c] ==> r1.next == s && !r1.redraw) &&
      (d1 * 10 <= LimitsUp[c] && Acceptable(c, d1 * 10 + d2) ==>
         r2.next.values == s.values[c := d1 * 10 + d2] && r2.next.cursor == NextField(c) &&
         !r2.next.halfMode) &&
      (d1 * 10 <= LimitsUp[c] && !Acceptable(c, d1 * 10 + d2) ==>
         r2.next.values == s.values && r2.next.cursor == c && !r2.next.halfMode)
  {
  }

  /** In half mode every other key only abandons the entry: the field gets
      its saved value back and nothing else changes. Return commits nothing
      and the arrows do not act; Escape still asks to quit. */
  lemma NonDigitAbandonsHalfEntry(s: State, k: Key)
    requires Inv(s) && s.halfMode && !k.Digit?
    ensures var r := Step(s, k);
      r.next == s.(halfMode := false) && r.redraw &&
      r.commit == None && (r.quit <==> k == Escape)
  {
  }

  /** Return outside half mode commits the five current values, asks to
      quit and leaves the state as it is. */
  lemma ConfirmCommits(s: State)
    requires WellFormed(s) && !s.halfMode
    ensures var r := Step(s, Confirm);
      r.commit == Some(DateTime(s.values[0], s.values[1], s.values[2], s.values[3], s.values[4])) &&
      r.quit && r.next == s
  {
  }

  /** Escape outside half mode asks to quit, commits nothing and changes
      nothing. */
  lemma EscapeCancels(s: State)
    requires WellFormed(s) && !s.halfMode
    ensures var r := Step(s, Escape);
      r.quit && r.commit == None && r.next == s && r.redraw
  {
  }

  /** Only Return outside half mode commits, and only Escape or a commit
      asks to quit. */
  lemma CommitAndQuitSources(s: State, k: Key)
    requires WellFormed(s)
    requires k.Digit? ==> 0 <= k.code <= 9
    ensures var r := Step(s, k);
      (r.commit.Some? <==> k == Confirm && !s.halfMode) &&
      (r.quit <==> k == Escape || (k == Confirm && !s.halfMode)) &&
      (!k.Digit? ==> r.redraw)
  {
  }

  /** An unknown key changes nothing outside half mode, and still redraws. */
  lemma UnknownKeyRedraws(s: State)
    requires WellFormed(s) && !s.halfMode
    ensures var r := Step(s, Other);
      r.next == s && r.redraw && !r.quit && r.commit == None
  {
  }

  /** Up and Down change only the selected field, by one step with
      wrap-around, and redraw. */
  lemma UpDownKeys(s: State)
    requires Inv(s) && !s.halfMode
    ensures var c := s.cursor;
      var up := Step(s, Increase);
      var down := Step(s, Decrease);
      up.next == s.(values := up.next.values) && down.next == s.(values := down.next.values) &&
      up.redraw && down.redraw &&
      (forall i: Field :: i != c ==> up.next.values[i] == s.values[i] && down.next.values[i] == s.values[i]) &&
      up.next.values[c] - LimitsDown[c] == (s.values[c] - LimitsDown[c] + 1) % Span(c) &&
      down.next.values[c] - LimitsDown[c] == (s.values[c] - LimitsDown[c] - 1) % Span(c)
  {
    StepsAreModular(s.cursor, s.values[s.cursor]);
  }

  /** Left and Right move only the cursor, circularly, and redraw. */
  lemma LeftRightKeys(s: State)
    requires WellFormed(s) && !s.halfMode
    ensures var c := s.cursor;
      Step(s, MoveLeft).next == s.(cursor := (c - 1) % FieldCount) &&
      Step(s, MoveRight).next == s.(cursor := (c + 1) % FieldCount) &&
      Step(s, MoveLeft).redraw && Step(s, MoveRight).redraw
  {
  }

  // ---------------------------------------------------------------------
  // Rendering

  /** What snprintf writes for a field: "%d " of the pending digit when the
      field is selected in half mode, "%02d" of its value otherwise. */
  function ValueText(s: State, i: Field): string
    requires WellFormed(s)
  {
    if s.cursor == i && s.halfMode then FormatInt(s.half) + " " else FormatPadded2(s.values[i])
  }

  /** What a field shows reads back as what it stands for: the pending digit
      (before a trailing space) in half mode, the value otherwise. */
  lemma ValueTextReadsBack(s: State, i: Field)
    requires WellFormed(s)
    ensures var v := ValueText(s, i);
      (s.cursor == i && s.halfMode ==>
         |v| >= 2 && v[|v| - 1] == ' ' && ParseInt(v[..|v| - 1]) == s.half) &&
      (!(s.cursor == i && s.halfMode) ==> |v| >= 2 && ParseInt(v) == s.values[i])
  {
    if s.cursor == i && s.halfMode {
      FormatRoundTrip(s.half);
      var t := FormatInt(s.half);
      assert (t + " ")[..|t|] == t;
    } else {
      FormatRoundTrip(s.values[i]);
    }
  }

  /** The text `_append_value` adds for a field: "20" before the Year, and
      the cursor marker around the selected field. */
  function Decorated(yearPrefix: bool, marked: bool, v: string): string {
    (if yearPrefix then "20" else "") + (if marked then "<cursor>" + v + "</cursor>" else v)
  }

  function FieldText(s: State, i: Field): string
    requires WellFormed(s)
  {
    Decorated(i == Year, s.cursor == i, ValueText(s, i))
  }

  /** The date line: Year, Month and Day separated by " - ", then a space. */
  function DateLine(s: State): (line: string)
    requires WellFormed(s)
  {
    FieldText(s, Year) + " - " + FieldText(s, Month) + " - " + FieldText(s, Day) + " "
  }

  /** The time line: Hour and Minute separated by " : ", then a space. */
  function TimeLine(s: State): (line: string)
    requires WellFormed(s)
  {
    FieldText(s, Hour) + " : " + FieldText(s, Minute) + " "
  }

  /** The date line starts with the century "20" and ends in a space ... */
  lemma DateLineLayout(s: State)
    requires WellFormed(s)
    ensures |DateLine(s)| >= 2 && DateLine(s)[..2] == "20"
    ensures DateLine(s)[|DateLine(s)| - 1] == ' '
  {
    YearTextStartsWithCentury(s);
    HeadAndLast(FieldText(s, Year), " - ", FieldText(s, Month), " - ", FieldText(s, Day), " ");
  }

  /** ... and so does the time line. */
  lemma TimeLineLayout(s: State)
    requires WellFormed(s)
    ensures |TimeLine(s)| >= 1 && TimeLine(s)[|TimeLine(s)| - 1] == ' '
  {
    var h, mi := FieldText(s, Hour), FieldText(s, Minute);
    HeadAndLast(h, " : ", mi, "", "", " ");
    assert h + " : " + mi + "" + "" + " " == TimeLine(s);
  }

  lemma YearTextStartsWithCentury(s: State)
    requires WellFormed(s)
    ensures |FieldText(s, Year)| >= 2 && FieldText(s, Year)[..2] == "20"
  {
  }

  lemma HeadAndLast(a: string, b: string, c: string, d: string, e: string, f: string)
    requires |f| == 1
    ensures var x := a + b + c + d + e + f;
      x[|x| - 1] == f[0] && (|a| >= 2 ==> x[..2] == a[..2])
  {
  }

  /** The buffer text and budget after `_append_value`'s appends, taken one
      at a time from text t0 and budget l0. */
  function ValueFill(t0: string, l0: int, yearPrefix: bool, marked: bool, v: string): (string, int) {
    if yearPrefix then MarkedFill(AppendedText(t0, l0, "20"), l0 - 2, marked, v)
    else MarkedFill(t0, l0, marked, v)
  }

  function MarkedFill(t: string, l: int, marked: bool, v: string): (string, int) {
    if marked then
      var t1 := AppendedText(t, l, "<cursor>");
      var t2 := AppendedText(t1, l - 8, v);
      (AppendedText(t2, l - 8 - |v|, "</cursor>"), l - 17 - |v|)
    else
      (AppendedText(t, l, v), l - |v|)
  }

  lemma MarkedFillExact(t: string, l: int, marked: bool, v: string)
    requires 2 * |Decorated(false, marked, v)| <= l
    ensures MarkedFill(t, l, marked, v) == (t + Decorated(false, marked, v), l - |Decorated(false, marked, v)|)
  {
    if marked {
      var t1 := t + "<cursor>";
      var t2 := t1 + v;
      assert AppendedText(t, l, "<cursor>") == t1;
      assert AppendedText(t1, l - 8, v) == t2;
      assert AppendedText(t2, l - 8 - |v|, "</cursor>") == t2 + "</cursor>";
      assert t2 + "</cursor>" == t + Decorated(false, marked, v);
    } else {
      assert Decorated(false, marked, v) == v;
    }
  }

  /** C's int. */
  predicate IsInt32(v: int) {
    -0x8000_0000 <= v < 0x8000_0000
  }

  /** Every number the state holds fits a C int. */
  predicate Int32State(s: State) {
    WellFormed(s) &&
    (forall i: Field :: IsInt32(s.values[i])) &&
    IsInt32(s.half) && IsInt32(s.rollback)
  }

  lemma StepKeepsInt32(s: State, k: Key)
    requires Int32State(s)
    requires k.Digit? ==> 0 <= k.code <= 9
    ensures Int32State(Step(s, k).next)
  {
  }

  lemma IntTextIsShort(v: int)
    requires IsInt32(v)
    ensures |FormatInt(v)| <= 11 && |FormatPadded2(v)| <= 11
  {
    assert Pow10(10) == 10_000_000_000;
    if v < 0 {
      DecimalLength(-v, 10);
    } else {
      DecimalLength(v, 10);
    }
  }

  /** With a budget of at least twice the field's text, `_append_value`
      adds exactly that text. */
  lemma ValueFillExact(t0: string, l0: int, yearPrefix: bool, marked: bool, v: string)
    requires 2 * |Decorated(yearPrefix, marked, v)| <= l0
    ensures ValueFill(t0, l0, yearPrefix, marked, v) ==
      (t0 + Decorated(yearPrefix, marked, v), l0 - |Decorated(yearPrefix, marked, v)|)
  {
    var d := Decorated(false, marked, v);
    if yearPrefix {
      assert Decorated(yearPrefix, marked, v) == "20" + d;
      assert AppendedText(t0, l0, "20") == t0 + "20";
      MarkedFillExact(t0 + "20", l0 - 2, marked, v);
      assert t0 + "20" + d == t0 + ("20" + d);
    } else {
      assert Decorated(yearPrefix, marked, v) == d;
      MarkedFillExact(t0, l0, marked, v);
    }
  }

  /** `_append_value` of value text v followed by `_append` of sep, from
      text t and budget l. */
  function PieceFill(t: string, l: int, yearPrefix: bool, marked: bool, v: string, sep: string): (string, int) {
    var p := ValueFill(t, l, yearPrefix, marked, v);
    (AppendedText(p.0, p.1, sep), p.1 - |sep|)
  }

  /** The same for field i of state s. */
  function FieldPiece(s: State, i: Field, sep: string, t: string, l: int): (string, int)
    requires WellFormed(s)
  {
    PieceFill(t, l, i == Year, s.cursor == i, ValueText(s, i), sep)
  }

  /** The date line as draw's appends leave it in the buffer. */
  function DrawnDate(s: State): string
    requires WellFormed(s)
  {
    var p1 := FieldPiece(s, Year, " - ", [], Capacity);
    var p2 := FieldPiece(s, Month, " - ", p1.0, p1.1);
    FieldPiece(s, Day, " ", p2.0, p2.1).0
  }

  /** The time line as draw's appends leave it in the buffer. */
  function DrawnTime(s: State): string
    requires WellFormed(s)
  {
    var p1 := FieldPiece(s, Hour, " : ", [], Capacity);
    FieldPiece(s, Minute, " ", p1.0, p1.1).0
  }

  /** The buffer's bound: the text is shorter than the buffer and the
      budget never overstates the room left. */
  predicate Fits(t: string, l: int) {
    |t| < Capacity && |t| + l <= Capacity
  }

  lemma MarkedFillFits(t: string, l: int, marked: bool, v: string)
    requires Fits(t, l)
    ensures var p := MarkedFill(t, l, marked, v); Fits(p.0, p.1)
  {
    if marked {
      var t1 := AppendedText(t, l, "<cursor>");
      AppendStaysInBuffer(t, l, "<cursor>");
      var t2 := AppendedText(t1, l - 8, v);
      AppendStaysInBuffer(t1, l - 8, v);
      AppendStaysInBuffer(t2, l - 8 - |v|, "</cursor>");
    } else {
      AppendStaysInBuffer(t, l, v);
    }
  }

  /** A field and its separator keep the buffer's bound, whatever the
      field's text. */
  lemma PieceFillFits(t: string, l: int, yearPrefix: bool, marked: bool, v: string, sep: string)
    requires Fits(t, l)
    ensures var p := PieceFill(t, l, yearPrefix, marked, v, sep); Fits(p.0, p.1)
  {
    var t0, l0 := t, l;
    if yearPrefix {
      AppendStaysInBuffer(t, l, "20");
      t0, l0 := AppendedText(t, l, "20"), l - 2;
    }
    MarkedFillFits(t0, l0, marked, v);
    var p := ValueFill(t, l, yearPrefix, marked, v);
    AppendStaysInBuffer(p.0, p.1, sep);
  }

  /** draw never writes past its buffer: for every state, whatever the
      values, both lines and their NUL fit in the 1024 characters. */
  lemma DrawnLinesFit(s: State)
    requires WellFormed(s)
    ensures |DrawnDate(s)| < Capacity && |DrawnTime(s)| < Capacity
  {
    var p1 := FieldPiece(s, Year, " - ", [], Capacity);
    PieceFillFits([], Capacity, true, s.cursor == Year, ValueText(s, Year), " - ");
    var p2 := FieldPiece(s, Month, " - ", p1.0, p1.1);
    PieceFillFits(p1.0, p1.1, false, s.cursor == Month, ValueText(s, Month), " - ");
    PieceFillFits(p2.0, p2.1, false, s.cursor == Day, ValueText(s, Day), " ");
    var q1 := FieldPiece(s, Hour, " : ", [], Capacity);
    PieceFillFits([], Capacity, false, s.cursor == Hour, ValueText(s, Hour), " : ");
    PieceFillFits(q1.0, q1.1, false, s.cursor == Minute, ValueText(s, Minute), " ");
  }

  /** With room for both whole, a value and its separator are added
      exactly. */
  lemma PieceFillExact(t: string, l: int, yearPrefix: bool, marked: bool, v: string, sep: string)
    requires 2 * (|Decorated(yearPrefix, marked, v)| + |sep|) <= l
    ensures PieceFill(t, l, yearPrefix, marked, v, sep) ==
      (t + (Decorated(yearPrefix, marked, v) + sep), l - |Decorated(yearPrefix, marked, v)| - |sep|)
  {
    var f := Decorated(yearPrefix, marked, v);
    ValueFillExact(t, l, yearPrefix, marked, v);
    assert AppendedText(t + f, l - |f|, sep) == t + f + sep;
    assert t + f + sep == t + (f + sep);
  }

  /** A field's value text is at most 12 characters, so its decorated text
      is at most 31. */
  lemma ValueTextIsShort(s: State, i: Field)
    requires Int32State(s)
    ensures |ValueText(s, i)| <= 12
    ensures |FieldText(s, i)| <= 31
  {
    IntTextIsShort(s.half);
    IntTextIsShort(s.values[i]);
  }

  /** No piece of draw's output is ever cut short: with every number a C int
      the buffer receives exactly the date line ... */
  lemma DrawnDateIsExact(s: State)
    requires Int32State(s)
    ensures DrawnDate(s) == DateLine(s)
  {
    var y, mo, d := FieldText(s, Year), FieldText(s, Month), FieldText(s, Day);
    FieldPieceExact(s, Year, " - ", [], Capacity);
    var p1 := FieldPiece(s, Year, " - ", [], Capacity);
    FieldPieceExact(s, Month, " - ", p1.0, p1.1);
    var p2 := FieldPiece(s, Month, " - ", p1.0, p1.1);
    FieldPieceExact(s, Day, " ", p2.0, p2.1);
    Regroup(y, " - ", mo, " - ", d, " ");
  }

  /** ... and exactly the time line. */
  lemma DrawnTimeIsExact(s: State)
    requires Int32State(s)
    ensures DrawnTime(s) == TimeLine(s)
  {
    var h, mi := FieldText(s, Hour), FieldText(s, Minute);
    FieldPieceExact(s, Hour, " : ", [], Capacity);
    var p1 := FieldPiece(s, Hour, " : ", [], Capacity);
    FieldPieceExact(s, Minute, " ", p1.0, p1.1);
    Regroup4(h, " : ", mi, " ");
  }

  /** One field and its separator, with a budget that leaves room for the
      longest field text. */
  lemma FieldPieceExact(s: State, i: Field, sep: string, t: string, l: int)
    requires Int32State(s) && |sep| <= 3 && 68 <= l
    ensures FieldPiece(s, i, sep, t, l) ==
      (t + (FieldText(s, i) + sep), l - |FieldText(s, i)| - |sep|)
    ensures l - |FieldText(s, i)| - |sep| >= l - 34
  {
    ValueTextIsShort(s, i);
    PieceFillExact(t, l, i == Year, s.cursor == i, ValueText(s, i), sep);
  }

  lemma Regroup4(a: string, b: string, c: string, d: string)
    ensures a + b + c + d == [] + (a + b) + (c + d)
  {
  }

  lemma Regroup(a: string, b: string, c: string, d: string, e: string, f: string)
    ensures a + b + c + d + e + f == [] + (a + b) + (c + d) + (e + f)
  {
  }

  /** Each field not being entered shows as two digits that read back as
      its value. */
  lemma SettledFieldShowsTwoDigits(s: State, i: Field)
    requires Inv(s) && !(s.cursor == i && s.halfMode)
    ensures var v := ValueText(s, i);
      |v| == 2 && AllDigits(v) && ParseInt(v) == s.values[i]
  {
    assert InRange(i, s.values[i]);
    FormatRoundTrip(s.values[i]);
  }

  lemma PaddedExamples()
    ensures FormatPadded2(15) == "15" && FormatPadded2(3) == "03" && FormatPadded2(7) == "07"
  {
  }

  /** Year 15, Month 3, Day 7 with the cursor on Month and no pending digit. */
  lemma DateLineExample(s: State)
    requires WellFormed(s) && s.values[Year] == 15 && s.values[Month] == 3 && s.values[Day] == 7
    requires s.cursor == Month && !s.halfMode
    ensures DateLine(s) == "2015 - <cursor>03</cursor> - 07 "
  {
    PaddedExamples();
    assert FieldText(s, Year) == "2015";
    assert FieldText(s, Month) == "<cursor>03</cursor>";
    assert FieldText(s, Day) == "07";
  }

  /** A pending first digit shows as that digit and a space inside the
      marker. */
  lemma HalfModeShowsPendingDigit(s: State)
    requires Inv(s) && s.halfMode
    ensures FieldText(s, s.cursor) ==
      (if s.cursor == Year then "20" else "") + "<cursor>" + [DigitChar(s.half), ' '] + "</cursor>"
  {
  }
}
