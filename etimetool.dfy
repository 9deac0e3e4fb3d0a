/** The dialog's process-wide state and the routines of the key handler
    that update it in place, each proved against the specification in
    module Machine. */
module EtimeTool {
  import opened Fields
  import opened Keys
  import opened Format
  import opened TextBuf
  import opened Machine

  /** What the key handler leaves for the host: nothing (the key was
      refused before draw ran) or the two lines draw set. */
  datatype Outcome = Ignored | Redrawn(date: string, time: string)

  class DateTimeEntry {
    const values: array<int>
    var cursor: Field
    var half: int
    var halfMode: bool
    var rollback: int
    /** ecore_main_loop_quit has been called. */
    var quitRequested: bool
    /** The values handed to set_clock, one entry per call. */
    var commits: seq<DateTime>
    /** buf and limit. */
    const out: TextBuffer

    ghost predicate Valid()
      reads this, values, out, out.data
    {
      values.Length == FieldCount && out.Valid() &&
      (forall i :: 0 <= i < FieldCount ==> IsInt32(values[i])) &&
      IsInt32(half) && IsInt32(rollback)
    }

    /** The entry state as the specification sees it. */
    function Model(): (s: State)
      reads this, values
      requires values.Length == FieldCount
      ensures WellFormed(s)
    {
      State(values[..], cursor, half, halfMode, rollback)
    }

    /** The static initialisers: all zero, cursor on Year, no half mode. */
    constructor ()
      ensures Valid() && fresh(values) && fresh(out) && fresh(out.data)
      ensures Model() == State([0, 0, 0, 0, 0], Year, 0, false, 0)
      ensures !quitRequested && commits == []
      ensures out.Text() == [] && out.limit == Capacity
    {
      values := new int[FieldCount](_ => 0);
      cursor := Year;
      half := 0;
      halfMode := false;
      rollback := 0;
      quitRequested := false;
      commits := [];
      out := new TextBuffer();
      new;
      assert values[..] == [0, 0, 0, 0, 0];
    }

    /** cursor_fwd. */
    method CursorFwd()
      requires Valid()
      modifies this`cursor
      ensures Valid()
      ensures cursor == NextField(old(cursor))
    {
      if cursor == Minute {
        cursor := Year;
      } else {
        cursor := cursor + 1;
      }
    }

    /** cursor_back. */
    method CursorBack()
      requires Valid()
      modifies this`cursor
      ensures Valid()
      ensures cursor == PrevField(old(cursor))
    {
      if cursor == Year {
        cursor := Minute;
      } else {
        cursor := cursor - 1;
      }
    }

    /** increment: only the selected field changes. */
    method Increment()
      requires Valid()
      modifies values
      ensures Valid()
      ensures values[..] == old(values[..])[cursor := Incremented(cursor, old(values[cursor]))]
    {
      values[cursor] := values[cursor] + 1;
      if values[cursor] > LimitsUp[cursor] {
        values[cursor] := LimitsDown[cursor];
      }
    }

    /** decrement: only the selected field changes. */
    method Decrement()
      requires Valid()
      modifies values
      ensures Valid()
      ensures values[..] == old(values[..])[cursor := Decremented(cursor, old(values[cursor]))]
    {
      values[cursor] := values[cursor] - 1;
      if values[cursor] < LimitsDown[cursor] {
        values[cursor] := LimitsUp[cursor];
      }
    }

    /** reset_input. */
    method ResetInput()
      requires Valid()
      modifies this`halfMode, values
      ensures Valid()
      ensures Model() == RolledBack(old(Model()))
    {
      halfMode := false;
      values[cursor] := rollback;
    }

    /** prepare, with the fields of the local time as parameters. */
    method Prepare(tmYear: int, tmMon: int, tmMday: int, tmHour: int, tmMin: int)
      requires Valid()
      requires IsInt32(tmYear) && IsInt32(tmMon + 1) && IsInt32(tmMday) && IsInt32(tmHour) && IsInt32(tmMin)
      modifies values
      ensures Valid()
      ensures values[..] == Seed(tmYear, tmMon, tmMday, tmHour, tmMin)
      ensures (!halfMode && tmYear <= 199 && 0 <= tmMon <= 11 && 1 <= tmMday <= 31 &&
               0 <= tmHour <= 23 && 0 <= tmMin <= 59) ==> Inv(Model())
    {
      values[Month] := tmMon + 1;
      values[Day] := tmMday;
      values[Hour] := tmHour;
      values[Minute] := tmMin;
      values[Year] := tmYear - 100;
      if values[Year] < 9 {
        values[Year] := 0;
      }
      if !halfMode && tmYear <= 199 && 0 <= tmMon <= 11 && 1 <= tmMday <= 31 &&
        0 <= tmHour <= 23 && 0 <= tmMin <= 59 {
        SeededStateKeepsInvariant(tmYear, tmMon, tmMday, tmHour, tmMin, cursor, half, rollback);
        assert Model() == State(Seed(tmYear, tmMon, tmMday, tmHour, tmMin), cursor, half, false, rollback);
      }
    }

    /** save_and_exit: hand the five values to the clock, then quit. */
    method SaveAndExit()
      requires Valid()
      modifies this`commits, this`quitRequested
      ensures Valid()
      ensures commits == old(commits) + [Committed(values[..])]
      ensures quitRequested
    {
      commits := commits + [DateTime(values[Year], values[Month], values[Day], values[Hour], values[Minute])];
      quitRequested := true;
    }

    /** _append_value. */
    method AppendValue(index: Field)
      requires values.Length == FieldCount && out.Valid()
      modifies out, out.data
      ensures out.Valid()
      ensures (out.Text(), out.limit) ==
        ValueFill(old(out.Text()), old(out.limit), index == Year, cursor == index, ValueText(Model(), index))
    {
      if index == Year {
        out.Append("20");
      }
      var s := if cursor == index && halfMode then FormatInt(half) + " " else FormatPadded2(values[index]);
      AppendMarked(cursor == index, s);
    }

    /** The second half of `_append_value`: the value, inside the cursor
        marker when `marked`. */
    method AppendMarked(marked: bool, v: string)
      requires out.Valid() && NoNul(v)
      modifies out, out.data
      ensures out.Valid()
      ensures (out.Text(), out.limit) == MarkedFill(old(out.Text()), old(out.limit), marked, v)
    {
      if marked {
        out.Append("<cursor>");
        out.Append(v);
        out.Append("</cursor>");
      } else {
        out.Append(v);
      }
    }

    /** draw: the date line, then the time line, each built in the emptied
        buffer; the two strings are what draw hands to the display. */
    method Draw() returns (date: string, time: string)
      requires Valid()
      modifies out, out.data
      ensures Valid()
      ensures date == DateLine(Model()) && time == TimeLine(Model())
    {
      date := DrawDate();
      time := DrawTime();
      DrawnDateIsExact(Model());
      DrawnTimeIsExact(Model());
    }

    /** The first half of draw: Year, Month and Day into the emptied buffer. */
    method DrawDate() returns (date: string)
      requires values.Length == FieldCount && out.Valid()
      modifies out, out.data
      ensures out.Valid()
      ensures date == DrawnDate(Model())
    {
      out.Reset();
      AppendFieldThen(Year, " - ");
      AppendFieldThen(Month, " - ");
      AppendFieldThen(Day, " ");
      date := out.Text();
    }

    /** The second half of draw: Hour and Minute into the emptied buffer. */
    method DrawTime() returns (time: string)
      requires values.Length == FieldCount && out.Valid()
      modifies out, out.data
      ensures out.Valid()
      ensures time == DrawnTime(Model())
    {
      out.Reset();
      AppendFieldThen(Hour, " : ");
      AppendFieldThen(Minute, " ");
      time := out.Text();
    }

    /** `_append_value` for one field, then `_append` of the separator that
        follows it. */
    method AppendFieldThen(index: Field, sep: string)
      requires values.Length == FieldCount && out.Valid() && NoNul(sep)
      modifies out, out.data
      ensures out.Valid()
      ensures (out.Text(), out.limit) == FieldPiece(Model(), index, sep, old(out.Text()), old(out.limit))
    {
      AppendValue(index);
      out.Append(sep);
    }

    /** main_win_key_handler, for the key named `name`. */
    method HandleKey(name: string) returns (o: Outcome)
      requires Valid() && NoNul(name)
      modifies this, values, out, out.data
      ensures Valid()
      ensures var r := Step(old(Model()), Classify(name));
        Model() == r.next &&
        quitRequested == (old(quitRequested) || r.quit) &&
        commits == old(commits) + (if r.commit.Some? then [r.commit.value] else []) &&
        (o.Redrawn? <==> r.redraw) &&
        (o.Redrawn? ==> o.date == DateLine(Model()) && o.time == TimeLine(Model()))
      ensures old(Inv(Model())) ==> Inv(Model())
    {
      ghost var s0 := Model();
      if old(Inv(Model())) {
        StepKeepsInvariant(s0, Classify(name));
      }
      if IsKeypadDigit(name) {
        o := HandleDigit(DigitCode(name));
      } else {
        o := HandleCommand(name);
      }
    }

    /** The keypad-digit part of the handler: first digit or second digit. */
    method HandleDigit(code: int) returns (o: Outcome)
      requires Valid() && 0 <= code <= 9
      modifies this`cursor, this`half, this`halfMode, this`rollback, values, out, out.data
      ensures Valid()
      ensures var r := Step(old(Model()), Digit(code));
        Model() == r.next && !r.quit && r.commit == None &&
        (o.Redrawn? <==> r.redraw) &&
        (o.Redrawn? ==> o.date == DateLine(Model()) && o.time == TimeLine(Model()))
    {
      ghost var s0 := Model();
      StepKeepsInt32(s0, Digit(code));
      if halfMode {
        var res := half * 10 + code;
        if res > LimitsUp[cursor] || res < LimitsDown[cursor] || (res < 9 && cursor == Year) {
          ResetInput();
        } else {
          values[cursor] := res;
          halfMode := false;
          CursorFwd();
        }
      } else {
        if code * 10 > LimitsUp[cursor] {
          return Ignored;
        }
        rollback := values[cursor];
        halfMode := true;
        half := code;
      }
      assert Model() == Step(s0, Digit(code)).next;
      var date, time := Draw();
      o := Redrawn(date, time);
    }

    /** The rest of the handler: Escape requests the quit and falls through;
        in half mode any such key rolls back, otherwise it is dispatched. */
    method HandleCommand(name: string) returns (o: Outcome)
      requires Valid() && !IsKeypadDigit(name)
      modifies this, values, out, out.data
      ensures Valid()
      ensures var r := Step(old(Model()), Classify(name));
        Model() == r.next &&
        quitRequested == (old(quitRequested) || r.quit) &&
        commits == old(commits) + (if r.commit.Some? then [r.commit.value] else []) &&
        o == Redrawn(DateLine(Model()), TimeLine(Model()))
    {
      ghost var s0 := Model();
      ghost var k := Classify(name);
      StepKeepsInt32(s0, k);
      if name == "Escape" {
        quitRequested := true;
      }
      if halfMode {
        ResetInput();
      } else {
        Dispatch(name);
      }
      assert Model() == Step(s0, k).next;
      var date, time := Draw();
      o := Redrawn(date, time);
    }

    /** The if-else chain over the key name outside half mode. */
    method Dispatch(name: string)
      requires Valid() && !IsKeypadDigit(name) && !halfMode
      modifies this`cursor, this`commits, this`quitRequested, values
      ensures Valid()
      ensures var r := Step(old(Model()), Classify(name));
        Model() == r.next &&
        quitRequested == (old(quitRequested) || r.commit.Some?) &&
        commits == old(commits) + (if r.commit.Some? then [r.commit.value] else [])
    {
      if name == "Return" || name == "KP_Return" {
        SaveAndExit();
      } else if name == "Up" || name == "Prior" {
        Increment();
      } else if name == "Down" || name == "Next" {
        Decrement();
      } else if name == "Left" {
        CursorBack();
      } else if name == "Right" {
        CursorFwd();
      }
    }
  }
}
