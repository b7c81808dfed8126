/**
 * Worked examples of the two commands on a folder of "YY-MM-DD" notes, decoded with the
 * reference decoder.  Each method calls a command and is proved to end in the one action stated.
 */
module Scenarios {
  import opened Wrappers
  import opened Navigator
  import DateCodec

  /** A folder with three dated notes, a note whose name is not a date, and a dated image. */
  function JanuaryFolder(): seq<Entry>
  {
    [Entry("24-01-05", "md"), Entry("24-01-10", "md"), Entry("todo", "md"),
     Entry("24-01-12", "png"), Entry("24-01-15", "md")]
  }

  /** Reads the name of a note of January 2024, "24-01-" followed by two digits, with the reference decoder. */
  lemma ReadJanuaryName(tens: char, units: char)
    requires DateCodec.IsDigit(tens) && DateCodec.IsDigit(units)
    requires 1 <= 10 * DateCodec.DigitValue(tens) + DateCodec.DigitValue(units) <= 31
    ensures DateCodec.Parse("24-01-" + [tens, units]) ==
            Some(DateCodec.Date(2024, 1, 10 * DateCodec.DigitValue(tens) + DateCodec.DigitValue(units)))
  {
  }

  /** What a decoder must give for the January folder: "todo" is no date, and 5 < 10 < 15 January. */
  predicate JanuaryDecoding(decode: string -> Option<int>)
  {
    decode("todo") == None &&
    decode("24-01-05").Some? && decode("24-01-10").Some? && decode("24-01-15").Some? &&
    decode("24-01-05").value < decode("24-01-10").value < decode("24-01-15").value
  }

  /** The reference decoder reads the January folder that way. */
  lemma JanuaryDates()
    ensures JanuaryDecoding(DateCodec.Decode)
  {
    var d5, d10, d15 := DateCodec.Date(2024, 1, 5), DateCodec.Date(2024, 1, 10), DateCodec.Date(2024, 1, 15);
    ReadJanuaryName('0', '5');
    assert "24-01-" + ['0', '5'] == "24-01-05";
    ReadJanuaryName('1', '0');
    assert "24-01-" + ['1', '0'] == "24-01-10";
    ReadJanuaryName('1', '5');
    assert "24-01-" + ['1', '5'] == "24-01-15";
    DateCodec.DayNumberIsMonotone(d5, d10);
    DateCodec.DayNumberIsMonotone(d10, d15);
  }

  /** In the January folder, only the note of 15 January is later than the note of 10 January. */
  lemma JanuaryLater(decode: string -> Option<int>, j: int)
    requires JanuaryDecoding(decode)
    ensures Later(JanuaryFolder(), "24-01-10", decode, j) <==> j == 4
  {
    var folder := JanuaryFolder();
    if j == 0 {
      assert folder[0].basename == "24-01-05";
    } else if j == 1 {
      assert folder[1].basename == "24-01-10";
    } else if j == 2 {
      assert folder[2].basename == "todo";
    } else if j == 3 {
      assert folder[3].extension == "png";
    } else if j == 4 {
      assert folder[4] == Entry("24-01-15", "md");
    }
  }

  /** In the January folder, only the note of 5 January is earlier than the note of 10 January. */
  lemma JanuaryEarlier(decode: string -> Option<int>, j: int)
    requires JanuaryDecoding(decode)
    ensures Earlier(JanuaryFolder(), "24-01-10", decode, j) <==> j == 0
  {
    var folder := JanuaryFolder();
    if j == 0 {
      assert folder[0] == Entry("24-01-05", "md");
    } else if j == 1 {
      assert folder[1].basename == "24-01-10";
    } else if j == 2 {
      assert folder[2].basename == "todo";
    } else if j == 3 {
      assert folder[3].extension == "png";
    } else if j == 4 {
      assert folder[4].basename == "24-01-15";
    }
  }

  /** From the note of 10 January, "Go to next file" opens the note of 15 January. */
  method NextInJanuary() returns (action: Action)
    ensures action == OpenFile(4)
  {
    var folder := JanuaryFolder();
    JanuaryDates();
    forall j ensures Later(folder, "24-01-10", DateCodec.Decode, j) <==> j == 4 {
      JanuaryLater(DateCodec.Decode, j);
    }
    assert IsNext(folder, "24-01-10", DateCodec.Decode, 4);
    action := GoToNextFile(folder, "24-01-10", DateCodec.Decode);
    NextIsUnique(folder, "24-01-10", DateCodec.Decode, action.index, 4);
  }

  /** From the note of 10 January, "Go to previous file" opens the note of 5 January. */
  method PreviousInJanuary() returns (action: Action)
    ensures action == OpenFile(0)
  {
    var folder := JanuaryFolder();
    JanuaryDates();
    forall j ensures Earlier(folder, "24-01-10", DateCodec.Decode, j) <==> j == 0 {
      JanuaryEarlier(DateCodec.Decode, j);
    }
    assert IsPrevious(folder, "24-01-10", DateCodec.Decode, 0);
    action := GoToPreviousFile(folder, "24-01-10", DateCodec.Decode);
    PreviousIsUnique(folder, "24-01-10", DateCodec.Decode, action.index, 0);
  }

  /** Beside only the note of 15 January, nothing is earlier than the note of 10 January. */
  lemma NothingEarlierThanLater(decode: string -> Option<int>, j: int)
    requires JanuaryDecoding(decode)
    ensures !Earlier([Entry("24-01-15", "md")], "24-01-10", decode, j)
  {
    if j == 0 {
      assert [Entry("24-01-15", "md")][0].basename == "24-01-15";
    }
  }

  /** With only a later note beside it, the note of 10 January has no previous file. */
  method NoPreviousInJanuary() returns (action: Action)
    ensures action == ShowNotice("No previous file!")
  {
    var folder := [Entry("24-01-15", "md")];
    JanuaryDates();
    forall j ensures !Earlier(folder, "24-01-10", DateCodec.Decode, j) {
      NothingEarlierThanLater(DateCodec.Decode, j);
    }
    action := GoToPreviousFile(folder, "24-01-10", DateCodec.Decode);
  }

  /** A note whose own name is not a date has neither a next nor a previous file. */
  method NoNeighbourForUndatedNote() returns (next: Action, previous: Action)
    ensures next == ShowNotice("No next file!")
    ensures previous == ShowNotice("No previous file!")
  {
    JanuaryDates();
    next := GoToNextFile(JanuaryFolder(), "todo", DateCodec.Decode);
    previous := GoToPreviousFile(JanuaryFolder(), "todo", DateCodec.Decode);
  }
}
