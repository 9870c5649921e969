/**
 The student record: identity, year of study, mark history and degree
 classification, with its year-by-year state machine.

 A record is created in some year of study with the marks of every earlier
 year already drawn. Each advance moves the year on by one and records the
 marks of the year just completed; once the year passes `TotalYears` the
 student graduates and the classification is computed from the history.
 Nothing stops a graduated record from being advanced again: it records one
 more mark set and recomputes the classification, which comes out the same.
 */
module Students {
  import opened Outcomes
  import opened Marks
  import opened Classification

  /** The record; `year` is the year of study in progress, `marks` the completed years in order. */
  datatype Student = Student(
    id: int,
    forename: string,
    surname: string,
    degreeTitle: string,
    year: int,
    classification: Degree,
    marks: seq<seq<int>>)

  /** The fields that never change after construction agree. */
  predicate SameIdentity(a: Student, b: Student) {
    a.id == b.id && a.forename == b.forename && a.surname == b.surname && a.degreeTitle == b.degreeTitle
  }

  /** Every recorded mark set is one the generator can produce. */
  predicate ValidHistory(marks: seq<seq<int>>) {
    forall k | 0 <= k < |marks| :: ValidMarkSet(marks[k])
  }

  /**
   What holds of every record the constructor and `IncrementYear` can produce:
   the history covers at least the completed years, every set is valid, the
   classification stays `Pending` up to the final year, and once set it is the
   classification of the history.
   */
  predicate WellFormed(s: Student) {
    && s.year - 1 <= |s.marks|
    && ValidHistory(s.marks)
    && (s.year <= TotalYears ==> s.classification == Pending)
    && (s.classification == Pending || Classify(s.marks) == Success(s.classification))
  }

  /** A record started in year 1 or later: exactly one mark set per completed year. */
  predicate YearsInStep(s: Student) {
    s.year >= 1 && |s.marks| == s.year - 1 && ValidHistory(s.marks)
  }

  /** Number of mark sets the constructor draws for a record starting in `year`. */
  function PriorYears(year: int): nat {
    if year > 1 then year - 1 else 0
  }

  /** The raw draws that make up the `k`-th mark set drawn by the constructor. */
  function Block(draws: seq<nat>, k: nat): seq<nat>
    requires (k + 1) * ModulesPerYear <= |draws|
  {
    draws[k * ModulesPerYear .. (k + 1) * ModulesPerYear]
  }

  /**
   The constructor: stores the identity and the starting year, sets the
   classification to `Pending`, and draws one mark set for each year before
   the starting one, consuming the raw draws `draws` in order. A starting year
   of 1 or less draws nothing; a starting year past the final one does not
   graduate the student.
   */
  method Create(id: int, forename: string, surname: string, degreeTitle: string, year: int, draws: seq<nat>)
    returns (s: Student)
    requires |draws| >= ModulesPerYear * PriorYears(year)
    ensures s.id == id && s.forename == forename && s.surname == surname && s.degreeTitle == degreeTitle
    ensures s.year == year && s.classification == Pending
    ensures |s.marks| == PriorYears(year)
    ensures year <= 1 ==> s.marks == []
    ensures forall k | 0 <= k < |s.marks| :: s.marks[k] == Drawn(Block(draws, k))
    ensures WellFormed(s)
    ensures year >= 1 ==> YearsInStep(s)
  {
    var marks: seq<seq<int>> := [];
    var i := 0;
    while i < year - 1
      invariant 0 <= i <= PriorYears(year)
      invariant |marks| == i
      invariant ValidHistory(marks)
      invariant forall k | 0 <= k < i :: marks[k] == Drawn(Block(draws, k))
    {
      var ms := GenerateMarks(draws[i * ModulesPerYear ..]);
      assert draws[i * ModulesPerYear ..][..ModulesPerYear] == Block(draws, i);
      marks := marks + [ms];
      i := i + 1;
    }
    s := Student(id, forename, surname, degreeTitle, year, Pending, marks);
  }

  /**
   Graduation (its state part): computes the classification from the history.
   Fails, as the array reads of `Student.java` do, when the history lacks a year or a
   module the computation reads.
   */
  function Graduate(s: Student): (r: Result<Student>)
    ensures r.Success? <==> Complete(s.marks)
    ensures r.Failure? ==> r == Failure(Classify(s.marks).fault)
    ensures r.Success? ==> r.value == s.(classification := r.value.classification)
    ensures r.Success? ==> r.value.classification == Tier(OverallMark(s.marks)) != Pending
  {
    match Classify(s.marks)
    case Success(d) => Success(s.(classification := d))
    case Failure(f) => Failure(f)
  }

  /**
   Advances the record by one year: the year goes up by one, `completed` (the
   marks drawn for the year just finished) is appended, and the student
   graduates when the new year is past the final one.
   */
  function IncrementYear(s: Student, completed: seq<int>): (r: Result<Student>)
    ensures r.Failure? <==> s.year + 1 > TotalYears && !Complete(s.marks + [completed])
    ensures r.Success? ==> SameIdentity(r.value, s)
    ensures r.Success? ==> r.value.year == s.year + 1 && r.value.marks == s.marks + [completed]
    ensures r.Success? && s.year + 1 <= TotalYears ==> r.value.classification == s.classification
    ensures r.Success? && s.year + 1 > TotalYears ==>
              r.value.classification == Tier(OverallMark(s.marks + [completed])) != Pending
  {
    var next := s.(year := s.year + 1, marks := s.marks + [completed]);
    if next.year > TotalYears then Graduate(next) else Success(next)
  }

  /** Advances the record once per mark set in `sets`, stopping at the first fault. */
  function Advance(s: Student, sets: seq<seq<int>>): Result<Student>
    decreases |sets|
  {
    if sets == [] then Success(s)
    else
      match IncrementYear(s, sets[0])
      case Failure(f) => Failure(f)
      case Success(t) => Advance(t, sets[1..])
  }

  // ---------------------------------------------------------------------------
  // The state machine

  /** Advancing a well-formed record with a valid mark set succeeds and keeps it well-formed. */
  lemma IncrementPreservesWellFormed(s: Student, completed: seq<int>)
    requires WellFormed(s) && ValidMarkSet(completed)
    ensures IncrementYear(s, completed).Success?
    ensures WellFormed(IncrementYear(s, completed).value)
  {
    var marks := s.marks + [completed];
    assert ValidHistory(marks) by {
      assert forall k | 0 <= k < |s.marks| :: marks[k] == s.marks[k];
    }
    if s.year + 1 > TotalYears {
      assert Complete(marks);
    } else if s.classification != Pending {
      ClassifyIgnoresLaterYears(s.marks, [completed]);
    }
  }

  /** Advancing keeps exactly one mark set per completed year. */
  lemma IncrementKeepsYearsInStep(s: Student, completed: seq<int>)
    requires YearsInStep(s) && ValidMarkSet(completed)
    ensures IncrementYear(s, completed).Success?
    ensures YearsInStep(IncrementYear(s, completed).value)
  {
    var marks := s.marks + [completed];
    assert ValidHistory(marks) by {
      assert forall k | 0 <= k < |s.marks| :: marks[k] == s.marks[k];
    }
    if s.year + 1 > TotalYears {
      assert Complete(marks);
    }
  }

  /** Advancing once per valid mark set: the year and the history move in step. */
  lemma {:induction false} AdvancePreservesWellFormed(s: Student, sets: seq<seq<int>>)
    requires WellFormed(s) && ValidHistory(sets)
    ensures Advance(s, sets).Success?
    ensures var t := Advance(s, sets).value;
            && SameIdentity(t, s) && t.year == s.year + |sets| && t.marks == s.marks + sets
            && WellFormed(t)
    decreases |sets|
  {
    if sets != [] {
      IncrementPreservesWellFormed(s, sets[0]);
      var t := IncrementYear(s, sets[0]).value;
      assert ValidHistory(sets[1..]) by {
        assert forall k | 0 <= k < |sets| - 1 :: sets[1..][k] == sets[k + 1];
      }
      AdvancePreservesWellFormed(t, sets[1..]);
      assert s.marks + [sets[0]] + sets[1..] == s.marks + sets;
    }
  }

  /** A record freshly started in year 1 (what the constructor returns for year 1). */
  predicate FirstYearRecord(s: Student) {
    s.year == 1 && s.marks == [] && s.classification == Pending
  }

  /**
   From year 1, the classification stays `Pending` through the first
   `TotalYears - 1` advances; the advance that completes the final year
   graduates the student with the classification of the three recorded years.
   */
  lemma GraduatesAfterFinalYear(s: Student, sets: seq<seq<int>>)
    requires FirstYearRecord(s) && ValidHistory(sets) && |sets| <= TotalYears
    ensures Advance(s, sets).Success?
    ensures var t := Advance(s, sets).value;
            && t.year == 1 + |sets| && t.marks == sets
            && (t.classification == Pending <==> |sets| < TotalYears)
            && (|sets| == TotalYears ==> t.classification == Tier(OverallMark(sets)))
  {
    AdvancePreservesWellFormed(s, sets);
    var t := Advance(s, sets).value;
    assert t.marks == sets;
    if |sets| == TotalYears {
      assert Complete(sets);
      assert t.classification != Pending by {
        AdvanceLastStepGraduates(s, sets);
      }
    }
  }

  /** The advance that takes a well-formed record past the final year sets a classification. */
  lemma {:induction false} AdvanceLastStepGraduates(s: Student, sets: seq<seq<int>>)
    requires WellFormed(s) && ValidHistory(sets) && sets != []
    requires s.year + |sets| > TotalYears
    ensures Advance(s, sets).Success? && Advance(s, sets).value.classification != Pending
    decreases |sets|
  {
    IncrementPreservesWellFormed(s, sets[0]);
    var t := IncrementYear(s, sets[0]).value;
    assert ValidHistory(sets[1..]) by {
      assert forall k | 0 <= k < |sets| - 1 :: sets[1..][k] == sets[k + 1];
    }
    if |sets| == 1 {
      assert sets[1..] == [];
    } else {
      AdvanceLastStepGraduates(t, sets[1..]);
    }
  }

  /**
   Advancing a graduated record again appends the mark set and leaves the
   classification as it was: the recomputation reads only the first
   `TotalYears` sets, which have not changed.
   */
  lemma RepeatGraduationKeepsClassification(s: Student, completed: seq<int>)
    requires WellFormed(s) && s.year > TotalYears && s.classification != Pending
    ensures IncrementYear(s, completed) == Success(s.(year := s.year + 1, marks := s.marks + [completed]))
  {
    ClassifyIgnoresLaterYears(s.marks, [completed]);
  }

  /**
   `Graduate` can be called directly, and does not preserve `WellFormed`: a
   record started in year 0 has three mark sets after three advances, while
   still in year 3, and graduating it then sets a classification before the
   final year is over.
   */
  lemma DirectGraduationCanComeEarly(id: int, forename: string, surname: string, degreeTitle: string)
    ensures var s := Student(id, forename, surname, degreeTitle, 0, Pending, []);
            var sets := Uniform(70);
            && WellFormed(s)
            && Advance(s, sets).Success?
            && Advance(s, sets).value.year == TotalYears
            && Graduate(Advance(s, sets).value) == Success(Advance(s, sets).value.(classification := FirstClass))
            && !WellFormed(Graduate(Advance(s, sets).value).value)
  {
    var s := Student(id, forename, surname, degreeTitle, 0, Pending, []);
    var sets := Uniform(70);
    assert ValidHistory(sets) by {
      forall k | 0 <= k < |sets|
        ensures ValidMarkSet(sets[k])
      {
        assert forall j | 0 <= j < |sets[k]| :: sets[k][j] == 70;
      }
    }
    AdvancePreservesWellFormed(s, sets);
    var t := Advance(s, sets).value;
    assert t.marks == sets;
    UniformMark(70);
    assert Graduate(t).value.classification == Tier(70) == FirstClass;
  }

  // ---------------------------------------------------------------------------
  // The details report (its branches, not its text)

  /** The first line of the details report. */
  datatype Header =
    | GraduateHeader(id: int, fullName: string, classification: Degree, degreeTitle: string)
    | YearHeader(id: int, fullName: string, year: int, degreeTitle: string)

  /** The marks part of the details report. */
  datatype Listing =
    | NoModulesYet(fullName: string)
    | MarkList(fullName: string, years: seq<seq<int>>)

  datatype Details = Details(header: Header, listing: Listing)

  /** Forename and surname separated by one space; both parts can be read back from it. */
  function FullName(s: Student): (name: string)
    ensures |name| == |s.forename| + 1 + |s.surname|
    ensures name[..|s.forename|] == s.forename && name[|s.forename|] == ' '
    ensures name[|s.forename| + 1..] == s.surname
  {
    s.forename + " " + s.surname
  }

  /** The header reports graduation exactly when the year is past the final one. */
  function DetailsHeader(s: Student): (h: Header)
    ensures h.GraduateHeader? <==> s.year > TotalYears
  {
    if s.year > TotalYears then GraduateHeader(s.id, FullName(s), s.classification, s.degreeTitle)
    else YearHeader(s.id, FullName(s), s.year, s.degreeTitle)
  }

  /**
   The marks listing: nothing in year 1, otherwise the mark sets of the years
   before the current one, in order. Fails when the history is shorter than
   that.
   */
  function MarksListing(s: Student): (r: Result<Listing>)
    ensures r.Success? <==> s.year == 1 || s.year - 1 <= |s.marks|
    ensures r.Success? ==> (r.value.NoModulesYet? <==> s.year == 1)
    ensures r.Success? && r.value.MarkList? ==>
              |r.value.years| == PriorYears(s.year) && r.value.years <= s.marks
  {
    if s.year == 1 then Success(NoModulesYet(FullName(s)))
    else if s.year - 1 <= |s.marks| then Success(MarkList(FullName(s), s.marks[..PriorYears(s.year)]))
    else Failure(MissingYear(|s.marks|))
  }

  /**
   The details report: header, then marks listing. It fails only when the
   listing does, and its two branches are decided by the year alone.
   */
  function ReportDetails(s: Student): (r: Result<Details>)
    ensures r.Success? <==> s.year == 1 || s.year - 1 <= |s.marks|
    ensures r.Success? ==> (r.value.header.GraduateHeader? <==> s.year > TotalYears)
    ensures r.Success? ==> (r.value.listing.NoModulesYet? <==> s.year == 1)
    ensures r.Success? && r.value.header.GraduateHeader? ==> r.value.header.classification == s.classification
  {
    match MarksListing(s)
    case Success(l) => Success(Details(DetailsHeader(s), l))
    case Failure(f) => Failure(f)
  }

  /**
   For a record with one mark set per completed year, the report always
   succeeds and lists every recorded set, in order.
   */
  lemma ReportListsWholeHistory(s: Student)
    requires YearsInStep(s)
    ensures ReportDetails(s).Success?
    ensures s.year == 1 ==> ReportDetails(s).value.listing == NoModulesYet(FullName(s))
    ensures s.year > 1 ==> ReportDetails(s).value.listing == MarkList(FullName(s), s.marks)
  {
    assert s.marks[..|s.marks|] == s.marks;
  }

  /** After the final year from year 1, the report shows a graduate with an honours degree. */
  lemma GraduateReportAfterFinalYear(s: Student, sets: seq<seq<int>>)
    requires FirstYearRecord(s) && ValidHistory(sets) && |sets| == TotalYears
    ensures Advance(s, sets).Success?
    ensures var t := Advance(s, sets).value;
            ReportDetails(t) == Success(Details(
              GraduateHeader(s.id, FullName(s), Tier(OverallMark(sets)), s.degreeTitle),
              MarkList(FullName(s), sets)))
  {
    GraduatesAfterFinalYear(s, sets);
    AdvancePreservesWellFormed(s, sets);
    var t := Advance(s, sets).value;
    assert t.marks[..PriorYears(t.year)] == sets;
  }
}
