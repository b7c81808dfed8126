/**
 * The chronological neighbour search of the "Go to next file" and "Go to previous file"
 * commands (main.ts).  Each command looks at the children of the active note's folder,
 * keeps the Markdown notes other than the active one, decodes each basename as a date,
 * and opens the note whose date is the closest one strictly after (next) or strictly
 * before (previous) the active note's date; if there is none it shows a notice.
 *
 * The date parser is a parameter: `decode(basename)` is the millisecond timestamp that
 * `moment(basename, "YY-MM-DD").toDate()` yields, and `None` is an Invalid Date.
 */
module Navigator {
  import opened Wrappers

  /** One child of the active note's folder: its basename and its extension. */
  datatype Entry = Entry(basename: string, extension: string)

  /** What a command ends with: open the child at `index` in the folder listing, or show a notice. */
  datatype Action = OpenFile(index: nat) | ShowNotice(message: string)

  /**
   * JavaScript's `a < b` on two Date objects: it compares their timestamps, and is false
   * whenever either one is an Invalid Date (its timestamp is NaN).
   */
  predicate DateLess(a: Option<int>, b: Option<int>)
  {
    a.Some? && b.Some? && a.value < b.value
  }

  /** A child the search looks at: a Markdown file that is not the active note. */
  predicate Candidate(e: Entry, activeBasename: string)
  {
    e.extension == "md" && e.basename != activeBasename
  }

  /** Child `j` is a candidate whose date is strictly later than the active note's date. */
  predicate Later(children: seq<Entry>, activeBasename: string, decode: string -> Option<int>, j: int)
  {
    0 <= j < |children| && Candidate(children[j], activeBasename) &&
    DateLess(decode(activeBasename), decode(children[j].basename))
  }

  /** Child `j` is a candidate whose date is strictly earlier than the active note's date. */
  predicate Earlier(children: seq<Entry>, activeBasename: string, decode: string -> Option<int>, j: int)
  {
    0 <= j < |children| && Candidate(children[j], activeBasename) &&
    DateLess(decode(children[j].basename), decode(activeBasename))
  }

  /**
   * Among the first `n` children, `k` is the one "Go to next file" picks: its date is later
   * than the active date, no later child has an earlier date, and every later child listed
   * before `k` has a strictly later date than `k` (the first of equal dates wins).
   */
  ghost predicate NextAmong(children: seq<Entry>, activeBasename: string, decode: string -> Option<int>, n: int, k: int)
  {
    k < n && Later(children, activeBasename, decode, k) &&
    (forall j :: j < k && Later(children, activeBasename, decode, j) ==>
       decode(children[k].basename).value < decode(children[j].basename).value) &&
    (forall j :: k < j < n && Later(children, activeBasename, decode, j) ==>
       decode(children[k].basename).value <= decode(children[j].basename).value)
  }

  /** The mirror image of `NextAmong` for "Go to previous file": the latest earlier date, first one wins. */
  ghost predicate PreviousAmong(children: seq<Entry>, activeBasename: string, decode: string -> Option<int>, n: int, k: int)
  {
    k < n && Earlier(children, activeBasename, decode, k) &&
    (forall j :: j < k && Earlier(children, activeBasename, decode, j) ==>
       decode(children[j].basename).value < decode(children[k].basename).value) &&
    (forall j :: k < j < n && Earlier(children, activeBasename, decode, j) ==>
       decode(children[j].basename).value <= decode(children[k].basename).value)
  }

  /** `k` is the child "Go to next file" opens. */
  ghost predicate IsNext(children: seq<Entry>, activeBasename: string, decode: string -> Option<int>, k: int)
  {
    NextAmong(children, activeBasename, decode, |children|, k)
  }

  /** `k` is the child "Go to previous file" opens. */
  ghost predicate IsPrevious(children: seq<Entry>, activeBasename: string, decode: string -> Option<int>, k: int)
  {
    PreviousAmong(children, activeBasename, decode, |children|, k)
  }

  /** The "Go to next file" command on the active note's folder listing. */
  method GoToNextFile(children: seq<Entry>, activeBasename: string, decode: string -> Option<int>)
    returns (action: Action)
    ensures action.ShowNotice? <==> forall j :: 0 <= j < |children| ==> !Later(children, activeBasename, decode, j)
    ensures action.ShowNotice? ==> action.message == "No next file!"
    ensures action.OpenFile? ==> IsNext(children, activeBasename, decode, action.index)
    ensures decode(activeBasename).None? ==> action == ShowNotice("No next file!")
  {
    var targetDate := decode(activeBasename);
    // `largerDate` is `null` (None) or the Date of `largerFile`; it never holds an Invalid Date
    var largerDate: Option<int> := None;
    var largerFile: Option<nat> := None;
    for i := 0 to |children|
      invariant largerDate.Some? <==> largerFile.Some?
      invariant largerFile.Some? ==> NextAmong(children, activeBasename, decode, i, largerFile.value)
      invariant largerFile.Some? ==> largerDate == decode(children[largerFile.value].basename)
      invariant largerFile.None? ==> forall j :: 0 <= j < i ==> !Later(children, activeBasename, decode, j)
    {
      var currentFile := children[i];
      if currentFile.extension != "md" { continue; }
      if currentFile.basename == activeBasename { continue; }
      var currentDate := decode(currentFile.basename);
      if DateLess(targetDate, currentDate) && (largerDate.None? || DateLess(currentDate, largerDate)) {
        largerDate, largerFile := currentDate, Some(i);
      }
    }
    if largerFile.None? {
      return ShowNotice("No next file!");
    }
    action := OpenFile(largerFile.value);
  }

  /** The "Go to previous file" command on the active note's folder listing. */
  method GoToPreviousFile(children: seq<Entry>, activeBasename: string, decode: string -> Option<int>)
    returns (action: Action)
    ensures action.ShowNotice? <==> forall j :: 0 <= j < |children| ==> !Earlier(children, activeBasename, decode, j)
    ensures action.ShowNotice? ==> action.message == "No previous file!"
    ensures action.OpenFile? ==> IsPrevious(children, activeBasename, decode, action.index)
    ensures decode(activeBasename).None? ==> action == ShowNotice("No previous file!")
  {
    var targetDate := decode(activeBasename);
    // `smallerDate` is `null` (None) or the Date of `smallerFile`; it never holds an Invalid Date
    var smallerDate: Option<int> := None;
    var smallerFile: Option<nat> := None;
    for i := 0 to |children|
      invariant smallerDate.Some? <==> smallerFile.Some?
      invariant smallerFile.Some? ==> PreviousAmong(children, activeBasename, decode, i, smallerFile.value)
      invariant smallerFile.Some? ==> smallerDate == decode(children[smallerFile.value].basename)
      invariant smallerFile.None? ==> forall j :: 0 <= j < i ==> !Earlier(children, activeBasename, decode, j)
    {
      var currentFile := children[i];
      if currentFile.extension != "md" { continue; }
      if currentFile.basename == activeBasename { continue; }
      var currentDate := decode(currentFile.basename);
      if DateLess(currentDate, targetDate) && (smallerDate.None? || DateLess(smallerDate, currentDate)) {
        smallerDate, smallerFile := currentDate, Some(i);
      }
    }
    if smallerFile.None? {
      return ShowNotice("No previous file!");
    }
    action := OpenFile(smallerFile.value);
  }

  /** The child "Go to next file" opens is a later Markdown sibling with no candidate dated strictly between. */
  lemma NextIsTightBound(children: seq<Entry>, activeBasename: string, decode: string -> Option<int>, k: int)
    requires IsNext(children, activeBasename, decode, k)
    ensures 0 <= k < |children| && children[k].extension == "md" && children[k].basename != activeBasename
    ensures DateLess(decode(activeBasename), decode(children[k].basename))
    ensures forall j :: 0 <= j < |children| && Candidate(children[j], activeBasename) ==>
      !(DateLess(decode(activeBasename), decode(children[j].basename)) &&
        DateLess(decode(children[j].basename), decode(children[k].basename)))
  {
  }

  /** The child "Go to previous file" opens is an earlier Markdown sibling with no candidate dated strictly between. */
  lemma PreviousIsTightBound(children: seq<Entry>, activeBasename: string, decode: string -> Option<int>, k: int)
    requires IsPrevious(children, activeBasename, decode, k)
    ensures 0 <= k < |children| && children[k].extension == "md" && children[k].basename != activeBasename
    ensures DateLess(decode(children[k].basename), decode(activeBasename))
    ensures forall j :: 0 <= j < |children| && Candidate(children[j], activeBasename) ==>
      !(DateLess(decode(children[k].basename), decode(children[j].basename)) &&
        DateLess(decode(children[j].basename), decode(activeBasename)))
  {
  }

  /** At most one child satisfies `IsNext`, so the contract of `GoToNextFile` fixes its result. */
  lemma NextIsUnique(children: seq<Entry>, activeBasename: string, decode: string -> Option<int>, k: int, k': int)
    requires IsNext(children, activeBasename, decode, k)
    requires IsNext(children, activeBasename, decode, k')
    ensures k == k'
  {
  }

  /** At most one child satisfies `IsPrevious`, so the contract of `GoToPreviousFile` fixes its result. */
  lemma PreviousIsUnique(children: seq<Entry>, activeBasename: string, decode: string -> Option<int>, k: int, k': int)
    requires IsPrevious(children, activeBasename, decode, k)
    requires IsPrevious(children, activeBasename, decode, k')
    ensures k == k'
  {
  }

  /** Tie-break: among candidates sharing the winning date, the first one listed is chosen. */
  lemma NextFirstWins(children: seq<Entry>, activeBasename: string, decode: string -> Option<int>, k: int, j: int)
    requires IsNext(children, activeBasename, decode, k)
    requires Later(children, activeBasename, decode, j)
    requires decode(children[j].basename) == decode(children[k].basename)
    ensures k <= j
  {
  }

  /** Tie-break for "Go to previous file": the first candidate with the winning date is chosen. */
  lemma PreviousFirstWins(children: seq<Entry>, activeBasename: string, decode: string -> Option<int>, k: int, j: int)
    requires IsPrevious(children, activeBasename, decode, k)
    requires Earlier(children, activeBasename, decode, j)
    requires decode(children[j].basename) == decode(children[k].basename)
    ensures k <= j
  {
  }

  lemma {:induction false} NextAmongExists(children: seq<Entry>, activeBasename: string, decode: string -> Option<int>, n: nat, j: int)
    requires n <= |children| && j < n && Later(children, activeBasename, decode, j)
    ensures exists k :: NextAmong(children, activeBasename, decode, n, k)
  {
    if j == n - 1 && forall i :: 0 <= i < j ==> !Later(children, activeBasename, decode, i) {
      assert NextAmong(children, activeBasename, decode, n, j);
    } else {
      var j' :| 0 <= j' < n - 1 && Later(children, activeBasename, decode, j');
      NextAmongExists(children, activeBasename, decode, n - 1, j');
      var k :| NextAmong(children, activeBasename, decode, n - 1, k);
      var d := decode(children[n - 1].basename);
      if Later(children, activeBasename, decode, n - 1) && d.value < decode(children[k].basename).value {
        assert NextAmong(children, activeBasename, decode, n, n - 1);
      } else {
        assert NextAmong(children, activeBasename, decode, n, k);
      }
    }
  }

  /** Whenever some candidate is later than the active note, "Go to next file" has a child to open. */
  lemma NextExists(children: seq<Entry>, activeBasename: string, decode: string -> Option<int>, j: int)
    requires Later(children, activeBasename, decode, j)
    ensures exists k :: IsNext(children, activeBasename, decode, k)
  {
    NextAmongExists(children, activeBasename, decode, |children|, j);
    var k :| NextAmong(children, activeBasename, decode, |children|, k);
    assert IsNext(children, activeBasename, decode, k);
  }

  /** Negates a timestamp, keeping Invalid Dates invalid. */
  function Negate(t: Option<int>): (r: Option<int>)
    ensures r.Some? <==> t.Some?
    ensures r.Some? ==> r.value + t.value == 0
  {
    if t.Some? then Some(-t.value) else None
  }

  /** `decode` with time running backwards. */
  function Mirror(decode: string -> Option<int>): string -> Option<int>
  {
    s => Negate(decode(s))
  }

  /**
   * The two searches are mirror images: "Go to previous file" opens exactly the child that
   * "Go to next file" would open if every date were negated.
   */
  lemma PreviousIsMirroredNext(children: seq<Entry>, activeBasename: string, decode: string -> Option<int>, k: int)
    ensures IsPrevious(children, activeBasename, decode, k) <==> IsNext(children, activeBasename, Mirror(decode), k)
  {
  }

  /** Whenever some candidate is earlier than the active note, "Go to previous file" has a child to open. */
  lemma PreviousExists(children: seq<Entry>, activeBasename: string, decode: string -> Option<int>, j: int)
    requires Earlier(children, activeBasename, decode, j)
    ensures exists k :: IsPrevious(children, activeBasename, decode, k)
  {
    assert Later(children, activeBasename, Mirror(decode), j);
    NextExists(children, activeBasename, Mirror(decode), j);
    var k :| IsNext(children, activeBasename, Mirror(decode), k);
    PreviousIsMirroredNext(children, activeBasename, decode, k);
  }
}
