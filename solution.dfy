/**
 * Reading and checking a solution (src/helper.py: loadSolutionFromString,
 * loadCountOrAssignmentError).
 *
 * A solution text has one line per driver, `[id, id, ...]`. The reader keeps
 * the lines it has read when it meets a line without both brackets, and
 * reports that line. The checker reports, in this order, the first id that
 * occurs twice, a count of distinct ids different from the number of loads,
 * and the first load of the problem that no schedule holds.
 */
module Solutions {
  import opened Common
  import opened Geometry
  import opened Text
  import Problems

  // ------------------------------------------------------------------ reading

  const FormatError: string :=
    "Solution format incorrect. Expected all lines to be in format [{load_id}, {load_id}, ...], but got this: "

  /** A line the reader accepts: it holds both an opening and a closing bracket, anywhere. */
  predicate Bracketed(line: string)
  {
    '[' in line && ']' in line
  }

  /** The ids of an accepted line: brackets, '\n' and spaces removed, then split on ','. */
  function ParseSchedule(line: string): seq<LoadId>
  {
    Split(Remove(Remove(Remove(Remove(line, '['), ']'), '\n'), ' '), ',')
  }

  /**
   * The outcome of reading these lines: the schedules of the lines before
   * the first line that is not bracketed, and that line in the error, or
   * every line's schedule and no error.
   */
  function ParseSolution(lines: seq<string>): (r: (seq<seq<LoadId>>, string))
    decreases |lines|
  {
    if |lines| == 0 then ([], "")
    else if !Bracketed(lines[0]) then ([], FormatError + lines[0])
    else
      var rest := ParseSolution(lines[1..]);
      ([ParseSchedule(lines[0])] + rest.0, rest.1)
  }

  /** Reading succeeds exactly when every line is bracketed, and then gives one schedule per line. */
  lemma {:induction false} ParseSolutionOk(lines: seq<string>)
    ensures (ParseSolution(lines).1 == "") <==> forall k :: 0 <= k < |lines| ==> Bracketed(lines[k])
    ensures ParseSolution(lines).1 == "" ==> |ParseSolution(lines).0| == |lines|
    decreases |lines|
  {
    if |lines| > 0 {
      var rest := lines[1..];
      assert lines == [lines[0]] + rest;
      ParseSolutionCons(lines[0], rest);
      assert |FormatError + lines[0]| > 0;
      if Bracketed(lines[0]) {
        ParseSolutionOk(rest);
        assert forall k :: 1 <= k < |lines| ==> lines[k] == rest[k - 1];
      }
    }
  }

  /** The schedules read are those of the leading bracketed lines, in order. */
  lemma {:induction false} ParseSolutionPrefix(lines: seq<string>)
    ensures var r := ParseSolution(lines);
      |r.0| <= |lines| && forall k :: 0 <= k < |r.0| ==> Bracketed(lines[k]) && r.0[k] == ParseSchedule(lines[k])
    decreases |lines|
  {
    if |lines| > 0 {
      var rest := lines[1..];
      assert lines == [lines[0]] + rest;
      ParseSolutionCons(lines[0], rest);
      if Bracketed(lines[0]) {
        ParseSolutionPrefix(rest);
        PrefixStep(lines, ParseSolution(lines).0, ParseSolution(rest).0);
      }
    }
  }

  lemma PrefixStep(lines: seq<string>, got: seq<seq<LoadId>>, more: seq<seq<LoadId>>)
    requires |lines| > 0 && Bracketed(lines[0]) && got == [ParseSchedule(lines[0])] + more
    requires |more| <= |lines| - 1
    requires forall k :: 0 <= k < |more| ==> Bracketed(lines[k + 1]) && more[k] == ParseSchedule(lines[k + 1])
    ensures |got| <= |lines| && forall k :: 0 <= k < |got| ==> Bracketed(lines[k]) && got[k] == ParseSchedule(lines[k])
  {
    forall k | 0 <= k < |got| ensures Bracketed(lines[k]) && got[k] == ParseSchedule(lines[k]) {
      if k > 0 {
        assert got[k] == more[k - 1];
      }
    }
  }

  /**
   * On an error, the line after the schedules read is the first one that is
   * not bracketed, quoted in the error.
   */
  lemma {:induction false} ParseSolutionError(lines: seq<string>)
    ensures var r := ParseSolution(lines);
      r.1 != "" ==> |r.0| < |lines| && !Bracketed(lines[|r.0|]) && r.1 == FormatError + lines[|r.0|]
    decreases |lines|
  {
    if |lines| > 0 {
      var rest := lines[1..];
      assert lines == [lines[0]] + rest;
      ParseSolutionCons(lines[0], rest);
      if Bracketed(lines[0]) {
        ParseSolutionError(rest);
        var r, rr := ParseSolution(lines), ParseSolution(rest);
        if r.1 != "" {
          assert |r.0| == |rr.0| + 1;
          assert lines[|r.0|] == rest[|rr.0|];
        }
      }
    }
  }

  /** The schedules read so far in front of the outcome of reading the rest. */
  function Combine(front: seq<seq<LoadId>>, rest: (seq<seq<LoadId>>, string)): (seq<seq<LoadId>>, string)
  {
    (front + rest.0, rest.1)
  }

  /** loadSolutionFromString: the readline loop with its early return on a malformed line. */
  method LoadSolutionFromString(s: string) returns (schedules: seq<seq<LoadId>>, err: string)
    ensures (schedules, err) == ParseSolution(Lines(s, 0))
  {
    schedules := [];
    var pos := 0;
    assert [] + ParseSolution(Lines(s, 0)).0 == ParseSolution(Lines(s, 0)).0;
    while true
      invariant pos <= |s|
      invariant ParseSolution(Lines(s, 0)) == Combine(schedules, ParseSolution(Lines(s, pos)))
      decreases |s| - pos
    {
      var line := ReadLine(s, pos);
      if |line| == 0 {
        break;
      }
      ReadOneSchedule(s, pos, line, schedules);
      if !Bracketed(line) {
        return schedules, FormatError + line;
      }
      pos := LineEnd(s, pos);
      var schedule := ScheduleOfLine(line);
      schedules := schedules + [schedule];
    }
    assert ParseSolution(Lines(s, pos)) == ([], "");
    assert schedules + [] == schedules;
    err := "";
  }

  /** The body of the reading loop for an accepted line: strip, split on ',', copy the ids. */
  method ScheduleOfLine(line: string) returns (schedule: seq<LoadId>)
    ensures schedule == ParseSchedule(line)
  {
    var stripped := Remove(line, '[');
    stripped := Remove(stripped, ']');
    stripped := Remove(stripped, '\n');
    stripped := Remove(stripped, ' ');
    var splits := Split(stripped, ',');
    schedule := [];
    for k := 0 to |splits|
      invariant schedule == splits[..k]
    {
      schedule := schedule + [splits[k]];
    }
    assert splits[..|splits|] == splits;
  }

  /** One step of the reading loop. */
  lemma ReadOneSchedule(s: string, pos: nat, line: string, front: seq<seq<LoadId>>)
    requires pos < |s| && line == ReadLine(s, pos)
    ensures !Bracketed(line) ==> Combine(front, ParseSolution(Lines(s, pos))) == (front, FormatError + line)
    ensures Bracketed(line) ==> Combine(front, ParseSolution(Lines(s, pos)))
                                == Combine(front + [ParseSchedule(line)], ParseSolution(Lines(s, LineEnd(s, pos))))
  {
    var rest := Lines(s, LineEnd(s, pos));
    assert Lines(s, pos) == [line] + rest;
    ParseSolutionCons(line, rest);
    assert front + [] == front;
    var r := ParseSolution(rest);
    assert front + ([ParseSchedule(line)] + r.0) == front + [ParseSchedule(line)] + r.0;
  }

  lemma ParseSolutionCons(line: string, rest: seq<string>)
    ensures ParseSolution([line] + rest) ==
      if Bracketed(line) then ([ParseSchedule(line)] + ParseSolution(rest).0, ParseSolution(rest).1)
      else ([], FormatError + line)
  {
    assert ([line] + rest)[0] == line && ([line] + rest)[1..] == rest;
  }

  /** An id that can be written in a solution line: none of the characters the reader strips or splits on. */
  predicate IdText(id: LoadId)
  {
    '[' !in id && ']' !in id && '\n' !in id && ' ' !in id && ',' !in id
  }

  /** A schedule printed as a Python list: `[a, b, c]`. */
  function ScheduleText(ids: seq<LoadId>): string
    requires |ids| >= 1
  {
    "[" + Join(ids, ", ") + "]"
  }

  lemma {:induction false} JoinAvoids(parts: seq<string>, sep: string, c: char)
    requires |parts| >= 1 && c !in sep
    requires forall k :: 0 <= k < |parts| ==> c !in parts[k]
    ensures c !in Join(parts, sep)
    decreases |parts|
  {
    if |parts| > 1 {
      JoinAvoids(parts[1..], sep, c);
    }
  }

  lemma {:induction false} RemoveSeparatorSpace(parts: seq<string>)
    requires |parts| >= 1
    requires forall k :: 0 <= k < |parts| ==> ' ' !in parts[k]
    ensures Remove(Join(parts, ", "), ' ') == Join(parts, ",")
    decreases |parts|
  {
    if |parts| == 1 {
      RemoveAbsent(parts[0], ' ');
    } else {
      var tail := Join(parts[1..], ", ");
      var head := parts[0] + ",";
      RemoveSeparatorSpace(parts[1..]);
      assert ' ' !in head;
      assert Join(parts, ", ") == head + ([' '] + tail);
      RemoveAt(head, ' ', tail);
      assert Join(parts, ",") == head + Join(parts[1..], ",");
    }
  }

  lemma ItemsAvoid(ids: seq<LoadId>)
    requires |ids| >= 1 && forall k :: 0 <= k < |ids| ==> IdText(ids[k])
    ensures var j := Join(ids, ", "); '[' !in j && ']' !in j && '\n' !in j
  {
    JoinAvoids(ids, ", ", '[');
    JoinAvoids(ids, ", ", ']');
    JoinAvoids(ids, ", ", '\n');
  }

  /** The brackets and the final '\n' around a text free of them are all the first three removals take. */
  lemma StripBrackets(j: string)
    requires '[' !in j && ']' !in j && '\n' !in j
    ensures Remove(Remove(Remove("[" + j + "]\n", '['), ']'), '\n') == j
  {
    var inner := j + ("]" + "\n");
    assert "[" + j + "]\n" == "" + (['['] + inner);
    RemoveAt("", '[', inner);
    assert "" + inner == inner;
    OpenRemoved(j);
    RemoveAt(j, ']', "\n");
    RemoveAbsent("\n", ']');
    assert j + ("\n" + "") == j + "\n";
    RemoveAt(j, '\n', "");
    assert j + "" == j;
  }

  lemma OpenRemoved(j: string)
    requires '[' !in j
    ensures Remove(j + ("]" + "\n"), '[') == j + ("]" + "\n")
  {
    RemoveAbsent(j + ("]" + "\n"), '[');
  }

  /** A printed schedule, ended by '\n', is accepted and reads back as the same ids. */
  lemma ScheduleRoundTrip(ids: seq<LoadId>)
    requires |ids| >= 1 && forall k :: 0 <= k < |ids| ==> IdText(ids[k])
    ensures '\n' !in ScheduleText(ids)
    ensures Bracketed(ScheduleText(ids) + "\n")
    ensures ParseSchedule(ScheduleText(ids) + "\n") == ids
  {
    var j := Join(ids, ", ");
    ItemsAvoid(ids);
    var line := ScheduleText(ids) + "\n";
    assert line == "[" + j + "]\n";
    assert line[0] == '[' && line[|j| + 1] == ']';
    StripBrackets(j);
    RemoveSeparatorSpace(ids);
    SplitJoin(ids, ',');
  }

  /** Schedules printed line by line read back as the same schedules, without error. */
  lemma SolutionRoundTrip(schedules: seq<seq<LoadId>>)
    requires forall k :: 0 <= k < |schedules| ==> |schedules[k]| >= 1
    requires forall k, m :: 0 <= k < |schedules| && 0 <= m < |schedules[k]| ==> IdText(schedules[k][m])
    ensures var texts := seq(|schedules|, k requires 0 <= k < |schedules| => ScheduleText(schedules[k]));
      ParseSolution(Lines(JoinLines(texts), 0)) == (schedules, "")
  {
    var texts := seq(|schedules|, k requires 0 <= k < |schedules| => ScheduleText(schedules[k]));
    forall k | 0 <= k < |texts| ensures '\n' !in texts[k] {
      ScheduleRoundTrip(schedules[k]);
    }
    LinesOfText(JoinLines(texts), 0, texts);
    var lines := Lines(JoinLines(texts), 0);
    assert |lines| == |schedules|;
    forall k | 0 <= k < |lines| ensures Bracketed(lines[k]) && ParseSchedule(lines[k]) == schedules[k] {
      assert lines[k] == texts[k] + "\n";
      ScheduleRoundTrip(schedules[k]);
    }
    ParseSolutionOk(lines);
    ParseSolutionPrefix(lines);
    var r := ParseSolution(lines);
    assert r.0 == schedules;
  }

  // ----------------------------------------------------------------- checking

  /** The scan over the ids: the first id met a second time, or the set of ids met. */
  datatype Scan = Repeated(id: LoadId) | Unique(ids: set<LoadId>)

  function ScanIds(s: seq<LoadId>, seen: set<LoadId>): Scan
    decreases |s|
  {
    if |s| == 0 then Unique(seen)
    else if s[0] in seen then Repeated(s[0])
    else ScanIds(s[1..], seen + {s[0]})
  }

  /** The scan, resumed over the schedules that follow once one schedule is done. */
  function Resume(r: Scan, rest: seq<seq<LoadId>>): Scan
  {
    match r
    case Repeated(id) => Repeated(id)
    case Unique(seen) => ScanSchedules(rest, seen)
  }

  /** The scan over every schedule in order, every position in order. */
  function ScanSchedules(ss: seq<seq<LoadId>>, seen: set<LoadId>): Scan
    decreases |ss|, 0
  {
    if |ss| == 0 then Unique(seen)
    else
      match ScanIds(ss[0], seen)
      case Repeated(id) => Repeated(id)
      case Unique(seen') => ScanSchedules(ss[1..], seen')
  }

  /** The id of the first load (in problem order) that is not in ids. */
  function FirstMissing(loads: seq<Load>, ids: set<LoadId>): Option<LoadId>
    decreases |loads|
  {
    if |loads| == 0 then None
    else if loads[0].id !in ids then Some(loads[0].id)
    else FirstMissing(loads[1..], ids)
  }

  function DuplicateError(id: LoadId): string
  {
    "load " + id + " was included in at least two driver schedules"
  }

  const CountError: string := "the solution load count is not equal to the problem load count"

  function MissingError(id: LoadId): string
  {
    "load " + id + " was not assigned to a driver"
  }

  /** The message loadCountOrAssignmentError returns; "" when the solution is accepted. */
  function AssignmentError(problem: Problems.VRP2, schedules: seq<seq<LoadId>>): string
  {
    match ScanSchedules(schedules, {})
    case Repeated(id) => DuplicateError(id)
    case Unique(ids) =>
      if |ids| != |problem.loads| then CountError
      else
        match FirstMissing(problem.loads, ids)
        case Some(id) => MissingError(id)
        case None => ""
  }

  /**
   * loadCountOrAssignmentError: the nested scan recording the ids seen (the
   * source's dict of True values is the set `seen`), the count check, and the
   * scan over the problem's loads.
   */
  method LoadCountOrAssignmentError(problem: Problems.VRP2, solutionSchedules: seq<seq<LoadId>>) returns (err: string)
    ensures err == AssignmentError(problem, solutionSchedules)
  {
    var ss := solutionSchedules;
    var seen: set<LoadId> := {};
    for a := 0 to |ss|
      invariant ScanSchedules(ss, {}) == ScanSchedules(ss[a..], seen)
    {
      var schedule := ss[a];
      assert ss[a..][1..] == ss[a + 1..];
      for b := 0 to |schedule|
        invariant ScanSchedules(ss, {}) == Resume(ScanIds(schedule[b..], seen), ss[a + 1..])
      {
        var loadID := schedule[b];
        assert schedule[b..][1..] == schedule[b + 1..];
        if loadID in seen {
          return DuplicateError(loadID);
        }
        seen := seen + {loadID};
      }
    }
    if |seen| != |problem.loads| {
      return CountError;
    }
    for k := 0 to |problem.loads|
      invariant FirstMissing(problem.loads, seen) == FirstMissing(problem.loads[k..], seen)
    {
      assert problem.loads[k..][1..] == problem.loads[k + 1..];
      if problem.loads[k].id !in seen {
        return MissingError(problem.loads[k].id);
      }
    }
    return "";
  }

  // ------------------------------------------------------ what the checker accepts

  /** No element occurs twice. */
  ghost predicate NoDuplicates<T>(s: seq<T>)
  {
    forall i, j :: 0 <= i < j < |s| ==> s[i] != s[j]
  }

  ghost function Elements<T>(s: seq<T>): set<T>
  {
    set x | x in s
  }

  /** The ids of the loads, in problem order. */
  function Ids(loads: seq<Load>): (r: seq<LoadId>)
  {
    seq(|loads|, k requires 0 <= k < |loads| => loads[k].id)
  }

  /** Taking the first id off: no repeats and none seen, before and after. */
  lemma FreshCons(s: seq<LoadId>, seen: set<LoadId>)
    requires |s| > 0 && s[0] !in seen
    ensures (NoDuplicates(s) && forall k :: 0 <= k < |s| ==> s[k] !in seen) <==>
            (NoDuplicates(s[1..]) && forall k :: 0 <= k < |s| - 1 ==> s[1..][k] !in seen + {s[0]})
  {
    var t := s[1..];
    if NoDuplicates(s) && forall k :: 0 <= k < |s| ==> s[k] !in seen {
      forall i, j | 0 <= i < j < |t| ensures t[i] != t[j] {
        assert s[i + 1] != s[j + 1];
      }
      forall k | 0 <= k < |t| ensures t[k] !in seen + {s[0]} {
        assert s[0] != s[k + 1];
      }
    }
    if NoDuplicates(t) && forall k :: 0 <= k < |t| ==> t[k] !in seen + {s[0]} {
      forall i, j | 0 <= i < j < |s| ensures s[i] != s[j] {
        if i > 0 {
          assert t[i - 1] != t[j - 1];
        } else {
          assert t[j - 1] !in seen + {s[0]};
        }
      }
      forall k | 0 <= k < |s| ensures s[k] !in seen {
        if k > 0 {
          assert t[k - 1] !in seen + {s[0]};
        }
      }
    }
  }

  /** The scan finds no repeat exactly when no id repeats and none was seen before, and then collects them all. */
  lemma {:induction false} ScanIdsSpec(s: seq<LoadId>, seen: set<LoadId>)
    ensures ScanIds(s, seen).Unique? <==> NoDuplicates(s) && forall k :: 0 <= k < |s| ==> s[k] !in seen
    ensures ScanIds(s, seen).Unique? ==> ScanIds(s, seen).ids == seen + Elements(s)
    decreases |s|
  {
    if |s| > 0 {
      var t := s[1..];
      ScanIdsSpec(t, seen + {s[0]});
      assert Elements(s) == {s[0]} + Elements(t) by {
        assert forall x :: x in s <==> x == s[0] || x in t;
      }
      if s[0] !in seen {
        FreshCons(s, seen);
      }
    }
  }

  /**
   * Position j is where the scan first meets an id a second time: s[j] was
   * seen before the scan or earlier in s, and nothing before j repeats.
   */
  ghost predicate FirstRepeatAt(s: seq<LoadId>, seen: set<LoadId>, j: nat)
  {
    j < |s| && (s[j] in seen || s[j] in s[..j]) && NoDuplicates(s[..j]) &&
    forall k :: 0 <= k < j ==> s[k] !in seen
  }

  /** A repeat the scan reports is met at the first position where an id comes back. */
  lemma {:induction false} ScanIdsRepeated(s: seq<LoadId>, seen: set<LoadId>)
    ensures ScanIds(s, seen).Repeated? ==> exists j: nat :: FirstRepeatAt(s, seen, j) && s[j] == ScanIds(s, seen).id
    decreases |s|
  {
    if |s| > 0 && ScanIds(s, seen).Repeated? {
      if s[0] in seen {
        assert FirstRepeatAt(s, seen, 0);
      } else {
        var t, seen' := s[1..], seen + {s[0]};
        ScanIdsRepeated(t, seen');
        var j': nat :| FirstRepeatAt(t, seen', j') && t[j'] == ScanIds(t, seen').id;
        var j := j' + 1;
        assert s[..j] == [s[0]] + t[..j'];
        assert s[j] == t[j'];
        assert NoDuplicates(s[..j]) by {
          forall a, b | 0 <= a < b < j ensures s[..j][a] != s[..j][b] {
            if a > 0 {
              assert s[..j][a] == t[..j'][a - 1] && s[..j][b] == t[..j'][b - 1];
            } else {
              assert s[..j][b] == t[b - 1] && t[b - 1] !in seen';
            }
          }
        }
        forall k | 0 <= k < j ensures s[k] !in seen {
          if k > 0 {
            assert s[k] == t[k - 1];
          }
        }
        assert FirstRepeatAt(s, seen, j);
      }
    }
  }

  /** The first position where an id comes back is the repeat the scan reports. */
  lemma {:induction false} ScanIdsFirstRepeat(s: seq<LoadId>, seen: set<LoadId>, j: nat)
    requires FirstRepeatAt(s, seen, j)
    ensures ScanIds(s, seen) == Repeated(s[j])
    decreases |s|
  {
    if j > 0 {
      assert s[0] !in seen;
      var t, seen' := s[1..], seen + {s[0]};
      assert s[..j] == [s[0]] + t[..j - 1];
      assert t[j - 1] == s[j];
      var u := t[..j - 1];
      assert NoDuplicates(u) by {
        forall a, b | 0 <= a < b < |u| ensures u[a] != u[b] {
          assert u[a] == s[..j][a + 1] && u[b] == s[..j][b + 1];
        }
      }
      forall k | 0 <= k < j - 1 ensures t[k] !in seen' {
        assert t[k] == s[..j][k + 1] && s[0] == s[..j][0];
      }
      ScanIdsFirstRepeat(t, seen', j - 1);
    }
  }

  lemma {:induction false} ScanIdsAppend(a: seq<LoadId>, b: seq<LoadId>, seen: set<LoadId>)
    ensures ScanIds(a + b, seen) == match ScanIds(a, seen)
                                    case Repeated(id) => Repeated(id)
                                    case Unique(s') => ScanIds(b, s')
    decreases |a|
  {
    if |a| == 0 {
      assert a + b == b;
    } else {
      assert (a + b)[0] == a[0] && (a + b)[1..] == a[1..] + b;
      if a[0] !in seen {
        ScanIdsAppend(a[1..], b, seen + {a[0]});
      }
    }
  }

  /** Scanning the schedules one after the other is scanning their concatenation. */
  lemma {:induction false} ScanSchedulesFlat(ss: seq<seq<LoadId>>, seen: set<LoadId>)
    ensures ScanSchedules(ss, seen) == ScanIds(Flatten(ss), seen)
    decreases |ss|
  {
    if |ss| > 0 {
      var rest := ss[1..];
      assert ss == [ss[0]] + rest;
      FlattenConcat([ss[0]], rest);
      assert Flatten([ss[0]]) == ss[0] by { assert [ss[0]][..0] == []; }
      ScanIdsAppend(ss[0], Flatten(rest), seen);
      match ScanIds(ss[0], seen)
      case Repeated(_) =>
      case Unique(s') => ScanSchedulesFlat(rest, s');
    }
  }

  lemma {:induction false} DistinctCard<T>(s: seq<T>)
    requires NoDuplicates(s)
    ensures |Elements(s)| == |s|
    decreases |s|
  {
    if |s| > 0 {
      var t := s[..|s| - 1];
      assert NoDuplicates(t) by {
        forall i, j | 0 <= i < j < |t| ensures t[i] != t[j] {
          assert t[i] == s[i] && t[j] == s[j];
        }
      }
      DistinctCard(t);
      assert Elements(s) == Elements(t) + {s[|s| - 1]} by {
        assert s == t + [s[|s| - 1]];
        assert forall x :: x in s <==> x in t || x == s[|s| - 1];
      }
      assert s[|s| - 1] !in Elements(t) by {
        forall i | 0 <= i < |t| ensures t[i] != s[|s| - 1] {
          assert t[i] == s[i];
        }
      }
    }
  }

  lemma {:induction false} FirstMissingSpec(loads: seq<Load>, ids: set<LoadId>)
    ensures FirstMissing(loads, ids).None? <==> forall k :: 0 <= k < |loads| ==> loads[k].id in ids
    ensures FirstMissing(loads, ids).Some? ==> FirstMissing(loads, ids).value !in ids
    ensures FirstMissing(loads, ids).Some? ==>
              exists k :: 0 <= k < |loads| && loads[k].id == FirstMissing(loads, ids).value &&
                          forall m :: 0 <= m < k ==> loads[m].id in ids
    decreases |loads|
  {
    if |loads| > 0 {
      FirstMissingSpec(loads[1..], ids);
      assert forall k :: 1 <= k < |loads| ==> loads[k] == loads[1..][k - 1];
      if loads[0].id in ids && FirstMissing(loads, ids).Some? {
        var k' :| 0 <= k' < |loads[1..]| && loads[1..][k'].id == FirstMissing(loads, ids).value &&
                  forall m :: 0 <= m < k' ==> loads[1..][m].id in ids;
        assert loads[k' + 1].id == FirstMissing(loads, ids).value;
        forall m | 0 <= m < k' + 1 ensures loads[m].id in ids {
          if m > 0 {
            assert loads[m] == loads[1..][m - 1];
          }
        }
      }
    }
  }

  /** The first load (in problem order) whose id is not in ids is the one reported. */
  lemma {:induction false} FirstMissingAt(loads: seq<Load>, ids: set<LoadId>, k: nat)
    requires k < |loads| && loads[k].id !in ids
    requires forall m :: 0 <= m < k ==> loads[m].id in ids
    ensures FirstMissing(loads, ids) == Some(loads[k].id)
    decreases |loads|
  {
    if k > 0 {
      forall m | 0 <= m < k - 1 ensures loads[1..][m].id in ids {
        assert loads[1..][m] == loads[m + 1];
      }
      FirstMissingAt(loads[1..], ids, k - 1);
    }
  }

  /**
   * The message names the first id met a second time, scanning the
   * schedules in order and each schedule position by position.
   */
  lemma DuplicateReported(problem: Problems.VRP2, schedules: seq<seq<LoadId>>, j: nat)
    requires FirstRepeatAt(Flatten(schedules), {}, j)
    ensures AssignmentError(problem, schedules) == DuplicateError(Flatten(schedules)[j])
  {
    ScanSchedulesFlat(schedules, {});
    ScanIdsFirstRepeat(Flatten(schedules), {}, j);
  }

  /**
   * Without a repeat and with the right count, the message names the first
   * load of the problem, in problem order, whose id no schedule holds.
   */
  lemma MissingReported(problem: Problems.VRP2, schedules: seq<seq<LoadId>>, k: nat)
    requires var flat := Flatten(schedules); NoDuplicates(flat) && |flat| == |problem.loads|
    requires k < |problem.loads| && problem.loads[k].id !in Flatten(schedules)
    requires forall m :: 0 <= m < k ==> problem.loads[m].id in Flatten(schedules)
    ensures AssignmentError(problem, schedules) == MissingError(problem.loads[k].id)
  {
    var flat := Flatten(schedules);
    ScanSchedulesFlat(schedules, {});
    ScanIdsSpec(flat, {});
    var ids := ScanIds(flat, {}).ids;
    assert ids == Elements(flat);
    DistinctCard(flat);
    FirstMissingAt(problem.loads, ids, k);
  }

  /**
   * The checker accepts exactly the schedules in which no id repeats, whose
   * number of ids is the number of loads, and which hold the id of every load.
   */
  lemma AcceptedExactly(problem: Problems.VRP2, schedules: seq<seq<LoadId>>)
    ensures var flat := Flatten(schedules);
      AssignmentError(problem, schedules) == "" <==>
        NoDuplicates(flat) && |flat| == |problem.loads| &&
        forall k :: 0 <= k < |problem.loads| ==> problem.loads[k].id in flat
  {
    var flat := Flatten(schedules);
    ScanSchedulesFlat(schedules, {});
    ScanIdsSpec(flat, {});
    match ScanSchedules(schedules, {})
    case Repeated(id) =>
      assert DuplicateError(id)[0] == 'l';
    case Unique(_) =>
    if ScanIds(flat, {}).Unique? {
      var ids := ScanIds(flat, {}).ids;
      assert ids == Elements(flat);
      DistinctCard(flat);
      FirstMissingSpec(problem.loads, ids);
      match FirstMissing(problem.loads, ids)
      case Some(id) =>
        assert MissingError(id)[0] == 'l';
      case None =>
    }
  }

  lemma {:induction false} DistinctMultiset<T>(s: seq<T>)
    requires NoDuplicates(s)
    ensures forall x :: multiset(s)[x] == if x in s then 1 else 0
    decreases |s|
  {
    if |s| > 0 {
      var t := s[..|s| - 1];
      var last := s[|s| - 1];
      assert NoDuplicates(t) by {
        forall i, j | 0 <= i < j < |t| ensures t[i] != t[j] {
          assert t[i] == s[i] && t[j] == s[j];
        }
      }
      DistinctMultiset(t);
      assert s == t + [last];
      assert last !in t by {
        forall i | 0 <= i < |t| ensures t[i] != last {
          assert t[i] == s[i];
        }
      }
      assert forall x :: x in s <==> x in t || x == last;
    }
  }

  lemma MultisetNoDuplicates<T>(s: seq<T>)
    requires forall x :: multiset(s)[x] <= 1
    ensures NoDuplicates(s)
  {
    forall i, j | 0 <= i < j < |s| ensures s[i] != s[j] {
      assert s == s[..j] + s[j..];
      assert s[i] in s[..j] && s[j] in s[j..];
      assert multiset(s)[s[j]] == multiset(s[..j])[s[j]] + multiset(s[j..])[s[j]];
    }
  }

  /**
   * When the problem's ids are distinct, the checker accepts exactly the
   * solutions that assign every load of the problem exactly once: the ids of
   * the schedules are, as a multiset, the ids of the loads.
   */
  lemma AcceptedIffExactlyOnce(problem: Problems.VRP2, schedules: seq<seq<LoadId>>)
    requires NoDuplicates(Ids(problem.loads))
    ensures AssignmentError(problem, schedules) == "" <==>
              multiset(Flatten(schedules)) == multiset(Ids(problem.loads))
  {
    var flat, ids := Flatten(schedules), Ids(problem.loads);
    AcceptedExactly(problem, schedules);
    assert forall k :: 0 <= k < |ids| ==> ids[k] == problem.loads[k].id;
    if AssignmentError(problem, schedules) == "" {
      DistinctCover(flat, ids);
    }
    if multiset(flat) == multiset(ids) {
      SameMultiset(flat, ids);
    }
  }

  /** Two duplicate-free sequences of one length, the first holding every element of the second, are permutations. */
  lemma DistinctCover<T>(flat: seq<T>, ids: seq<T>)
    requires NoDuplicates(flat) && NoDuplicates(ids) && |flat| == |ids|
    requires forall k :: 0 <= k < |ids| ==> ids[k] in flat
    ensures multiset(flat) == multiset(ids)
  {
    DistinctMultiset(ids);
    DistinctMultiset(flat);
    DistinctCard(flat);
    DistinctCard(ids);
    assert Elements(ids) <= Elements(flat) by {
      forall x | x in Elements(ids) ensures x in Elements(flat) {
        var k :| 0 <= k < |ids| && ids[k] == x;
      }
    }
    SubsetSameSize(Elements(ids), Elements(flat));
    assert forall x :: x in flat <==> x in ids by {
      forall x ensures x in flat <==> x in ids {
        assert x in flat <==> x in Elements(flat);
        assert x in ids <==> x in Elements(ids);
      }
    }
  }

  /** A permutation of a duplicate-free sequence is duplicate-free, as long, and holds each of its elements. */
  lemma SameMultiset<T>(flat: seq<T>, ids: seq<T>)
    requires NoDuplicates(ids) && multiset(flat) == multiset(ids)
    ensures NoDuplicates(flat) && |flat| == |ids|
    ensures forall k :: 0 <= k < |ids| ==> ids[k] in flat
  {
    DistinctMultiset(ids);
    MultisetNoDuplicates(flat);
    assert |multiset(flat)| == |flat| && |multiset(ids)| == |ids|;
    forall k | 0 <= k < |ids| ensures ids[k] in flat {
      assert ids[k] in multiset(ids);
    }
  }

  lemma SubsetSameSize<T>(a: set<T>, b: set<T>)
    requires a <= b && |a| == |b|
    ensures a == b
  {
    if a != b {
      var x :| x in b && x !in a;
      assert a <= b - {x};
      assert |b - {x}| == |b| - 1;
      SubsetCard(a, b - {x});
    }
  }

  lemma SubsetCard<T>(a: set<T>, b: set<T>)
    requires a <= b
    ensures |a| <= |b|
  {
    assert b == a + (b - a);
  }
}
