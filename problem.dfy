/**
 * Reading a problem (src/helper.py: getPointFromPointStr,
 * loadProblemFromProblemStr, VRP2).
 *
 * A problem text is a header line followed by one line per load:
 * `<id> (<x>,<y>) (<x>,<y>)`, pickup first. Number conversion (Python's
 * `float`) is the parameter `toReal`, which yields None where `float` raises,
 * and the id conversion of `Load.__init__` (Python's `int`) is the parameter
 * `toId`, which yields None where `int` raises and otherwise the id's
 * normal form (so `07` and `7` name the same load). Every exception the
 * source can raise while parsing a problem text becomes None.
 */
module Problems {
  import opened Common
  import opened Geometry
  import opened Text

  /** A text-to-number conversion; None where the text is not a number. */
  type NumberParser = string -> Option<real>

  /** A number printer; the round trips below say when its output reads back. */
  type NumberPrinter = real -> string

  /** The id conversion of a load; None where the text is not an id. */
  type IdParser = string -> Option<LoadId>

  /** The pieces of a point text: parentheses dropped, then split on ','. */
  function PointFields(s: string): seq<string>
  {
    Split(Remove(Remove(s, '('), ')'), ',')
  }

  /** getPointFromPointStr: the first two comma-separated numbers; extra pieces are ignored. */
  function GetPointFromPointStr(s: string, toReal: NumberParser): (r: Option<Point>)
    ensures r.Some? <==>
      |PointFields(s)| >= 2 && toReal(PointFields(s)[0]).Some? && toReal(PointFields(s)[1]).Some?
    ensures r.Some? ==>
      |PointFields(s)| >= 2 && toReal(PointFields(s)[0]) == Some(r.value.x) && toReal(PointFields(s)[1]) == Some(r.value.y)
  {
    var fs := PointFields(s);
    if |fs| < 2 then None
    else
      match toReal(fs[0])
      case None => None
      case Some(x) =>
        match toReal(fs[1])
        case None => None
        case Some(y) => Some(Point(x, y))
  }

  /** A character a printed number may hold: no parenthesis, comma or whitespace. */
  predicate NumberChar(c: char)
  {
    c != '(' && c != ')' && c != ',' && !IsSpace(c)
  }

  /** The printed form of v reads back as v and holds only number characters. */
  predicate Printable(toReal: NumberParser, show: NumberPrinter, v: real)
  {
    toReal(show(v)) == Some(v) && forall k :: 0 <= k < |show(v)| ==> NumberChar(show(v)[k])
  }

  /** Point.toString: `(x,y)`. */
  function PointText(p: Point, show: NumberPrinter): string
  {
    "(" + show(p.x) + "," + show(p.y) + ")"
  }

  /** A point printed as `(x,y)` reads back as the same point. */
  lemma PointRoundTrip(p: Point, toReal: NumberParser, show: NumberPrinter)
    requires Printable(toReal, show, p.x) && Printable(toReal, show, p.y)
    ensures GetPointFromPointStr(PointText(p, show), toReal) == Some(p)
  {
    var a, b := show(p.x), show(p.y);
    assert '(' !in a && ')' !in a && ',' !in a by {
      forall k | 0 <= k < |a| ensures NumberChar(a[k]) { }
    }
    assert '(' !in b && ')' !in b && ',' !in b by {
      forall k | 0 <= k < |b| ensures NumberChar(b[k]) { }
    }
    var body := a + "," + b;
    StripParens(PointText(p, show), body);
    assert Join([a, b], [',']) == body by {
      assert [a, b][1..] == [b];
    }
    SplitJoin([a, b], ',');
  }

  lemma StripParens(s: string, body: string)
    requires '(' !in body && ')' !in body && s == "(" + body + ")"
    ensures Remove(Remove(s, '('), ')') == body
  {
    var inner := body + ")";
    assert s == "" + (['('] + inner);
    RemoveAt("", '(', inner);
    RemoveAbsent(inner, '(');
    assert Remove(s, '(') == inner;
    assert inner == body + ([')'] + "");
    RemoveAt(body, ')', "");
    assert Remove("", ')') == "";
    assert body + "" == body;
  }

  /** One load line: '\n' removed, split on whitespace, then id, pickup and dropoff; None where the source raises. */
  function ParseLoadLine(line: string, toReal: NumberParser, toId: IdParser): (r: Option<Load>)
    ensures var fs := Fields(Remove(line, '\n'));
      r.Some? <==> |fs| >= 3 && toId(fs[0]).Some? &&
                   GetPointFromPointStr(fs[1], toReal).Some? && GetPointFromPointStr(fs[2], toReal).Some?
    ensures var fs := Fields(Remove(line, '\n'));
      r.Some? ==> Some(r.value.id) == toId(fs[0]) &&
                  Some(r.value.pickup) == GetPointFromPointStr(fs[1], toReal) &&
                  Some(r.value.dropoff) == GetPointFromPointStr(fs[2], toReal)
  {
    var fs := Fields(Remove(line, '\n'));
    if |fs| < 3 then None
    else
      match GetPointFromPointStr(fs[1], toReal)
      case None => None
      case Some(pickup) =>
        match GetPointFromPointStr(fs[2], toReal)
        case None => None
        case Some(dropoff) =>
          match toId(fs[0])
          case None => None
          case Some(id) => Some(Load(id, pickup, dropoff))
  }

  /** Every line in turn, failing at the first line that does not parse. */
  function ParseLoads(lines: seq<string>, toReal: NumberParser, toId: IdParser): Option<seq<Load>>
  {
    if |lines| == 0 then Some([])
    else
      match ParseLoadLine(lines[0], toReal, toId)
      case None => None
      case Some(l) =>
        match ParseLoads(lines[1..], toReal, toId)
        case None => None
        case Some(rest) => Some([l] + rest)
  }

  /** The loads of a problem text: every line after the first. */
  function ParseProblem(s: string, toReal: NumberParser, toId: IdParser): Option<seq<Load>>
  {
    var ls := Lines(s, 0);
    if |ls| == 0 then Some([]) else ParseLoads(ls[1..], toReal, toId)
  }

  /** The loads are read one per line, in order, and only when every line reads. */
  lemma {:induction false} ParseLoadsSpec(lines: seq<string>, toReal: NumberParser, toId: IdParser)
    ensures ParseLoads(lines, toReal, toId).Some? <==> forall k :: 0 <= k < |lines| ==> ParseLoadLine(lines[k], toReal, toId).Some?
    ensures ParseLoads(lines, toReal, toId).Some? ==>
              |ParseLoads(lines, toReal, toId).value| == |lines| &&
              forall k :: 0 <= k < |lines| ==> ParseLoadLine(lines[k], toReal, toId) == Some(ParseLoads(lines, toReal, toId).value[k])
    decreases |lines|
  {
    if |lines| > 0 {
      ParseLoadsSpec(lines[1..], toReal, toId);
      if ParseLoadLine(lines[0], toReal, toId).Some? && ParseLoads(lines[1..], toReal, toId).Some? {
        var rest := ParseLoads(lines[1..], toReal, toId).value;
        forall k | 0 <= k < |lines| ensures ParseLoadLine(lines[k], toReal, toId) == Some(ParseLoads(lines, toReal, toId).value[k]) {
          if k > 0 {
            assert lines[k] == lines[1..][k - 1];
          }
        }
      } else if ParseLoadLine(lines[0], toReal, toId).Some? {
        var k :| 0 <= k < |lines[1..]| && ParseLoadLine(lines[1..][k], toReal, toId).None?;
        assert ParseLoadLine(lines[k + 1], toReal, toId).None?;
      }
    }
  }

  /** Load line text as the problem format has it: id, pickup and dropoff separated by spaces. */
  function LoadLine(l: Load, show: NumberPrinter): string
  {
    Join([l.id, PointText(l.pickup, show), PointText(l.dropoff, show)], " ")
  }

  /** The coordinates of the load print back, and its id is a single word that reads back as itself. */
  predicate Writable(l: Load, toReal: NumberParser, toId: IdParser, show: NumberPrinter)
  {
    Word(l.id) && toId(l.id) == Some(l.id) &&
    Printable(toReal, show, l.pickup.x) && Printable(toReal, show, l.pickup.y) &&
    Printable(toReal, show, l.dropoff.x) && Printable(toReal, show, l.dropoff.y)
  }

  lemma PointTextWord(p: Point, toReal: NumberParser, show: NumberPrinter)
    requires Printable(toReal, show, p.x) && Printable(toReal, show, p.y)
    ensures Word(PointText(p, show))
  {
    var a, b := show(p.x), show(p.y);
    var s := PointText(p, show);
    forall k | 0 <= k < |s| ensures !IsSpace(s[k]) {
      if 1 <= k < 1 + |a| {
        assert s[k] == a[k - 1];
      } else if 2 + |a| <= k < 2 + |a| + |b| {
        assert s[k] == b[k - 2 - |a|];
      }
    }
  }

  /** A load line written out and terminated by '\n' reads back as the same load. */
  lemma LoadLineRoundTrip(l: Load, toReal: NumberParser, toId: IdParser, show: NumberPrinter)
    requires Writable(l, toReal, toId, show)
    ensures ParseLoadLine(LoadLine(l, show) + "\n", toReal, toId) == Some(l)
    ensures '\n' !in LoadLine(l, show)
  {
    var ws := [l.id, PointText(l.pickup, show), PointText(l.dropoff, show)];
    PointTextWord(l.pickup, toReal, show);
    PointTextWord(l.dropoff, toReal, show);
    var line := LoadLine(l, show);
    assert '\n' !in line by {
      assert IsSpace('\n');
      WordsHaveNoNewline(ws);
    }
    RemoveConcat(line, "\n", '\n');
    RemoveAbsent(line, '\n');
    assert Remove("\n", '\n') == "";
    assert Remove(line + "\n", '\n') == line;
    FieldsJoin(ws);
    PointRoundTrip(l.pickup, toReal, show);
    PointRoundTrip(l.dropoff, toReal, show);
  }

  lemma {:induction false} WordsHaveNoNewline(ws: seq<string>)
    requires |ws| >= 1 && forall k :: 0 <= k < |ws| ==> Word(ws[k])
    ensures '\n' !in Join(ws, " ")
    decreases |ws|
  {
    assert '\n' !in ws[0] by {
      forall k | 0 <= k < |ws[0]| ensures ws[0][k] != '\n' {
        assert !IsSpace(ws[0][k]);
      }
    }
    if |ws| > 1 {
      WordsHaveNoNewline(ws[1..]);
    }
  }

  /** The problem text: a header line, then one line per load. */
  function ProblemText(header: string, loads: seq<Load>, show: NumberPrinter): string
  {
    JoinLines([header] + seq(|loads|, k requires 0 <= k < |loads| => LoadLine(loads[k], show)))
  }

  lemma LoadLinesPlain(loads: seq<Load>, toReal: NumberParser, toId: IdParser, show: NumberPrinter)
    requires forall k :: 0 <= k < |loads| ==> Writable(loads[k], toReal, toId, show)
    ensures forall k :: 0 <= k < |loads| ==> '\n' !in LoadLine(loads[k], show)
  {
    forall k | 0 <= k < |loads| ensures '\n' !in LoadLine(loads[k], show) {
      LoadLineRoundTrip(loads[k], toReal, toId, show);
    }
  }

  /** The lines of a printed problem: the header, then one line per load. */
  lemma ProblemLines(header: string, loads: seq<Load>, toReal: NumberParser, toId: IdParser, show: NumberPrinter)
    requires '\n' !in header
    requires forall k :: 0 <= k < |loads| ==> Writable(loads[k], toReal, toId, show)
    ensures var lines := Lines(ProblemText(header, loads, show), 0);
      |lines| == |loads| + 1 && forall k :: 0 <= k < |loads| ==> lines[k + 1] == LoadLine(loads[k], show) + "\n"
  {
    var body := seq(|loads|, k requires 0 <= k < |loads| => LoadLine(loads[k], show));
    var ls := [header] + body;
    assert ProblemText(header, loads, show) == JoinLines(ls);
    LoadLinesPlain(loads, toReal, toId, show);
    forall k | 0 <= k < |ls| ensures '\n' !in ls[k] {
      if k > 0 {
        assert ls[k] == body[k - 1];
      }
    }
    LinesOfJoin(ls);
    var lines := Terminated(ls);
    forall k | 0 <= k < |loads| ensures lines[k + 1] == LoadLine(loads[k], show) + "\n" {
      assert ls[k + 1] == body[k];
    }
  }

  /** A problem written out in the problem format reads back as the same loads, in order. */
  lemma ProblemRoundTrip(header: string, loads: seq<Load>, toReal: NumberParser, toId: IdParser, show: NumberPrinter)
    requires '\n' !in header
    requires forall k :: 0 <= k < |loads| ==> Writable(loads[k], toReal, toId, show)
    ensures ParseProblem(ProblemText(header, loads, show), toReal, toId) == Some(loads)
  {
    ProblemLines(header, loads, toReal, toId, show);
    var lines := Lines(ProblemText(header, loads, show), 0);
    var rest := lines[1..];
    forall k | 0 <= k < |rest| ensures ParseLoadLine(rest[k], toReal, toId) == Some(loads[k]) {
      assert rest[k] == lines[k + 1];
      LoadLineRoundTrip(loads[k], toReal, toId, show);
    }
    ParseLoadsSpec(rest, toReal, toId);
    var got := ParseLoads(rest, toReal, toId).value;
    assert got == loads by {
      forall k | 0 <= k < |loads| ensures got[k] == loads[k] {
        assert ParseLoadLine(rest[k], toReal, toId) == Some(got[k]);
      }
    }
  }

  // ------------------------------------------------------------------ VRP2

  /** The parsed problem: its loads in order and `h`, the map from id to load. */
  datatype VRP2 = VRP2(loads: seq<Load>, h: map<LoadId, Load>)

  /** The id map the VRP2 constructor fills: a later load with the same id overwrites an earlier one. */
  function IdMap(loads: seq<Load>): map<LoadId, Load>
  {
    if |loads| == 0 then map[] else IdMap(loads[..|loads| - 1])[loads[|loads| - 1].id := loads[|loads| - 1]]
  }

  /** VRP2.__init__: the loop that fills the id map. */
  method NewVRP2(loads: seq<Load>) returns (v: VRP2)
    ensures v.loads == loads && v.h == IdMap(loads)
  {
    var h: map<LoadId, Load> := map[];
    for k := 0 to |loads|
      invariant h == IdMap(loads[..k])
    {
      assert loads[..k + 1][..k] == loads[..k];
      h := h[loads[k].id := loads[k]];
    }
    assert loads[..|loads|] == loads;
    v := VRP2(loads, h);
  }

  /** The id map knows exactly the ids of the loads. */
  lemma {:induction false} IdMapKeys(loads: seq<Load>)
    ensures forall id :: id in IdMap(loads) <==> exists k :: 0 <= k < |loads| && loads[k].id == id
    decreases |loads|
  {
    if |loads| > 0 {
      var n := |loads| - 1;
      var front := loads[..n];
      IdMapKeys(front);
      assert IdMap(loads) == IdMap(front)[loads[n].id := loads[n]];
      forall id | id in IdMap(loads) ensures exists k :: 0 <= k < |loads| && loads[k].id == id {
        if id != loads[n].id {
          var k :| 0 <= k < |front| && front[k].id == id;
          assert loads[k].id == id;
        }
      }
      forall id | exists k :: 0 <= k < |loads| && loads[k].id == id ensures id in IdMap(loads) {
        var k :| 0 <= k < |loads| && loads[k].id == id;
        if k < n {
          assert front[k].id == id;
        }
      }
    }
  }

  /** The id map sends the id of a load that no later load shares to that load: the last one wins. */
  lemma {:induction false} IdMapLast(loads: seq<Load>, k: nat)
    requires k < |loads|
    requires forall k' :: k < k' < |loads| ==> loads[k'].id != loads[k].id
    ensures loads[k].id in IdMap(loads) && IdMap(loads)[loads[k].id] == loads[k]
    decreases |loads|
  {
    var n := |loads| - 1;
    if k < n {
      var front := loads[..n];
      assert front[k] == loads[k];
      forall k' | k < k' < |front| ensures front[k'].id != front[k].id {
        assert front[k'] == loads[k'];
      }
      IdMapLast(front, k);
    }
  }

  /** VRP2.pickup: the load stored under id; None where the source raises KeyError. */
  function Pickup(v: VRP2, id: LoadId): (r: Option<Load>)
    ensures r.Some? <==> id in v.h
  {
    if id in v.h then Some(v.h[id]) else None
  }

  /** With distinct ids, the problem finds every load by its own id. */
  lemma PickupDistinct(loads: seq<Load>, k: nat)
    requires k < |loads|
    requires forall a, b :: 0 <= a < b < |loads| ==> loads[a].id != loads[b].id
    ensures Pickup(VRP2(loads, IdMap(loads)), loads[k].id) == Some(loads[k])
  {
    IdMapLast(loads, k);
  }

  /** The loads read so far, in front of the outcome of reading the rest. */
  function Prepend(loads: seq<Load>, rest: Option<seq<Load>>): Option<seq<Load>>
  {
    match rest
    case None => None
    case Some(more) => Some(loads + more)
  }

  /** The first readline of the loop only skips the header. */
  lemma SkipHeader(s: string, toReal: NumberParser, toId: IdParser)
    ensures ParseProblem(s, toReal, toId) == Prepend([], ParseLoads(Lines(s, LineEnd(s, 0)), toReal, toId))
  {
    var rest := ParseLoads(Lines(s, LineEnd(s, 0)), toReal, toId);
    if rest.Some? {
      assert [] + rest.value == rest.value;
    }
    if |s| > 0 {
      assert Lines(s, 0)[1..] == Lines(s, LineEnd(s, 0));
    }
  }

  /** One step of the reading loop: the line at pos fails the whole read or adds one load. */
  lemma ReadOneLoad(s: string, pos: nat, line: string, load: Option<Load>, loads: seq<Load>, toReal: NumberParser, toId: IdParser)
    requires pos < |s| && line == ReadLine(s, pos) && load == ParseLoadLine(line, toReal, toId)
    ensures load.None? ==> Prepend(loads, ParseLoads(Lines(s, pos), toReal, toId)) == None
    ensures load.Some? ==> Prepend(loads, ParseLoads(Lines(s, pos), toReal, toId))
                           == Prepend(loads + [load.value], ParseLoads(Lines(s, LineEnd(s, pos)), toReal, toId))
  {
    var tail := Lines(s, LineEnd(s, pos));
    assert Lines(s, pos) == [line] + tail;
    assert ([line] + tail)[1..] == tail;
    if load.Some? {
      var rest := ParseLoads(tail, toReal, toId);
      if rest.Some? {
        assert loads + ([load.value] + rest.value) == loads + [load.value] + rest.value;
      }
    }
  }

  /**
   * loadProblemFromProblemStr: the readline loop. The first line is skipped,
   * every later line becomes one load, and the end of the input stops the
   * loop. A line that does not parse (a blank line included) makes the source
   * raise, which is None here.
   */
  method LoadProblemFromProblemStr(s: string, toReal: NumberParser, toId: IdParser) returns (r: Option<VRP2>)
    ensures r.None? <==> ParseProblem(s, toReal, toId).None?
    ensures r.Some? ==> r.value.loads == ParseProblem(s, toReal, toId).value && r.value.h == IdMap(r.value.loads)
  {
    var loads: seq<Load> := [];
    var pos := 0;
    var gotHeader := false;
    while true
      invariant pos <= |s|
      invariant !gotHeader ==> pos == 0 && loads == []
      invariant gotHeader ==> ParseProblem(s, toReal, toId) == Prepend(loads, ParseLoads(Lines(s, pos), toReal, toId))
      decreases |s| - pos, if gotHeader then 0 else 1
    {
      var line := ReadLine(s, pos);
      ghost var before := pos;
      pos := LineEnd(s, pos);
      if !gotHeader {
        SkipHeader(s, toReal, toId);
        gotHeader := true;
        continue;
      }
      if |line| == 0 {
        break;
      }
      var load := ParseLoadLine(line, toReal, toId);
      ReadOneLoad(s, before, line, load, loads, toReal, toId);
      if load.None? {
        return None;
      }
      loads := loads + [load.value];
    }
    var v := NewVRP2(loads);
    return Some(v);
  }
}
