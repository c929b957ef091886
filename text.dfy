/**
 * The string operations the parsers of src/helper.py rely on, written out:
 * io.StringIO.readline, str.replace(c, ""), str.split(sep) and the
 * argument-less str.split() that splits on runs of whitespace.
 */
module Text {
  import opened Common

  /** Python's str.isspace for one character. */
  predicate IsSpace(c: char)
  {
    var n := c as int;
    (0x09 <= n <= 0x0D) || (0x1C <= n <= 0x20) || n == 0x85 || n == 0xA0 || n == 0x1680 ||
    (0x2000 <= n <= 0x200A) || n == 0x2028 || n == 0x2029 || n == 0x202F || n == 0x205F || n == 0x3000
  }

  // ---------------------------------------------------------------- lines

  /** Index just past the line that starts at pos: past its '\n', or the end of s. */
  function LineEnd(s: string, pos: nat): (e: nat)
    requires pos <= |s|
    ensures pos <= e <= |s|
    ensures (e == pos) == (pos == |s|)
    ensures forall k :: pos <= k < e - 1 ==> s[k] != '\n'
    ensures pos < e < |s| ==> s[e - 1] == '\n'
    decreases |s| - pos
  {
    if pos == |s| then pos else if s[pos] == '\n' then pos + 1 else LineEnd(s, pos + 1)
  }

  /** io.StringIO.readline at position pos: the line including its '\n'; "" at the end. */
  function ReadLine(s: string, pos: nat): (line: string)
    requires pos <= |s|
    ensures line <= s[pos..]
    ensures line == "" <==> pos == |s|
    ensures forall k :: 0 <= k < |line| - 1 ==> line[k] != '\n'
    ensures pos + |line| < |s| ==> line[|line| - 1] == '\n'
  {
    s[pos..LineEnd(s, pos)]
  }

  /** The lines that successive readline calls return from pos, up to the first empty result. */
  function Lines(s: string, pos: nat): seq<string>
    requires pos <= |s|
    decreases |s| - pos
  {
    if pos == |s| then [] else [ReadLine(s, pos)] + Lines(s, LineEnd(s, pos))
  }

  /** Lines written one after the other, each followed by '\n'. */
  function JoinLines(ls: seq<string>): string
  {
    if |ls| == 0 then "" else ls[0] + "\n" + JoinLines(ls[1..])
  }

  /** The lines readline returns for such a text: each line with its '\n'. */
  function Terminated(ls: seq<string>): (r: seq<string>)
  {
    seq(|ls|, k requires 0 <= k < |ls| => ls[k] + "\n")
  }

  /** readline never loses or invents a character: the lines joined again give the text. */
  lemma {:induction false} LinesCover(s: string, pos: nat)
    requires pos <= |s|
    ensures Flatten(Lines(s, pos)) == s[pos..]
    decreases |s| - pos
  {
    if pos < |s| {
      var e := LineEnd(s, pos);
      LinesCover(s, e);
      FlattenConcat([ReadLine(s, pos)], Lines(s, e));
      assert Flatten([ReadLine(s, pos)]) == ReadLine(s, pos) by {
        assert [ReadLine(s, pos)][..0] == [];
      }
      assert s[pos..] == s[pos..e] + s[e..];
    }
  }

  lemma {:induction false} LineEndOf(s: string, pos: nat, l: string)
    requires pos + |l| < |s| && s[pos..pos + |l| + 1] == l + "\n" && '\n' !in l
    ensures LineEnd(s, pos) == pos + |l| + 1
    decreases |l|
  {
    if |l| == 0 {
      assert s[pos] == (l + "\n")[0];
    } else {
      assert s[pos] == l[0];
      assert (l + "\n")[1..] == l[1..] + "\n";
      assert s[pos + 1..pos + |l| + 1] == s[pos..pos + |l| + 1][1..];
      LineEndOf(s, pos + 1, l[1..]);
    }
  }

  lemma TerminatedCons(ls: seq<string>)
    requires |ls| > 0
    ensures Terminated(ls) == [ls[0] + "\n"] + Terminated(ls[1..])
  {
  }

  lemma SliceSplit(s: string, pos: nat, a: string, b: string)
    requires pos <= |s| && s[pos..] == a + b
    ensures s[pos..pos + |a|] == a && s[pos + |a|..] == b
  {
    assert s[pos..pos + |a|] == s[pos..][..|a|];
    assert s[pos + |a|..] == s[pos..][|a|..];
  }

  /** Reading back a text made of lines without '\n' gives those lines, each with its '\n'. */
  lemma {:induction false} LinesOfText(s: string, pos: nat, ls: seq<string>)
    requires pos <= |s| && s[pos..] == JoinLines(ls)
    requires forall k :: 0 <= k < |ls| ==> '\n' !in ls[k]
    ensures Lines(s, pos) == Terminated(ls)
    decreases |ls|
  {
    if |ls| == 0 {
      assert |s[pos..]| == 0;
    } else {
      var l, rest := ls[0], ls[1..];
      var e := pos + |l| + 1;
      assert JoinLines(ls) == (l + "\n") + JoinLines(rest);
      SliceSplit(s, pos, l + "\n", JoinLines(rest));
      LineEndOf(s, pos, l);
      assert ReadLine(s, pos) == l + "\n";
      assert forall k :: 0 <= k < |rest| ==> rest[k] == ls[k + 1];
      LinesOfText(s, e, rest);
      assert Lines(s, pos) == [l + "\n"] + Lines(s, e);
      TerminatedCons(ls);
    }
  }

  lemma LinesOfJoin(ls: seq<string>)
    requires forall k :: 0 <= k < |ls| ==> '\n' !in ls[k]
    ensures Lines(JoinLines(ls), 0) == Terminated(ls)
  {
    var s := JoinLines(ls);
    assert s[0..] == s;
    LinesOfText(s, 0, ls);
  }

  // ---------------------------------------------------------- replace

  /** str.replace(c, ""): every c removed, everything else kept in order. */
  function Remove(s: string, c: char): (r: string)
    ensures forall d :: d in r <==> d in s && d != c
    decreases |s|
  {
    if |s| == 0 then "" else (if s[0] == c then "" else [s[0]]) + Remove(s[1..], c)
  }

  lemma {:induction false} RemoveAbsent(s: string, c: char)
    requires c !in s
    ensures Remove(s, c) == s
    decreases |s|
  {
    if |s| > 0 {
      RemoveAbsent(s[1..], c);
      assert s == [s[0]] + s[1..];
    }
  }

  lemma {:induction false} RemoveConcat(a: string, b: string, c: char)
    ensures Remove(a + b, c) == Remove(a, c) + Remove(b, c)
    decreases |a|
  {
    if |a| == 0 {
      assert a + b == b;
    } else {
      assert (a + b)[1..] == a[1..] + b;
      RemoveConcat(a[1..], b, c);
    }
  }

  lemma RemoveHead(c: char, b: string)
    ensures Remove([c] + b, c) == Remove(b, c)
  {
    assert ([c] + b)[0] == c && ([c] + b)[1..] == b;
  }

  /** Removing c from a text in which c follows a part free of it. */
  lemma RemoveAt(a: string, c: char, b: string)
    requires c !in a
    ensures Remove(a + ([c] + b), c) == a + Remove(b, c)
  {
    RemoveConcat(a, [c] + b, c);
    RemoveAbsent(a, c);
    RemoveHead(c, b);
  }

  // ------------------------------------------------------------ split

  /** The parts joined with sep between them. */
  function Join(parts: seq<string>, sep: string): string
    requires |parts| >= 1
  {
    if |parts| == 1 then parts[0] else parts[0] + sep + Join(parts[1..], sep)
  }

  /** str.split(c): the maximal pieces between the separators; "" gives [""]. */
  function Split(s: string, c: char): (parts: seq<string>)
    ensures |parts| >= 1
    decreases |s|
  {
    if |s| == 0 then [""]
    else
      var rest := Split(s[1..], c);
      if s[0] == c then [""] + rest else [[s[0]] + rest[0]] + rest[1..]
  }

  /** One piece more than there are separators. */
  lemma {:induction false} SplitCount(s: string, c: char)
    ensures |Split(s, c)| == multiset(s)[c] + 1
    decreases |s|
  {
    if |s| > 0 {
      SplitCount(s[1..], c);
      assert s == [s[0]] + s[1..];
    }
  }

  /** No piece holds the separator. */
  lemma {:induction false} SplitAvoids(s: string, c: char)
    ensures forall k :: 0 <= k < |Split(s, c)| ==> c !in Split(s, c)[k]
    decreases |s|
  {
    if |s| > 0 {
      SplitAvoids(s[1..], c);
      var rest := Split(s[1..], c);
      if s[0] != c {
        assert c !in [s[0]] + rest[0];
        assert forall k :: 1 <= k < |rest| ==> Split(s, c)[k] == rest[k];
      } else {
        assert forall k :: 1 <= k < |Split(s, c)| ==> Split(s, c)[k] == rest[k - 1];
      }
    }
  }

  /** Splitting loses nothing: the pieces joined with the separator give the string back. */
  lemma {:induction false} JoinSplit(s: string, c: char)
    ensures Join(Split(s, c), [c]) == s
    decreases |s|
  {
    if |s| > 0 {
      var rest := Split(s[1..], c);
      JoinSplit(s[1..], c);
      if s[0] == c {
        assert ([""] + rest)[1..] == rest;
      } else {
        var parts := [[s[0]] + rest[0]] + rest[1..];
        if |rest| > 1 {
          assert parts[1..] == rest[1..];
          assert Join(rest, [c]) == rest[0] + [c] + Join(rest[1..], [c]);
        }
      }
      assert s == [s[0]] + s[1..];
    }
  }

  lemma {:induction false} SplitPrefix(p: string, t: string, c: char)
    requires c !in p
    ensures Split(p + t, c) == [p + Split(t, c)[0]] + Split(t, c)[1..]
    decreases |p|
  {
    if |p| == 0 {
      var parts := Split(t, c);
      assert p + t == t && p + parts[0] == parts[0];
      assert parts == [parts[0]] + parts[1..];
    } else {
      var s := p + t;
      assert s[0] == p[0] && s[0] != c;
      assert s[1..] == p[1..] + t;
      SplitPrefix(p[1..], t, c);
      var rest := Split(s[1..], c);
      assert Split(s, c) == [[p[0]] + rest[0]] + rest[1..];
      assert [p[0]] + (p[1..] + Split(t, c)[0]) == p + Split(t, c)[0];
    }
  }

  /** Splitting pieces free of the separator, joined with it, gives the pieces back. */
  lemma {:induction false} SplitJoin(parts: seq<string>, c: char)
    requires |parts| >= 1
    requires forall k :: 0 <= k < |parts| ==> c !in parts[k]
    ensures Split(Join(parts, [c]), c) == parts
    decreases |parts|
  {
    if |parts| == 1 {
      SplitPrefix(parts[0], "", c);
      assert parts[0] + "" == parts[0];
    } else {
      var tail := Join(parts[1..], [c]);
      var u := [c] + tail;
      SplitJoin(parts[1..], c);
      assert parts[0] + [c] + tail == parts[0] + u;
      SplitPrefix(parts[0], u, c);
      assert u[0] == c && u[1..] == tail;
      assert Split(u, c) == [""] + parts[1..];
      assert parts[0] + "" == parts[0];
      assert parts == [parts[0]] + parts[1..];
    }
  }

  // ------------------------------------------------------ whitespace split

  /** A non-empty run of non-whitespace characters. */
  predicate Word(w: string)
  {
    |w| > 0 && forall k :: 0 <= k < |w| ==> !IsSpace(w[k])
  }

  /** Length of the run of non-whitespace characters that starts s. */
  function WordLength(s: string): (n: nat)
    ensures n <= |s|
    ensures forall k :: 0 <= k < n ==> !IsSpace(s[k])
    ensures n < |s| ==> IsSpace(s[n])
    decreases |s|
  {
    if |s| == 0 || IsSpace(s[0]) then 0 else 1 + WordLength(s[1..])
  }

  /** str.split() with no argument: the words between runs of whitespace, none empty. */
  function Fields(s: string): (fs: seq<string>)
    ensures forall k :: 0 <= k < |fs| ==> Word(fs[k])
    decreases |s|
  {
    if |s| == 0 then []
    else if IsSpace(s[0]) then Fields(s[1..])
    else
      var n := WordLength(s);
      [s[..n]] + Fields(s[n..])
  }

  lemma {:induction false} WordLengthOf(w: string, t: string)
    requires Word(w) && (|t| == 0 || IsSpace(t[0]))
    ensures WordLength(w + t) == |w|
    decreases |w|
  {
    assert (w + t)[1..] == w[1..] + t;
    if |w| > 1 {
      WordLengthOf(w[1..], t);
    } else {
      assert w[1..] + t == t;
    }
  }

  /** Words joined with single spaces split back into the same words. */
  lemma {:induction false} FieldsJoin(ws: seq<string>)
    requires |ws| >= 1
    requires forall k :: 0 <= k < |ws| ==> Word(ws[k])
    ensures Fields(Join(ws, " ")) == ws
    decreases |ws|
  {
    var w := ws[0];
    if |ws| == 1 {
      WordLengthOf(w, "");
      assert w + "" == w;
      assert w[|w|..] == "";
      assert w[..|w|] == w;
    } else {
      var tail := Join(ws[1..], " ");
      var s := w + (" " + tail);
      assert Join(ws, " ") == s;
      WordLengthOf(w, " " + tail);
      assert s[..|w|] == w;
      assert s[|w|..] == " " + tail;
      assert (" " + tail)[1..] == tail;
      FieldsJoin(ws[1..]);
      assert ws == [w] + ws[1..];
    }
  }
}
