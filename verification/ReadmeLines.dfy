/** The description of a directory README: its non-blank lines, trimmed (src/utils/readme_parser.py). */
module ReadmeLines {
  import opened PythonText

  function Description(remaining: string): string {
    Trim(Join("\n", Kept(SplitLines(remaining))))
  }

  /** Text without blank lines and without white space around its lines, broken only by line feeds. */
  predicate Tidy(d: string) {
    Trimmed(d) &&
    forall i :: 0 < i < |d| - 1 && IsBreak(d[i]) ==> d[i] == '\n' && !IsSpace(d[i - 1]) && !IsSpace(d[i + 1])
  }

  // ---- leading white space does not show -------------------------------------------------

  lemma KeptFirst(line: string, rest: seq<string>)
    ensures Kept([line] + rest) == (if Trim(line) == [] then [] else [Trim(line)]) + Kept(rest)
  {
    assert ([line] + rest)[1..] == rest;
  }

  lemma TrimSkipsSpace(c: char, s: string)
    requires IsSpace(c)
    ensures Trim([c] + s) == Trim(s)
  {
    assert ([c] + s)[1..] == s;
  }

  lemma SpaceInFront(c: char, s: string)
    requires IsSpace(c)
    ensures Kept(SplitLines([c] + s)) == Kept(SplitLines(s))
  {
    if IsBreak(c) {
      BreakInFront(c, s);
    } else {
      BlankInFront(c, s);
    }
  }

  lemma BreakInFront(c: char, s: string)
    requires IsBreak(c)
    ensures Kept(SplitLines([c] + s)) == Kept(SplitLines(s))
  {
    hide IsBreak, IsSpace, LineLength, Kept, SplitLines, BreakLength;
    var t := [c] + s;
    LineLengthIs(t, 0);
    SplitFirst(t, 0);
    TrimOfTrimmed([]);
    assert t[..0] == [];
    KeptFirst([], SplitLines(t[BreakLength(t, 0)..]));
    OneOrTwo(c, s);
    if BreakLength(t, 0) == 2 {
      LineFeedInFront(s);
      assert t[2..] == s[1..];
    } else {
      assert t[1..] == s;
    }
  }

  lemma OneOrTwo(c: char, s: string)
    ensures BreakLength([c] + s, 0) == 1 || (BreakLength([c] + s, 0) == 2 && s != [] && s[0] == '\n')
  {
  }

  lemma LineFeedInFront(s: string)
    requires s != [] && s[0] == '\n'
    ensures Kept(SplitLines(s)) == Kept(SplitLines(s[1..]))
  {
    hide IsSpace, LineLength, Kept, SplitLines;
    LineLengthIs(s, 0);
    SplitFirst(s, 0);
    TrimOfTrimmed([]);
    assert s[..0] == [];
    KeptFirst([], SplitLines(s[1..]));
  }

  lemma BreakShift(c: char, s: string, n: nat)
    requires n < |s|
    ensures BreakLength([c] + s, n + 1) == BreakLength(s, n)
    ensures ([c] + s)[n + 1 + BreakLength(s, n)..] == s[n + BreakLength(s, n)..]
  {
  }

  lemma BlankInFront(c: char, s: string)
    requires IsSpace(c) && !IsBreak(c)
    ensures Kept(SplitLines([c] + s)) == Kept(SplitLines(s))
  {
    hide IsBreak, IsSpace, LineLength, Kept, Trim, SplitLines, BreakLength;
    var t, n := [c] + s, LineLength(s);
    LineLengthIs(t, n + 1);
    SplitFirst(t, n + 1);
    TrimSkipsSpace(c, s[..n]);
    assert t[..n + 1] == [c] + s[..n];
    if n == |s| {
      assert t[..n + 1] == t && s[..n] == s && [t] == [t] + [] && [s] == [s] + [];
      KeptFirst(t, []);
      KeptNone();
      if s == [] {
        NothingKept();
        TrimOfTrimmed([]);
      } else {
        SplitFirst(s, n);
        KeptFirst(s, []);
      }
    } else {
      SplitFirst(s, n);
      BreakShift(c, s, n);
      var rest := s[n + BreakLength(s, n)..];
      KeptFirst(t[..n + 1], SplitLines(rest));
      KeptFirst(s[..n], SplitLines(rest));
    }
  }

  lemma KeptNone()
    ensures Kept([]) == []
  {
  }

  /** White space in front of the text does not change its description. */
  lemma {:induction false} SpacesInFront(r: string, n: nat)
    requires n <= |r| && forall i :: 0 <= i < n ==> IsSpace(r[i])
    ensures Kept(SplitLines(r)) == Kept(SplitLines(r[n..]))
    decreases n
  {
    hide IsSpace, Kept, SplitLines;
    if n > 0 {
      assert r == [r[0]] + r[1..];
      SpaceInFront(r[0], r[1..]);
      SpacesInFront(r[1..], n - 1);
      assert r[1..][n - 1..] == r[n..];
    } else {
      assert r[n..] == r;
    }
  }

  // ---- tidy text is kept as it is ----------------------------------------------------------

  lemma JoinMore(first: string, rest: seq<string>)
    requires rest != []
    ensures Join("\n", [first] + rest) == first + "\n" + Join("\n", rest)
  {
    assert ([first] + rest)[1..] == rest;
  }

  lemma {:induction false} TidyIsKept(d: string)
    requires Tidy(d)
    ensures Join("\n", Kept(SplitLines(d))) == d && (d != [] ==> Kept(SplitLines(d)) != [])
    decreases |d|
  {
    hide IsBreak, IsSpace, LineLength, Kept, Trim, Join, Trimmed, SplitLines, BreakLength, Tidy;
    var n := LineLength(d);
    if d == [] {
      NothingKept();
      JoinNone();
    } else {
      SplitFirst(d, n);
      if n == |d| {
        TidyIsTrimmed(d);
        TrimOfTrimmed(d);
        KeptFirst(d, []);
        KeptNone();
        assert [d] == [d] + [];
        JoinOne(d);
      } else {
        FirstLine(d, n);
        var line, rest := d[..n], d[n + 1..];
        TrimOfTrimmed(line);
        KeptFirst(line, SplitLines(rest));
        TidyIsKept(rest);
        JoinMore(line, Kept(SplitLines(rest)));
        assert d == line + "\n" + rest;
      }
    }
  }

  lemma TidyIsTrimmed(d: string)
    requires Tidy(d)
    ensures Trimmed(d)
  {
  }

  lemma JoinNone()
    ensures Join("\n", []) == []
  {
  }

  lemma JoinOne(d: string)
    ensures Join("\n", [d]) == d
  {
  }

  lemma FirstLine(d: string, n: nat)
    requires Tidy(d) && n < |d| && IsBreak(d[n]) && forall i :: 0 <= i < n ==> !IsBreak(d[i])
    ensures d[n] == '\n' && Trimmed(d[..n]) && d[..n] != [] && n + 1 < |d| && Tidy(d[n + 1..]) && BreakLength(d, n) == 1
  {
    assert 0 < n < |d| - 1;
    var rest := d[n + 1..];
    assert forall i :: 0 <= i < |rest| ==> rest[i] == d[n + 1 + i];
  }

  lemma TidyDescription(r: string, n: nat)
    requires n <= |r| && (forall i :: 0 <= i < n ==> IsSpace(r[i])) && Tidy(r[n..])
    ensures Description(r) == r[n..]
  {
    hide IsSpace, Kept, SplitLines, Trim, Join;
    SpacesInFront(r, n);
    TidyIsKept(r[n..]);
    TrimOfTrimmed(r[n..]);
  }

  // ---- every description is tidy -------------------------------------------------------------

  predicate GoodLine(line: string) {
    line != [] && Trimmed(line) && forall c :: c in line ==> !IsBreak(c)
  }

  lemma TrimmedIsGood(line: string)
    requires forall c :: c in line ==> !IsBreak(c)
    ensures Trim(line) != [] ==> GoodLine(Trim(line))
  {
    hide IsBreak, IsSpace, Trim, Trimmed;
    TrimTrims(line);
  }

  lemma {:induction false} KeptLines(s: string)
    ensures forall line :: line in Kept(SplitLines(s)) ==> GoodLine(line)
    decreases |s|
  {
    hide IsBreak, IsSpace, Kept, Trim, GoodLine, SplitLines, BreakLength;
    var n := LineLength(s);
    if s == [] {
      NothingKept();
    } else {
      SplitFirst(s, n);
      assert forall c :: c in s[..n] ==> !IsBreak(c);
      TrimmedIsGood(s[..n]);
      if n == |s| {
        KeptNone();
        assert s[..n] == s && [s] == [s] + [];
        KeptFirst(s, []);
      } else {
        KeptLines(s[n + BreakLength(s, n)..]);
        KeptFirst(s[..n], SplitLines(s[n + BreakLength(s, n)..]));
      }
    }
  }

  lemma NothingKept()
    ensures Kept(SplitLines([])) == []
  {
  }

  lemma {:induction false} JoinIsTidy(lines: seq<string>)
    requires forall line :: line in lines ==> GoodLine(line)
    ensures Tidy(Join("\n", lines)) && (lines != [] ==> Join("\n", lines) != [])
    decreases lines
  {
    hide IsBreak, IsSpace, Trimmed, Tidy, Join;
    if lines == [] {
      JoinNone();
      EmptyIsTidy();
    } else {
      assert lines == [lines[0]] + lines[1..];
      assert lines[0] in lines && forall line :: line in lines[1..] ==> line in lines;
      LineIsTidy(lines[0]);
      if |lines| == 1 {
        assert lines == [lines[0]];
        JoinOne(lines[0]);
        assert lines[0] in lines;
      } else {
        JoinIsTidy(lines[1..]);
        JoinMore(lines[0], lines[1..]);
        TidyMore(lines[0], Join("\n", lines[1..]));
      }
    }
  }

  lemma EmptyIsTidy()
    ensures Tidy([])
  {
  }

  lemma LineIsTidy(line: string)
    requires GoodLine(line)
    ensures Tidy(line)
  {
    assert forall i :: 0 <= i < |line| ==> line[i] in line;
  }

  lemma TidyMore(line: string, rest: string)
    requires GoodLine(line) && Tidy(rest) && rest != []
    ensures Tidy(line + "\n" + rest)
  {
    hide IsBreak, IsSpace;
    var d, n := line + "\n" + rest, |line|;
    assert forall i :: 0 <= i < n ==> d[i] == line[i] && line[i] in line;
    forall i | 0 < i < |d| - 1 && IsBreak(d[i])
      ensures d[i] == '\n' && !IsSpace(d[i - 1]) && !IsSpace(d[i + 1])
    {
      if i > n {
        assert d[i] == rest[i - n - 1] && d[i + 1] == rest[i - n];
        TidyAt(rest, i - n - 1);
      }
    }
  }

  lemma TidyAt(d: string, k: nat)
    requires Tidy(d) && k < |d| - 1 && IsBreak(d[k])
    ensures 0 < k && d[k] == '\n' && !IsSpace(d[k - 1]) && !IsSpace(d[k + 1])
  {
  }

  /** Whatever the text, its description is tidy. */
  lemma DescriptionIsTidy(r: string)
    ensures Tidy(Description(r))
  {
    hide IsSpace, Kept, SplitLines, Trim, Join;
    KeptLines(r);
    JoinIsTidy(Kept(SplitLines(r)));
    TrimOfTrimmed(Join("\n", Kept(SplitLines(r))));
  }
}
