/** What Python calls white space and line breaks, and its `str.strip`, `str.splitlines` and `str.join`. */
module PythonText {

  predicate IsBreak(c: char) {
    '\n' <= c <= '\r' || 0x1c as char <= c <= 0x1e as char || c == 0x85 as char || c == '\U{2028}' || c == '\U{2029}'
  }

  predicate IsSpace(c: char) {
    IsBreak(c) || c == ' ' || c == '\t' || c == 0x1f as char || c == 0xa0 as char || c == '\U{1680}' ||
    '\U{2000}' <= c <= '\U{200A}' || c == '\U{202F}' || c == '\U{205F}' || c == '\U{3000}'
  }

  lemma LineFeedIsBreak()
    ensures IsBreak('\n')
  {
  }

  lemma BreakIsSpace(c: char)
    ensures IsBreak(c) ==> IsSpace(c)
  {
  }

  /** End of the longest run from `i`, at most to `hi`, of characters of one kind. */
  function RunEnd(s: string, i: nat, hi: nat, kind: char -> bool): (e: nat)
    requires i <= hi <= |s|
    ensures i <= e <= hi && forall j :: i <= j < e ==> kind(s[j])
    ensures e < hi ==> !kind(s[e])
    decreases hi - i
  {
    if i < hi && kind(s[i]) then RunEnd(s, i + 1, hi, kind) else i
  }

  lemma RunEndIs(s: string, i: nat, e: nat, hi: nat, kind: char -> bool)
    requires i <= e <= hi <= |s|
    requires forall j :: i <= j < e ==> kind(s[j])
    requires e == hi || !kind(s[e])
    ensures RunEnd(s, i, hi, kind) == e
  {
  }

  // ---- strip ---------------------------------------------------------------------------

  function TrimLeft(s: string): string {
    if s != [] && IsSpace(s[0]) then TrimLeft(s[1..]) else s
  }

  function TrimRight(s: string): string {
    if s != [] && IsSpace(s[|s| - 1]) then TrimRight(s[..|s| - 1]) else s
  }

  function Trim(s: string): string {
    TrimRight(TrimLeft(s))
  }

  predicate Trimmed(s: string) {
    s == [] || (!IsSpace(s[0]) && !IsSpace(s[|s| - 1]))
  }

  lemma {:induction false} TrimRightKeeps(s: string, c: char)
    requires s == [] || !IsSpace(s[0])
    requires c in TrimRight(s)
    ensures c in s
  {
    if s != [] && IsSpace(s[|s| - 1]) {
      TrimRightKeeps(s[..|s| - 1], c);
    }
  }

  lemma {:induction false} TrimRightTrims(s: string)
    requires s == [] || !IsSpace(s[0])
    ensures Trimmed(TrimRight(s)) && (s != [] ==> TrimRight(s) != [])
  {
    if s != [] && IsSpace(s[|s| - 1]) {
      TrimRightTrims(s[..|s| - 1]);
    }
  }

  lemma {:induction false} TrimTrims(s: string)
    ensures Trimmed(Trim(s)) && forall c :: c in Trim(s) ==> c in s
    ensures Trim(s) == [] <==> forall c :: c in s ==> IsSpace(c)
  {
    if s != [] && IsSpace(s[0]) {
      TrimTrims(s[1..]);
      assert forall c :: c in s <==> c == s[0] || c in s[1..];
    } else {
      TrimRightTrims(s);
      forall c | c in TrimRight(s)
        ensures c in s
      {
        TrimRightKeeps(s, c);
      }
      assert s != [] ==> s[0] in s;
    }
  }

  lemma TrimOfTrimmed(s: string)
    requires Trimmed(s)
    ensures Trim(s) == s
  {
  }

  // ---- splitlines ------------------------------------------------------------------------

  predicate NoBreak(c: char) {
    !IsBreak(c)
  }

  function LineLength(s: string): (n: nat)
    ensures n <= |s| && (forall i :: 0 <= i < n ==> !IsBreak(s[i])) && (n < |s| ==> IsBreak(s[n]))
  {
    RunEnd(s, 0, |s|, NoBreak)
  }

  lemma LineLengthIs(s: string, n: nat)
    requires n <= |s| && (forall i :: 0 <= i < n ==> !IsBreak(s[i])) && (n < |s| ==> IsBreak(s[n]))
    ensures LineLength(s) == n
  {
    RunEndIs(s, 0, n, |s|, NoBreak);
  }

  /** A carriage return and a line feed are one break. */
  function BreakLength(s: string, n: nat): (k: nat)
    requires n < |s|
    ensures 1 <= k && n + k <= |s|
  {
    if s[n] == '\r' && n + 1 < |s| && s[n + 1] == '\n' then 2 else 1
  }

  function SplitLines(s: string): seq<string> {
    if s == [] then []
    else
      var n := LineLength(s);
      if n == |s| then [s] else [s[..n]] + SplitLines(s[n + BreakLength(s, n)..])
  }

  lemma SplitFirst(s: string, n: nat)
    requires s != [] && n == LineLength(s)
    ensures n == |s| ==> SplitLines(s) == [s]
    ensures n < |s| ==> SplitLines(s) == [s[..n]] + SplitLines(s[n + BreakLength(s, n)..])
  {
    hide LineLength, BreakLength;
  }

  /** The lines that are not blank, trimmed. */
  function Kept(lines: seq<string>): seq<string> {
    if lines == [] then []
    else (if Trim(lines[0]) == [] then [] else [Trim(lines[0])]) + Kept(lines[1..])
  }

  function Join(separator: string, parts: seq<string>): string {
    if parts == [] then []
    else if |parts| == 1 then parts[0]
    else parts[0] + separator + Join(separator, parts[1..])
  }

  // ---- one text in another ------------------------------------------------------------------

  predicate OccursAt(s: string, i: nat, lit: string) {
    i + |lit| <= |s| && s[i..i + |lit|] == lit
  }

  lemma OccursChar(s: string, i: nat, lit: string, j: nat)
    requires OccursAt(s, i, lit) && j < |lit|
    ensures s[i + j] == lit[j]
  {
    assert s[i..i + |lit|][j] == s[i + j];
  }

  lemma OccursFits(s: string, i: nat, lit: string)
    requires OccursAt(s, i, lit)
    ensures i + |lit| <= |s|
  {
  }

  lemma OccursSplit(s: string, i: nat, a: string, b: string)
    ensures OccursAt(s, i, a + b) <==> OccursAt(s, i, a) && OccursAt(s, i + |a|, b)
  {
    var m, n := i + |a|, i + |a| + |b|;
    if n <= |s| {
      assert s[i..n] == s[i..m] + s[m..n];
      assert s[i..n][..|a|] == s[i..m] && s[i..n][|a|..] == s[m..n];
      assert (a + b)[..|a|] == a && (a + b)[|a|..] == b;
    }
  }
}
