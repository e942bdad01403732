/** The parser and the writer of directory READMEs (src/utils/readme_parser.py). */
module ReadmeParser {
  import opened Wrappers
  import opened PythonText
  import opened ReadmeLines

  datatype ParsedReadme = ParsedReadme(title: Option<string>, imageUrl: Option<string>, description: string)

  /** A match of one of the two expressions, with the text of its group. */
  datatype Found = Found(start: nat, end: nat, text: string)

  // ---- the title expression: ^\s*#\s+(?P<title>.+?)\s*$ over several lines ------------------

  predicate LineStart(s: string, i: nat)
    requires i <= |s|
  {
    i == 0 || s[i - 1] == '\n'
  }

  predicate LineEnd(s: string, e: nat)
    requires e <= |s|
  {
    e == |s| || s[e] == '\n'
  }

  /** Greedy white space gives characters back until it stands at the end of a line. */
  function LastLineEnd(s: string, i: nat, e: nat): (r: Option<nat>)
    requires i <= e <= |s|
    ensures r.Some? ==> i <= r.value <= e && LineEnd(s, r.value)
    ensures r.None? ==> forall k :: i <= k <= e ==> !LineEnd(s, k)
    ensures r.Some? ==> forall k :: r.value < k <= e ==> !LineEnd(s, k)
    decreases e
  {
    if LineEnd(s, e) then Some(e) else if e == i then None else LastLineEnd(s, i, e - 1)
  }

  /** The shortest title from `j` on, at least up to `k`, that only white space separates from the end of a line. */
  function TitleFrom(s: string, j: nat, k: nat): (r: Option<Found>)
    requires j < k
    ensures r.Some? ==> j < r.value.end <= |s| && r.value.text != []
    decreases |s| + 1 - k
  {
    if k > |s| || s[k - 1] == '\n' then None
    else
      match LastLineEnd(s, k, RunEnd(s, k, |s|, IsSpace))
      case Some(e) => Some(Found(j, e, s[j..k]))
      case None => TitleFrom(s, j, k + 1)
  }

  /** The white space behind the hash sign gives characters back, down to one. */
  function HeadingAfter(s: string, lo: nat, j: nat): (r: Option<Found>)
    requires lo <= j <= |s|
    ensures r.Some? ==> lo < r.value.end <= |s| && r.value.text != []
    decreases j
  {
    match TitleFrom(s, j, j + 1)
    case Some(found) => Some(found)
    case None => if j == lo then None else HeadingAfter(s, lo, j - 1)
  }

  function HeadingAt(s: string, i: nat): (r: Option<Found>)
    requires i <= |s|
    ensures r.Some? ==> r.value.start == i < r.value.end <= |s| && r.value.text != []
  {
    if !LineStart(s, i) then None
    else
      var hash := RunEnd(s, i, |s|, IsSpace);
      if hash == |s| || s[hash] != '#' then None
      else
        var b := RunEnd(s, hash + 1, |s|, IsSpace);
        if b == hash + 1 then None
        else
          match HeadingAfter(s, hash + 2, b)
          case Some(found) => Some(Found(i, found.end, found.text))
          case None => None
  }

  function FindHeading(s: string, i: nat): (r: Option<Found>)
    requires i <= |s|
    ensures r.Some? ==> i <= r.value.start < r.value.end <= |s| && HeadingAt(s, r.value.start) == r
    ensures r.None? ==> forall k :: i <= k <= |s| ==> HeadingAt(s, k).None?
    decreases |s| - i
  {
    if HeadingAt(s, i).Some? then HeadingAt(s, i) else if i == |s| then None else FindHeading(s, i + 1)
  }

  // ---- the image expression: !\[[^\]]*\]\((?P<url>[^)\s]+)\) --------------------------------

  predicate AltChar(c: char) {
    c != ']'
  }

  predicate UrlChar(c: char) {
    c != ')' && !IsSpace(c)
  }

  function ImageAt(s: string, i: nat): (r: Option<Found>)
    requires i <= |s|
    ensures r.Some? ==> r.value.start == i < r.value.end <= |s|
    ensures r.Some? ==> r.value.text != [] && forall c :: c in r.value.text ==> UrlChar(c)
  {
    if i + 2 > |s| || s[i] != '!' || s[i + 1] != '[' then None
    else
      var close := RunEnd(s, i + 2, |s|, AltChar);
      if close + 2 > |s| || s[close + 1] != '(' then None
      else
        var e := RunEnd(s, close + 2, |s|, UrlChar);
        if e == close + 2 || e == |s| || s[e] != ')' then None else Some(Found(i, e + 1, s[close + 2..e]))
  }

  function FindImage(s: string, i: nat): (r: Option<Found>)
    requires i <= |s|
    ensures r.Some? ==> i <= r.value.start < r.value.end <= |s| && ImageAt(s, r.value.start) == r
    ensures r.Some? ==> forall k :: i <= k < r.value.start ==> ImageAt(s, k).None?
    ensures r.None? ==> forall k :: i <= k <= |s| ==> ImageAt(s, k).None?
    decreases |s| - i
  {
    if ImageAt(s, i).Some? then ImageAt(s, i) else if i == |s| then None else FindImage(s, i + 1)
  }

  // ---- parsing -------------------------------------------------------------------------------

  function NonEmpty(s: string): Option<string> {
    if s == [] then None else Some(s)
  }

  function Group(found: Option<Found>): Option<string> {
    if found.Some? then NonEmpty(Trim(found.value.text)) else None
  }

  predicate Covers(found: Option<Found>, i: nat) {
    found.Some? && found.value.start <= i < found.value.end
  }

  /** The content with the two matches overwritten by blanks. */
  function Blanked(s: string, heading: Option<Found>, image: Option<Found>): (r: string)
    ensures |r| == |s|
  {
    seq(|s|, i requires 0 <= i < |s| => if Covers(heading, i) || Covers(image, i) then ' ' else s[i])
  }

  function Parsed(content: string): ParsedReadme {
    var heading, image := FindHeading(content, 0), FindImage(content, 0);
    ParsedReadme(Group(heading), Group(image), Description(Blanked(content, heading, image)))
  }

  // ---- writing ---------------------------------------------------------------------------------

  const ALT: string := "![alt]("

  function Parts(p: ParsedReadme): seq<string> {
    (if p.title.Some? && p.title.value != [] then ["# " + p.title.value] else []) +
    (if p.imageUrl.Some? && p.imageUrl.value != [] then [ALT + p.imageUrl.value + ")"] else []) +
    (if p.description != [] then [p.description] else [])
  }

  function Written(p: ParsedReadme): string {
    Join("\n\n", Parts(p))
  }

  // ---- the code ----------------------------------------------------------------------------------

  method WriteReadme(p: ParsedReadme) returns (r: string)
    ensures r == Written(p)
  {
    var lines: seq<string> := [];
    if p.title.Some? && p.title.value != [] {
      lines := lines + ["# " + p.title.value];
    }
    if p.imageUrl.Some? && p.imageUrl.value != [] {
      lines := lines + [ALT + p.imageUrl.value + ")"];
    }
    if p.description != [] {
      lines := lines + [p.description];
    }
    assert lines == Parts(p);
    r := Join("\n\n", lines);
  }

  predicate Inside(spans: seq<(nat, nat)>, i: nat) {
    exists k :: 0 <= k < |spans| && spans[k].0 <= i < spans[k].1
  }

  /** Overwrites every span with blanks, in the order of the spans. */
  method BlankSpans(content: string, spans: seq<(nat, nat)>) returns (remaining: string)
    requires forall k :: 0 <= k < |spans| ==> spans[k].0 <= spans[k].1 <= |content|
    ensures |remaining| == |content|
    ensures forall i :: 0 <= i < |content| ==> remaining[i] == if Inside(spans, i) then ' ' else content[i]
  {
    var rebuilt := new char[|content|](i requires 0 <= i < |content| => content[i]);
    for n := 0 to |spans|
      invariant forall i :: 0 <= i < |content| ==> rebuilt[i] == if Inside(spans[..n], i) then ' ' else content[i]
    {
      var (from, to) := spans[n];
      for i := from to to
        invariant forall j :: 0 <= j < |content| ==>
                    rebuilt[j] == if Inside(spans[..n], j) || from <= j < i then ' ' else content[j]
      {
        rebuilt[i] := ' ';
      }
      assert spans[..n + 1] == spans[..n] + [spans[n]];
      InsideMore(spans[..n], spans[n]);
    }
    assert spans[..|spans|] == spans;
    remaining := rebuilt[..];
  }

  lemma InsideMore(spans: seq<(nat, nat)>, span: (nat, nat))
    ensures forall i: nat :: Inside(spans + [span], i) <==> Inside(spans, i) || span.0 <= i < span.1
  {
    forall i: nat
      ensures Inside(spans + [span], i) <==> Inside(spans, i) || span.0 <= i < span.1
    {
      if span.0 <= i < span.1 {
        assert (spans + [span])[|spans|] == span;
      } else if Inside(spans, i) {
        var k :| 0 <= k < |spans| && spans[k].0 <= i < spans[k].1;
        assert (spans + [span])[k] == spans[k];
      }
    }
  }

  method ParseReadme(content: Option<string>) returns (r: ParsedReadme)
    ensures r == if content.Some? then Parsed(content.value) else ParsedReadme(None, None, "")
  {
    hide FindHeading, FindImage, HeadingAt, ImageAt, Description;
    if content.None? || content.value == [] {
      EmptyContent();
      return ParsedReadme(None, None, "");
    }
    var s := content.value;
    var heading := FindHeading(s, 0);
    var title := if heading.Some? then NonEmpty(Trim(heading.value.text)) else None;
    var image := FindImage(s, 0);
    var imageUrl := if image.Some? then NonEmpty(Trim(image.value.text)) else None;
    var consumed: seq<(nat, nat)> := [];
    if heading.Some? {
      consumed := consumed + [(heading.value.start, heading.value.end)];
    }
    if image.Some? {
      consumed := consumed + [(image.value.start, image.value.end)];
    }
    var remaining := s;
    if consumed != [] {
      if |consumed| == 2 && (consumed[1].0 < consumed[0].0 ||
                             (consumed[1].0 == consumed[0].0 && consumed[1].1 < consumed[0].1)) {
        consumed := [consumed[1], consumed[0]];
      }
      assert forall i: nat :: Inside(consumed, i) <==> Covers(heading, i) || Covers(image, i);
      remaining := BlankSpans(s, consumed);
    }
    assert remaining == Blanked(s, heading, image);
    r := ParsedReadme(title, imageUrl, Description(remaining));
  }

  lemma EmptyContent()
    ensures Parsed([]) == ParsedReadme(None, None, "")
  {
    assert Blanked([], None, None) == [];
    EmptyIsTidy();
    TidyDescription([], 0);
  }
}
