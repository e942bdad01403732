/** The attachment scanner of src/utils/extract_attachments.py: one regular expression with two alternatives, a backward
    search for the enclosing URL, and two passes over the matches. */
module AttachmentScanner {
  import opened Wrappers
  import opened PercentEncoding
  import opened PythonText

  predicate SlugChar(c: char) {
    IsAlnum(c) || c == '_' || c == '-'
  }

  predicate KeyChar(c: char) {
    SlugChar(c) || c == '%' || c == '/'
  }

  function Lower(c: char): char {
    if 'A' <= c <= 'Z' then c - 'A' + 'a' else c
  }

  /** `lit`, written in lower case, occurs at `i` and ends by `hi`, in any mix of cases. */
  predicate FoldsTo(s: string, i: nat, hi: nat, lit: string)
    requires hi <= |s|
  {
    i + |lit| <= hi && forall j :: 0 <= j < |lit| ==> Lower(s[i + j]) == lit[j]
  }

  const PATH_PREFIX: string := "/api/attachments/"

  /** A match of the first alternative carries a path slug, one of the second the raw value of a `key`. */
  datatype Match = Slug(start: nat, end: nat, text: string) | KeyRef(start: nat, end: nat, text: string)

  function SlugAt(s: string, i: nat, hi: nat): Option<Match>
    requires i <= hi <= |s|
  {
    if !FoldsTo(s, i, hi, PATH_PREFIX) then None
    else
      var from := i + |PATH_PREFIX|;
      var e := RunEnd(s, from, hi, SlugChar);
      if e == from then None else Some(Slug(i, e, s[from..e]))
  }

  function SkipQuote(s: string, i: nat, hi: nat): (r: nat)
    requires i <= hi <= |s|
    ensures i <= r <= hi && r <= i + 1
  {
    if i < hi && s[i] == '"' then i + 1 else i
  }

  /** The look-behind sees the whole text, also before the region that is searched. */
  function KeyRefAt(s: string, i: nat, hi: nat): Option<Match>
    requires i <= hi <= |s|
  {
    if (i > 0 && SlugChar(s[i - 1])) || !FoldsTo(s, i, hi, "key") then None
    else
      var equals := RunEnd(s, i + 3, hi, IsSpace);
      if equals == hi || s[equals] != '=' then None
      else
        var from := SkipQuote(s, RunEnd(s, equals + 1, hi, IsSpace), hi);
        var e := RunEnd(s, from, hi, KeyChar);
        if e == from then None else Some(KeyRef(i, SkipQuote(s, e, hi), s[from..e]))
  }

  function MatchAt(s: string, i: nat, hi: nat): (m: Option<Match>)
    requires i <= hi <= |s|
    ensures m.Some? ==> m.value.start == i < m.value.end <= hi
  {
    if SlugAt(s, i, hi).Some? then SlugAt(s, i, hi) else KeyRefAt(s, i, hi)
  }

  /** The leftmost match that starts at or after `lo`. */
  function Search(s: string, lo: nat, hi: nat): (m: Option<Match>)
    requires lo <= hi <= |s|
    ensures m.Some? ==> lo <= m.value.start < m.value.end <= hi
    decreases hi - lo
  {
    if MatchAt(s, lo, hi).Some? then MatchAt(s, lo, hi) else if lo == hi then None else Search(s, lo + 1, hi)
  }

  /** The non-overlapping matches from `lo` on, left to right. */
  function FindAll(s: string, lo: nat): seq<Match>
    requires lo <= |s|
    decreases |s| - lo
  {
    match Search(s, lo, |s|)
    case None => []
    case Some(m) => [m] + FindAll(s, m.end)
  }

  // ---- the URL around a key ------------------------------------------------------------

  /** Start of the last occurrence of `marker` that ends by `pos`. */
  function LastBefore(s: string, marker: string, pos: nat): (r: Option<nat>)
    requires marker != [] && pos <= |s|
    ensures r.Some? ==> r.value + |marker| <= pos && OccursAt(s, r.value, marker)
    ensures forall i: nat :: i + |marker| <= pos && OccursAt(s, i, marker) ==> r.Some? && i <= r.value
    decreases pos
  {
    if pos < |marker| then None
    else if OccursAt(s, pos - |marker|, marker) then Some(pos - |marker|)
    else LastBefore(s, marker, pos - 1)
  }

  const MARKERS: seq<string> := ["https://", "http://", "/api/"]

  function UrlStart(s: string, pos: nat): (r: nat)
    requires pos <= |s|
    ensures r <= pos
  {
    if LastBefore(s, "https://", pos).Some? then LastBefore(s, "https://", pos).value
    else if LastBefore(s, "http://", pos).Some? then LastBefore(s, "http://", pos).value
    else if LastBefore(s, "/api/", pos).Some? then LastBefore(s, "/api/", pos).value
    else 0
  }

  // ---- the two passes --------------------------------------------------------------------

  /** The slug that a key reference supersedes: the first match of its URL, if that is a path. */
  function SupersededBy(s: string, key: Match): Option<nat>
    requires key.start <= |s|
  {
    match Search(s, UrlStart(s, key.start), key.start)
    case Some(Slug(start, _, _)) => Some(start)
    case _ => None
  }

  predicate AllWithin(ms: seq<Match>, n: nat) {
    forall i :: 0 <= i < |ms| ==> ms[i].start <= n
  }

  function Superseded(s: string, ms: seq<Match>): set<nat>
    requires AllWithin(ms, |s|)
  {
    if ms == [] then {}
    else
      Superseded(s, ms[1..]) +
      if ms[0].KeyRef? && SupersededBy(s, ms[0]).Some? then {SupersededBy(s, ms[0]).value} else {}
  }

  /** What each surviving match stands for, in order. */
  function Values(ms: seq<Match>, superseded: set<nat>): seq<string> {
    if ms == [] then []
    else
      (match ms[0]
       case Slug(start, _, text) => if start in superseded then [] else [text]
       case KeyRef(_, _, text) => [Unquote(Unquote(text))]) + Values(ms[1..], superseded)
  }

  /** First occurrences only, in order. */
  function Unique(xs: seq<string>): seq<string> {
    if xs == [] then []
    else
      var rest := Unique(xs[..|xs| - 1]);
      if xs[|xs| - 1] in rest then rest else rest + [xs[|xs| - 1]]
  }

  lemma {:induction false} FindAllWithin(s: string, lo: nat)
    requires lo <= |s|
    ensures AllWithin(FindAll(s, lo), |s|)
    decreases |s| - lo
  {
    match Search(s, lo, |s|)
    case None =>
    case Some(m) => FindAllWithin(s, m.end);
  }

  function Extracted(s: string): seq<string> {
    FindAllWithin(s, 0);
    var ms := FindAll(s, 0);
    Unique(Values(ms, Superseded(s, ms)))
  }

  lemma {:induction false} UniqueIsSet(xs: seq<string>)
    ensures forall x :: x in Unique(xs) <==> x in xs
    ensures forall i, j :: 0 <= i < j < |Unique(xs)| ==> Unique(xs)[i] != Unique(xs)[j]
  {
    if xs != [] {
      UniqueIsSet(xs[..|xs| - 1]);
      assert xs == xs[..|xs| - 1] + [xs[|xs| - 1]];
    }
  }

  // ---- the code --------------------------------------------------------------------------

  method FindUrlStart(content: string, pos: nat) returns (start: nat)
    requires pos <= |content|
    ensures start == UrlStart(content, pos)
  {
    for i := 0 to 3
      invariant i > 0 ==> LastBefore(content, "https://", pos).None?
      invariant i > 1 ==> LastBefore(content, "http://", pos).None?
      invariant i > 2 ==> LastBefore(content, "/api/", pos).None?
    {
      var marker := MARKERS[i];
      assert i == 0 || i == 1 || i == 2;
      var found := LastBefore(content, marker, pos);
      if found.Some? {
        return found.value;
      }
    }
    start := 0;
  }

  /** First pass: the path slugs that a key in the same URL supersedes. */
  method MarkSuperseded(content: string) returns (superseded: set<nat>)
    ensures AllWithin(FindAll(content, 0), |content|)
    ensures superseded == Superseded(content, FindAll(content, 0))
  {
    hide MatchAt, Search, UrlStart;
    FindAllWithin(content, 0);
    superseded := {};
    var pos := 0;
    ghost var rest := FindAll(content, 0);
    while true
      invariant pos <= |content| && rest == FindAll(content, pos) && AllWithin(rest, |content|)
      invariant superseded + Superseded(content, rest) == Superseded(content, FindAll(content, 0))
      decreases |content| - pos
    {
      var found := Search(content, pos, |content|);
      if found.None? {
        break;
      }
      var m := found.value;
      if m.KeyRef? {
        var urlStart := FindUrlStart(content, m.start);
        var path := Search(content, urlStart, m.start);
        if path.Some? && path.value.Slug? {
          superseded := superseded + {path.value.start};
        }
      }
      assert rest[1..] == FindAll(content, m.end);
      pos, rest := m.end, rest[1..];
    }
  }

  /** What one match contributes to the result list. */
  lemma ValuesStep(s: string, pos: nat, superseded: set<nat>)
    requires pos <= |s|
    ensures
      match Search(s, pos, |s|)
      case None => Values(FindAll(s, pos), superseded) == []
      case Some(m) =>
        Values(FindAll(s, pos), superseded) ==
        (if m.Slug? && m.start in superseded then []
         else [if m.Slug? then m.text else Unquote(Unquote(m.text))]) + Values(FindAll(s, m.end), superseded)
  {
    hide MatchAt, Search, Unquote;
    if Search(s, pos, |s|).Some? {
      var m := Search(s, pos, |s|).value;
      assert FindAll(s, pos)[1..] == FindAll(s, m.end);
    }
  }

  lemma UniqueStep(done: seq<string>, raw: string)
    ensures Unique(done + [raw]) == if raw in Unique(done) then Unique(done) else Unique(done) + [raw]
  {
    assert (done + [raw])[..|done|] == done;
  }

  method ExtractAttachmentIds(content: string) returns (result: seq<string>)
    ensures result == Extracted(content)
  {
    hide MatchAt, Search, Superseded, Unquote, FindAll, Values, Unique;
    if content == [] {
      EmptyContent();
      return [];
    }
    var superseded := MarkSuperseded(content);
    var seen: set<string> := {};
    result := [];
    var pos := 0;
    ghost var done := [];
    UniqueOfNone();
    while true
      invariant pos <= |content|
      invariant Values(FindAll(content, 0), superseded) == done + Values(FindAll(content, pos), superseded)
      invariant result == Unique(done)
      invariant forall x :: x in seen <==> x in result
      decreases |content| - pos
    {
      ValuesStep(content, pos, superseded);
      var found := Search(content, pos, |content|);
      if found.None? {
        break;
      }
      var m := found.value;
      pos := m.end;
      if m.Slug? && m.start in superseded {
        continue;
      }
      var raw := if m.Slug? then m.text else Unquote(Unquote(m.text));
      UniqueStep(done, raw);
      done := done + [raw];
      if raw in seen {
        continue;
      }
      seen := seen + {raw};
      result := result + [raw];
    }
    assert Values(FindAll(content, 0), superseded) == done;
  }

  lemma EmptyContent()
    ensures Extracted([]) == []
  {
    assert FindAll([], 0) == [];
  }

  lemma UniqueOfNone()
    ensures Unique([]) == []
  {
  }
}
