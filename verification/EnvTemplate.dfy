/** The renderer of the environment template (scripts/generate-prod-env.py): placeholders are filled in three passes,
    and the file of an earlier run is read back to keep its secrets. */
module EnvTemplate {
  import opened Wrappers
  import opened PythonText

  // ---- placeholders ----------------------------------------------------------------------

  predicate KeyStart(c: char) {
    'A' <= c <= 'Z'
  }

  predicate KeyChar(c: char) {
    KeyStart(c) || '0' <= c <= '9' || c == '_'
  }

  function KeyLength(s: string): (n: nat)
    ensures n <= |s| && (forall i :: 0 <= i < n ==> KeyChar(s[i])) && (n < |s| ==> !KeyChar(s[n]))
  {
    RunEnd(s, 0, |s|, KeyChar)
  }

  datatype Marks = Marks(open: string, close: char)

  const ASK: Marks := Marks("@ask:", '@')
  const RANDOM: Marks := Marks("@random:", '@')
  const BRACES: Marks := Marks("${", '}')

  /** The key of a placeholder at the start of the text. */
  function TokenAt(s: string, m: Marks): (key: Option<string>)
    ensures key.Some? ==> |m.open| + |key.value| + 1 <= |s|
  {
    if !(m.open <= s) then None
    else
      var rest := s[|m.open|..];
      var n := KeyLength(rest);
      if n == 0 || !KeyStart(rest[0]) || n == |rest| || rest[n] != m.close then None else Some(rest[..n])
  }

  datatype Piece = Plain(c: char) | Slot(key: string)

  /** The text as characters and placeholders, left to right. */
  function Scan(s: string, m: Marks): seq<Piece> {
    if s == [] then []
    else
      match TokenAt(s, m)
      case Some(key) => [Slot(key)] + Scan(s[|m.open| + |key| + 1..], m)
      case None => [Plain(s[0])] + Scan(s[1..], m)
  }

  function Keys(pieces: seq<Piece>): seq<string> {
    if pieces == [] then []
    else (if pieces[0].Slot? then [pieces[0].key] else []) + Keys(pieces[1..])
  }

  /** Every placeholder replaced by the next of `choices`. */
  function Fill(pieces: seq<Piece>, choices: seq<string>): string
    requires |choices| == |Keys(pieces)|
    decreases pieces
  {
    if pieces == [] then []
    else if pieces[0].Slot? then choices[0] + Fill(pieces[1..], choices[1..])
    else [pieces[0].c] + Fill(pieces[1..], choices)
  }

  // ---- rendering -------------------------------------------------------------------------

  datatype Result<T> = Ok(value: T) | UnknownKey(key: string) | Leftover

  function FirstUnknown(keys: seq<string>, known: set<string>): (r: Option<string>)
    ensures r.None? <==> forall i :: 0 <= i < |keys| ==> keys[i] in known
    ensures r.Some? ==> r.value !in known && exists i :: 0 <= i < |keys| && keys[i] == r.value &&
                                                         forall j :: 0 <= j < i ==> keys[j] in known
    decreases |keys|
  {
    if keys == [] then None else if keys[0] !in known then Some(keys[0]) else FirstUnknown(keys[1..], known)
  }

  function Asked(text: string, values: map<string, string>): Result<string> {
    var keys := Keys(Scan(text, ASK));
    match FirstUnknown(keys, values.Keys)
    case Some(key) => UnknownKey(key)
    case None => Ok(Fill(Scan(text, ASK), seq(|keys|, i requires 0 <= i < |keys| => values[keys[i]])))
  }

  /** The secret for each placeholder: the one of the earlier run, or else a fresh one of the size given for the key. */
  function Choices(keys: seq<string>, existing: map<string, string>, sizes: map<string, nat>,
                   draw: (nat, nat) -> string): seq<string>
    requires forall i :: 0 <= i < |keys| ==> keys[i] in existing.Keys + sizes.Keys
  {
    seq(|keys|, i requires 0 <= i < |keys| =>
      if keys[i] in existing then existing[keys[i]] else draw(i, sizes[keys[i]]))
  }

  function Secured(text: string, existing: map<string, string>, sizes: map<string, nat>,
                   draw: (nat, nat) -> string): Result<string>
  {
    var keys := Keys(Scan(text, RANDOM));
    match FirstUnknown(keys, existing.Keys + sizes.Keys)
    case Some(key) => UnknownKey(key)
    case None => Ok(Fill(Scan(text, RANDOM), Choices(keys, existing, sizes, draw)))
  }

  /** The key and the value of a rendered line, where it has the plain form `KEY=value`. */
  function Assignment(raw: string): Option<(string, string)> {
    var line := TrimLeft(raw);
    if line == [] || line[0] == '#' then None
    else
      var n := KeyLength(line);
      if n == 0 || !KeyStart(line[0]) || n == |line| || line[n] != '=' then None else Some((line[..n], line[n + 1..]))
  }

  function Derived(lines: seq<string>): map<string, string> {
    if lines == [] then map[]
    else
      var earlier, last := Derived(lines[..|lines| - 1]), Assignment(lines[|lines| - 1]);
      if last.Some? then earlier[last.value.0 := last.value.1] else earlier
  }

  /** `${KEY}` stands for the value of a key, and for itself where there is none. */
  function Expand(pieces: seq<Piece>, known: map<string, string>): string {
    if pieces == [] then []
    else
      (match pieces[0]
       case Plain(c) => [c]
       case Slot(key) => if key in known then known[key] else BRACES.open + key + [BRACES.close]) +
      Expand(pieces[1..], known)
  }

  /** The values the user gave win over the rendered lines. */
  function Expanded(text: string, values: map<string, string>): string {
    Expand(Scan(text, BRACES), Derived(SplitLines(text)) + values)
  }

  function Substituted(text: string, values: map<string, string>, existing: map<string, string>,
                       sizes: map<string, nat>, draw: (nat, nat) -> string): Result<string>
  {
    match Asked(text, values)
    case UnknownKey(key) => UnknownKey(key)
    case Leftover => Leftover
    case Ok(asked) =>
      match Secured(asked, existing, sizes, draw)
      case UnknownKey(key) => UnknownKey(key)
      case Leftover => Leftover
      case Ok(secured) =>
        if Keys(Scan(secured, ASK)) != [] || Keys(Scan(secured, RANDOM)) != [] then Leftover
        else Ok(Expanded(secured, values))
  }

  // ---- reading the file of an earlier run --------------------------------------------------

  /** The key and the value of a line, with any white space around them, unless it is blank or a comment. */
  function ParseLine(raw: string): Option<(string, string)> {
    var line := TrimLeft(raw);
    if line == [] || line[0] == '#' then None
    else
      var n := KeyLength(line);
      var rest := TrimLeft(line[n..]);
      if n == 0 || !KeyStart(line[0]) || rest == [] || rest[0] != '=' then None
      else Some((line[..n], Trim(rest[1..])))
  }

  function EnvOf(lines: seq<string>): map<string, string> {
    if lines == [] then map[]
    else
      var earlier, last := EnvOf(lines[..|lines| - 1]), ParseLine(lines[|lines| - 1]);
      if last.Some? then earlier[last.value.0 := last.value.1] else earlier
  }

  /** The secrets that a second run takes over. */
  function Recovered(rendered: string, sizes: map<string, nat>): map<string, string> {
    var env := EnvOf(SplitLines(rendered));
    map key | key in sizes && key in env :: env[key]
  }

  // ---- the code -------------------------------------------------------------------------------

  method ParseExistingEnv(file: Option<string>) returns (parsed: map<string, string>)
    ensures parsed == if file.Some? then EnvOf(SplitLines(file.value)) else map[]
  {
    parsed := map[];
    if file.None? {
      return;
    }
    var lines := SplitLines(file.value);
    for i := 0 to |lines|
      invariant parsed == EnvOf(lines[..i])
    {
      assert lines[..i + 1][..i] == lines[..i];
      var found := ParseLine(lines[i]);
      if found.None? {
        continue;
      }
      parsed := parsed[found.value.0 := found.value.1];
    }
    assert lines[..|lines|] == lines;
  }

  method Substitute(template: string, values: map<string, string>, existing: map<string, string>,
                    sizes: map<string, nat>, draw: (nat, nat) -> string)
    returns (r: Result<string>)
    ensures r == Substituted(template, values, existing, sizes, draw)
  {
    hide Scan, Keys, Fill, SplitLines, Assignment, Expand;
    var asked := Asked(template, values);
    if !asked.Ok? {
      return asked;
    }
    var secured := Secured(asked.value, existing, sizes, draw);
    if !secured.Ok? {
      return secured;
    }
    var text := secured.value;
    if Keys(Scan(text, ASK)) != [] || Keys(Scan(text, RANDOM)) != [] {
      return Leftover;
    }
    var lines := SplitLines(text);
    var derived: map<string, string> := map[];
    for i := 0 to |lines|
      invariant derived == Derived(lines[..i])
    {
      assert lines[..i + 1][..i] == lines[..i];
      var found := Assignment(lines[i]);
      if found.None? {
        continue;
      }
      derived := derived[found.value.0 := found.value.1];
    }
    assert lines[..|lines|] == lines;
    r := Ok(Expand(Scan(text, BRACES), derived + values));
  }
}
