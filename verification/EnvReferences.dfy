/** What each pass of the renderer puts in the place of a placeholder, and what a line of a file says
    (scripts/generate-prod-env.py). */
module EnvReferences {
  import opened Wrappers
  import opened PythonText
  import opened EnvTemplate
  import opened EnvFixedPoint

  // ---- placeholders ---------------------------------------------------------------------------

  function Token(key: string, m: Marks): string {
    m.open + key + [m.close]
  }

  /** A text begins with a placeholder exactly if it begins with the marks around a key name. */
  lemma TokenIff(s: string, m: Marks, key: string)
    requires !KeyChar(m.close)
    ensures TokenAt(s, m) == Some(key) <==> KeyName(key) && Token(key, m) <= s
  {
    hide KeyChar, KeyStart, KeyLength;
    if TokenAt(s, m) == Some(key) {
      TokenIsName(s, m);
      assert s == m.open + s[|m.open|..];
      assert s[|m.open|..][..|key|] == key && s[|m.open|..][|key|] == m.close;
    }
    if KeyName(key) && Token(key, m) <= s {
      var rest := s[|m.open|..];
      assert Token(key, m)[..|m.open|] == m.open && m.open <= s;
      forall i | 0 <= i < |key|
        ensures rest[i] == key[i] && KeyChar(rest[i])
      {
        assert s[|m.open| + i] == Token(key, m)[|m.open| + i] == key[i];
        assert key[i] in key;
      }
      assert rest[|key|] == Token(key, m)[|m.open| + |key|] == m.close;
      KeyLengthIs(rest, |key|);
      assert rest[..|key|] == key;
    }
  }

  /** A text holds a placeholder exactly if one begins somewhere in it. */
  lemma {:induction false} SlotsIff(s: string, m: Marks)
    ensures Keys(Scan(s, m)) != [] <==> exists i :: 0 <= i < |s| && TokenAt(s[i..], m).Some?
    decreases |s|
  {
    hide TokenAt, Scan;
    if s != [] {
      ScanFirst(s, m);
      assert s[0..] == s;
      if TokenAt(s, m).None? {
        SlotsIff(s[1..], m);
        assert forall i :: 1 <= i < |s| ==> s[i..] == s[1..][i - 1..];
        assert forall i :: 0 <= i < |s[1..]| ==> s[1..][i..] == s[i + 1..];
      }
    } else {
      NothingScannedFor(m);
    }
  }

  lemma ScanFirst(s: string, m: Marks)
    requires s != []
    ensures TokenAt(s, m).Some? ==> Keys(Scan(s, m)) != []
    ensures TokenAt(s, m).None? ==> Scan(s, m) == [Plain(s[0])] + Scan(s[1..], m)
    ensures TokenAt(s, m).None? ==> Keys(Scan(s, m)) == Keys(Scan(s[1..], m))
  {
    hide TokenAt;
    if TokenAt(s, m).None? {
      assert Scan(s, m)[1..] == Scan(s[1..], m);
    }
  }

  /** The text may end here without cutting a placeholder short. */
  predicate EndsClean(x: string, m: Marks) {
    m.open != [] && !KeyChar(m.close) && (x == [] || (Barrier(x[|x| - 1], m) && x[|x| - 1] != m.open[0]))
  }

  lemma ScanBehindToken(key: string, m: Marks, y: string)
    requires KeyName(key) && m.open != [] && !KeyChar(m.close)
    ensures Scan(Token(key, m) + y, m) == [Slot(key)] + Scan(y, m)
  {
    hide TokenAt, KeyName, KeyChar, Scan;
    var s := Token(key, m) + y;
    assert Token(key, m) <= s;
    TokenIff(s, m, key);
    ScanStep(s, m);
    assert s[|m.open| + |key| + 1..] == y;
  }

  lemma ScanBehindPlain(c: char, m: Marks, s: string)
    requires m.open != [] && c != m.open[0]
    ensures Scan([c] + s, m) == [Plain(c)] + Scan(s, m)
  {
    assert ([c] + s)[1..] == s;
    assert TokenAt([c] + s, m).None?;
  }

  lemma SlotIsScanned(x: string, key: string, y: string, m: Marks)
    requires EndsClean(x, m) && KeyName(key)
    ensures Scan(x + (Token(key, m) + y), m) == Scan(x, m) + [Slot(key)] + Scan(y, m)
  {
    hide Scan, KeyName, KeyChar, Token, Barrier;
    ScanBehindToken(key, m, y);
    var s := Token(key, m) + y;
    if x == [] {
      NothingScannedFor(m);
      assert x + s == s && [] + [Slot(key)] == [Slot(key)];
    } else {
      var front, c := x[..|x| - 1], x[|x| - 1];
      assert x == front + [c] && x + s == front + ([c] + s);
      ScanToBarrier(front, [c] + s, m);
      ScanToBarrier(front, [c], m);
      ScanBehindPlain(c, m, s);
      ScanBehindPlain(c, m, []);
      NothingScannedFor(m);
      assert [c] + [] == [c];
    }
  }

  // ---- the first pass: answers ------------------------------------------------------------------

  lemma AskedIff(text: string, values: map<string, string>)
    ensures Asked(text, values).Ok? <==> forall key :: key in Keys(Scan(text, ASK)) ==> key in values
  {
    hide Scan, Fill;
    var keys := Keys(Scan(text, ASK));
    assert forall key :: key in keys ==> exists i :: 0 <= i < |keys| && keys[i] == key;
  }

  lemma AnswersOf(text: string, values: map<string, string>) returns (u: seq<string>)
    requires Asked(text, values).Ok?
    ensures Answers(Keys(Scan(text, ASK)), u, values) && |u| == |Keys(Scan(text, ASK))|
    ensures Asked(text, values).value == Fill(Scan(text, ASK), u)
  {
    hide Scan, Fill;
    var keys := Keys(Scan(text, ASK));
    u := seq(|keys|, i requires 0 <= i < |keys| => values[keys[i]]);
  }

  ghost predicate Answers(keys: seq<string>, u: seq<string>, values: map<string, string>) {
    |u| == |keys| && forall i :: 0 <= i < |keys| ==> keys[i] in values && u[i] == values[keys[i]]
  }

  /** The answer stands where its placeholder stood, between what becomes of the text on either side; the pass fails
      exactly if an answer is missing in one of the three. */
  lemma AnswerIsFilledIn(x: string, key: string, y: string, values: map<string, string>)
    requires EndsClean(x, ASK) && KeyName(key)
    ensures
      var whole := Asked(x + (Token(key, ASK) + y), values);
      && (whole.Ok? <==> key in values && Asked(x, values).Ok? && Asked(y, values).Ok?)
      && (whole.Ok? ==> whole.value == Asked(x, values).value + values[key] + Asked(y, values).value)
  {
    hide Scan, Fill, Keys, KeyName, EndsClean, Asked, Token, Answers;
    var text := x + (Token(key, ASK) + y);
    var a, b := Scan(x, ASK), Scan(y, ASK);
    SlotIsScanned(x, key, y, ASK);
    KeysConcat(a, [Slot(key)]);
    KeysConcat(a + [Slot(key)], b);
    SlotFill(key, []);
    AskedIff(text, values);
    AskedIff(x, values);
    AskedIff(y, values);
    if key in values && Asked(x, values).Ok? && Asked(y, values).Ok? {
      var u := AnswersOf(x, values);
      var v := AnswersOf(y, values);
      var w := AnswersOf(text, values);
      AnswersJoin(Keys(a), Keys(b), key, u, v, w, values);
      SlotFill(key, values[key]);
      FillConcat(a, [Slot(key)], u, [values[key]]);
      FillConcat(a + [Slot(key)], b, u + [values[key]], v);
    }
  }

  lemma AnswersJoin(a: seq<string>, b: seq<string>, key: string, u: seq<string>, v: seq<string>, w: seq<string>,
                    values: map<string, string>)
    requires key in values && Answers(a, u, values) && Answers(b, v, values) && Answers(a + [key] + b, w, values)
    ensures |u| == |a| && |v| == |b| && w == u + [values[key]] + v
  {
    assert Answers(a + [key] + b, u + [values[key]] + v, values);
  }

  // ---- the second pass: secrets -----------------------------------------------------------------

  /** The secret of the earlier run stands where its placeholder stood, or else the one drawn for this place. */
  lemma SecretIsFilledIn(x: string, key: string, y: string, existing: map<string, string>, sizes: map<string, nat>,
                         draw: (nat, nat) -> string)
    requires EndsClean(x, RANDOM) && KeyName(key)
    requires Secured(x + (Token(key, RANDOM) + y), existing, sizes, draw).Ok?
    ensures
      var place, behind := |Keys(Scan(x, RANDOM))|, |Keys(Scan(y, RANDOM))|;
      key in existing.Keys + sizes.Keys &&
      exists u, v :: |u| == place && |v| == behind &&
        Secured(x + (Token(key, RANDOM) + y), existing, sizes, draw).value ==
        Fill(Scan(x, RANDOM), u) + (if key in existing then existing[key] else draw(place, sizes[key])) +
        Fill(Scan(y, RANDOM), v)
  {
    hide Scan, Fill, Keys, KeyName, EndsClean, Token, Secured, Choices;
    var text := x + (Token(key, RANDOM) + y);
    var a, b := Scan(x, RANDOM), Scan(y, RANDOM);
    SlotIsScanned(x, key, y, RANDOM);
    KeysConcat(a, [Slot(key)]);
    KeysConcat(a + [Slot(key)], b);
    SlotFill(key, []);
    var k := |Keys(a)|;
    assert (Keys(a) + [key] + Keys(b))[k] == key;
    var all := SecuredIs(text, existing, sizes, draw, k);
    FillAround(a, key, b, all[..k], all[k], all[k + 1..], all);
  }

  lemma SecuredIs(text: string, existing: map<string, string>, sizes: map<string, nat>, draw: (nat, nat) -> string,
                  k: nat) returns (all: seq<string>)
    requires Secured(text, existing, sizes, draw).Ok? && k < |Keys(Scan(text, RANDOM))|
    ensures |all| == |Keys(Scan(text, RANDOM))|
    ensures Secured(text, existing, sizes, draw).value == Fill(Scan(text, RANDOM), all)
    ensures
      var key := Keys(Scan(text, RANDOM))[k];
      key in existing.Keys + sizes.Keys && all[k] == if key in existing then existing[key] else draw(k, sizes[key])
  {
    hide Scan, Fill, Keys;
    all := Choices(Keys(Scan(text, RANDOM)), existing, sizes, draw);
  }

  lemma FillAround(a: seq<Piece>, key: string, b: seq<Piece>, u: seq<string>, choice: string, v: seq<string>,
                   all: seq<string>)
    requires |u| == |Keys(a)| && |all| == |u| + 1 + |Keys(b)| && all[..|u|] == u && all[|u|] == choice
    requires v == all[|u| + 1..]
    ensures Keys(a + [Slot(key)] + b) == Keys(a) + [key] + Keys(b) && |v| == |Keys(b)|
    ensures Fill(a + [Slot(key)] + b, all) == Fill(a, u) + choice + Fill(b, v)
  {
    hide Fill, Keys;
    assert all == u + [choice] + v;
    KeysConcat(a, [Slot(key)]);
    SlotFill(key, choice);
    FillConcat(a, [Slot(key)], u, [choice]);
    FillConcat(a + [Slot(key)], b, u + [choice], v);
  }

  /** With both passes done, rendering gives up exactly if a placeholder of theirs begins somewhere in the text. */
  lemma LeftoverIff(template: string, values: map<string, string>, existing: map<string, string>,
                    sizes: map<string, nat>, draw: (nat, nat) -> string, asked: string, secured: string)
    requires Asked(template, values) == Ok(asked) && Secured(asked, existing, sizes, draw) == Ok(secured)
    ensures Substituted(template, values, existing, sizes, draw) == Leftover <==>
            exists i :: 0 <= i < |secured| && (TokenAt(secured[i..], ASK).Some? || TokenAt(secured[i..], RANDOM).Some?)
  {
    hide Scan, Keys, TokenAt, Asked, Secured, Expanded;
    SlotsIff(secured, ASK);
    SlotsIff(secured, RANDOM);
  }

  // ---- what a line says ---------------------------------------------------------------------------

  predicate Blank(s: string) {
    forall c :: c in s ==> IsSpace(c)
  }

  lemma {:induction false} TrimLeftSplits(s: string) returns (blank: string)
    ensures Blank(blank) && s == blank + TrimLeft(s)
    ensures TrimLeft(s) == [] || !IsSpace(TrimLeft(s)[0])
  {
    hide IsSpace;
    if s != [] && IsSpace(s[0]) {
      var rest := TrimLeftSplits(s[1..]);
      blank := [s[0]] + rest;
    } else {
      blank := [];
    }
  }

  lemma {:induction false} TrimRightSplits(s: string) returns (blank: string)
    ensures Blank(blank) && s == TrimRight(s) + blank
    ensures TrimRight(s) == [] || !IsSpace(TrimRight(s)[|TrimRight(s)| - 1])
  {
    hide IsSpace;
    if s != [] && IsSpace(s[|s| - 1]) {
      var rest := TrimRightSplits(s[..|s| - 1]);
      blank := rest + [s[|s| - 1]];
    } else {
      blank := [];
    }
  }

  lemma {:induction false} TrimLeftOf(blank: string, s: string)
    requires Blank(blank) && (s == [] || !IsSpace(s[0]))
    ensures TrimLeft(blank + s) == s
    decreases |blank|
  {
    hide IsSpace;
    if blank == [] {
      assert blank + s == s;
    } else {
      assert blank[0] in blank && (blank + s)[1..] == blank[1..] + s;
      TrimLeftOf(blank[1..], s);
    }
  }

  lemma {:induction false} TrimRightOf(s: string, blank: string)
    requires Blank(blank) && (s == [] || !IsSpace(s[|s| - 1]))
    ensures TrimRight(s + blank) == s
    decreases |blank|
  {
    hide IsSpace;
    if blank == [] {
      assert s + blank == s;
    } else {
      var n := |blank| - 1;
      assert blank[n] in blank && (s + blank)[..|s| + n] == s + blank[..n] && (s + blank)[|s| + n] == blank[n];
      assert Blank(blank[..n]);
      TrimRightOf(s, blank[..n]);
    }
  }

  /** Trimming takes exactly the white space at either end. */
  lemma TrimIff(s: string, t: string)
    ensures Trim(s) == t <==> Trimmed(t) && exists b, c :: Around(s, b, t, c)
  {
    hide Trim, Trimmed, Around;
    if Trim(s) == t {
      var b, c := TrimmedEnds(s);
    }
    if Trimmed(t) {
      forall b, c | Around(s, b, t, c)
        ensures Trim(s) == t
      {
        TrimOfEnds(s, b, t, c);
      }
    }
  }

  lemma TrimmedEnds(s: string) returns (b: string, c: string)
    ensures Trimmed(Trim(s)) && Around(s, b, Trim(s), c)
  {
    hide IsSpace, TrimLeft, TrimRight, Trimmed;
    TrimTrims(s);
    b := TrimLeftSplits(s);
    c := TrimRightSplits(TrimLeft(s));
  }

  lemma TrimOfEnds(s: string, b: string, t: string, c: string)
    requires Trimmed(t) && Around(s, b, t, c)
    ensures Trim(s) == t
  {
    hide IsSpace, TrimLeft, TrimRight;
    if t == [] {
      assert forall x :: x in s ==> x in b || x in c;
      TrimTrims(s);
    } else {
      assert s == b + (t + c) && (t + c)[0] == t[0];
      TrimLeftOf(b, t + c);
      TrimRightOf(t, c);
    }
  }

  ghost predicate Around(s: string, b: string, t: string, c: string) {
    s == b + t + c && Blank(b) && Blank(c)
  }

  /** The key at the start of a text with a mark behind it. */
  lemma KeyInFront(key: string, rest: string)
    requires KeyName(key) && rest != [] && !KeyChar(rest[0])
    ensures KeyLength(key + rest) == |key| && (key + rest)[..|key|] == key && (key + rest)[|key|..] == rest
    ensures KeyStart((key + rest)[0]) && !IsSpace((key + rest)[0]) && (key + rest)[0] != '#'
  {
    hide KeyChar, KeyLength, IsSpace;
    KeyNameParts(key);
    HashIsNoKey();
    var s := key + rest;
    assert key[0] in key && s[0] == key[0];
    forall i | 0 <= i < |key|
      ensures KeyChar(s[i])
    {
      assert s[i] == key[i] && key[i] in key;
    }
    KeyLengthIs(s, |key|);
  }

  lemma FrontIsKey(line: string)
    requires 0 < KeyLength(line) && KeyStart(line[0])
    ensures KeyName(line[..KeyLength(line)])
  {
    hide KeyChar, KeyStart;
    var key := line[..KeyLength(line)];
    assert forall i :: 0 <= i < |key| ==> key[i] == line[i];
  }

  ghost predicate AssignedBehind(raw: string, blank: string, key: string, value: string) {
    Blank(blank) && raw == blank + (key + ("=" + value))
  }

  /** A rendered line gives a key its value exactly if it is `KEY=value`, perhaps behind white space; the value reaches
      to the end of the line. */
  lemma AssignmentIff(raw: string, key: string, value: string)
    ensures Assignment(raw) == Some((key, value)) <==>
            KeyName(key) && exists blank :: AssignedBehind(raw, blank, key, value)
  {
    hide KeyName, AssignedBehind, Assignment;
    if Assignment(raw) == Some((key, value)) {
      var blank := AssignedParts(raw, key, value);
    }
    if KeyName(key) {
      forall blank | AssignedBehind(raw, blank, key, value)
        ensures Assignment(raw) == Some((key, value))
      {
        LineAssigns(raw, blank, key, value);
      }
    }
  }

  lemma AssignedParts(raw: string, key: string, value: string) returns (blank: string)
    requires Assignment(raw) == Some((key, value))
    ensures KeyName(key) && AssignedBehind(raw, blank, key, value)
  {
    hide KeyChar, KeyStart, KeyLength, IsSpace, TrimLeft;
    blank := TrimLeftSplits(raw);
    var line := TrimLeft(raw);
    FrontIsKey(line);
    assert line == key + ("=" + value);
  }

  lemma LineAssigns(raw: string, blank: string, key: string, value: string)
    requires KeyName(key) && AssignedBehind(raw, blank, key, value)
    ensures Assignment(raw) == Some((key, value))
  {
    hide KeyChar, KeyStart, KeyLength, IsSpace, TrimLeft;
    CloseIsNoKey();
    KeyInFront(key, "=" + value);
    TrimLeftOf(blank, key + ("=" + value));
    assert (key + ("=" + value))[|key| + 1..] == value;
  }

  ghost predicate ReadBehind(raw: string, blank: string, key: string, gap: string, rest: string, value: string) {
    Blank(blank) && Blank(gap) && raw == blank + (key + (gap + ("=" + rest))) && Trim(rest) == value
  }

  /** A line of an existing file says so exactly if it is `KEY = value` with any white space at either end and around
      the equals sign, which is not part of the value. */
  lemma ParseLineIff(raw: string, key: string, value: string)
    ensures ParseLine(raw) == Some((key, value)) <==>
            KeyName(key) && exists blank, gap, rest :: ReadBehind(raw, blank, key, gap, rest, value)
  {
    hide KeyName, ReadBehind, ParseLine, Trim;
    if ParseLine(raw) == Some((key, value)) {
      var blank, gap, rest := ReadLineParts(raw, key, value);
    }
    if KeyName(key) {
      forall blank, gap, rest | ReadBehind(raw, blank, key, gap, rest, value)
        ensures ParseLine(raw) == Some((key, value))
      {
        LineIsRead(raw, blank, key, gap, rest, value);
      }
    }
  }

  lemma ReadLineParts(raw: string, key: string, value: string) returns (blank: string, gap: string, rest: string)
    requires ParseLine(raw) == Some((key, value))
    ensures KeyName(key) && ReadBehind(raw, blank, key, gap, rest, value)
  {
    hide KeyChar, KeyStart, KeyLength, IsSpace, Trim, TrimLeft;
    blank := TrimLeftSplits(raw);
    var line := TrimLeft(raw);
    FrontIsKey(line);
    var n := KeyLength(line);
    gap := TrimLeftSplits(line[n..]);
    var behind := TrimLeft(line[n..]);
    rest := behind[1..];
    assert line == key + line[n..] && behind == "=" + rest;
  }

  lemma LineIsRead(raw: string, blank: string, key: string, gap: string, rest: string, value: string)
    requires KeyName(key) && ReadBehind(raw, blank, key, gap, rest, value)
    ensures ParseLine(raw) == Some((key, value))
  {
    hide KeyChar, KeyStart, KeyLength, IsSpace, Trim;
    CloseIsNoKey();
    EqualsIsNoSpace();
    SpaceIsNoKey(gap);
    var behind := gap + ("=" + rest);
    assert gap != [] ==> behind[0] == gap[0] && gap[0] in gap;
    KeyInFront(key, behind);
    TrimLeftOf(blank, key + behind);
    TrimLeftOf(gap, "=" + rest);
    assert ("=" + rest)[1..] == rest;
  }

  lemma SpaceIsNoKey(s: string)
    requires Blank(s)
    ensures forall c :: c in s ==> !KeyChar(c)
  {
  }

  /** A commented line says nothing to either reader. */
  lemma CommentSaysNothing(blank: string, rest: string)
    requires Blank(blank)
    ensures Assignment(blank + ("#" + rest)).None? && ParseLine(blank + ("#" + rest)).None?
  {
    hide KeyLength;
    TrimLeftOf(blank, "#" + rest);
  }

  // ---- the last line of a key wins -------------------------------------------------------------------

  type Said = Option<(string, string)>

  predicate Names(said: Said, key: string) {
    said.Some? && said.value.0 == key
  }

  /** Line `k` is the last one that says something about the key. */
  ghost predicate IsLastFor(said: seq<Said>, k: nat, key: string) {
    k < |said| && Names(said[k], key) && forall j :: k < j < |said| ==> !Names(said[j], key)
  }

  function Assignments(lines: seq<string>): (r: seq<Said>)
    ensures |r| == |lines| && forall i :: 0 <= i < |r| ==> r[i] == Assignment(lines[i])
  {
    seq(|lines|, i requires 0 <= i < |lines| => Assignment(lines[i]))
  }

  function Readings(lines: seq<string>): (r: seq<Said>)
    ensures |r| == |lines| && forall i :: 0 <= i < |r| ==> r[i] == ParseLine(lines[i])
  {
    seq(|lines|, i requires 0 <= i < |lines| => ParseLine(lines[i]))
  }

  function MapOf(said: seq<Said>): map<string, string> {
    if said == [] then map[]
    else
      var earlier, last := MapOf(said[..|said| - 1]), said[|said| - 1];
      if last.Some? then earlier[last.value.0 := last.value.1] else earlier
  }

  lemma {:induction false} MapOfIsLast(said: seq<Said>, key: string)
    ensures key in MapOf(said) <==> exists k: nat :: IsLastFor(said, k, key)
    ensures forall k: nat :: IsLastFor(said, k, key) ==> key in MapOf(said) && MapOf(said)[key] == said[k].value.1
  {
    if said != [] {
      var n := |said| - 1;
      var past := said[..n];
      MapOfIsLast(past, key);
      if Names(said[n], key) {
        assert IsLastFor(said, n, key);
      } else {
        assert forall j :: 0 <= j < n ==> past[j] == said[j];
        forall k: nat
          ensures IsLastFor(said, k, key) <==> IsLastFor(past, k, key)
        {
        }
      }
    }
  }

  lemma {:induction false} DerivedIsMap(lines: seq<string>)
    ensures Derived(lines) == MapOf(Assignments(lines))
  {
    hide Assignment;
    if lines != [] {
      DerivedIsMap(lines[..|lines| - 1]);
      assert Assignments(lines)[..|lines| - 1] == Assignments(lines[..|lines| - 1]);
    }
  }

  lemma {:induction false} EnvIsMap(lines: seq<string>)
    ensures EnvOf(lines) == MapOf(Readings(lines))
  {
    hide ParseLine;
    if lines != [] {
      EnvIsMap(lines[..|lines| - 1]);
      assert Readings(lines)[..|lines| - 1] == Readings(lines[..|lines| - 1]);
    }
  }

  /** The third pass knows a key exactly if some line assigns it, and then the value of the last such line. */
  lemma DerivedIsLast(lines: seq<string>, key: string)
    ensures key in Derived(lines) <==> exists k: nat :: IsLastFor(Assignments(lines), k, key)
    ensures forall k: nat :: IsLastFor(Assignments(lines), k, key) ==>
      key in Derived(lines) && Derived(lines)[key] == Assignment(lines[k]).value.1
  {
    hide Assignment, Derived;
    DerivedIsMap(lines);
    MapOfIsLast(Assignments(lines), key);
  }

  /** The same of the file of an earlier run. */
  lemma EnvIsLast(lines: seq<string>, key: string)
    ensures key in EnvOf(lines) <==> exists k: nat :: IsLastFor(Readings(lines), k, key)
    ensures forall k: nat :: IsLastFor(Readings(lines), k, key) ==>
      key in EnvOf(lines) && EnvOf(lines)[key] == ParseLine(lines[k]).value.1
  {
    hide ParseLine, EnvOf;
    EnvIsMap(lines);
    MapOfIsLast(Readings(lines), key);
  }

  // ---- the third pass: references ---------------------------------------------------------------------

  function Behind(y: string): string {
    if y == [] then [] else y[1..]
  }

  /** A whole line of a text is one of its lines, with the lines before and behind it around it. */
  lemma {:induction false} SplitAround(x: string, line: string, y: string)
    requires (x == [] || x[|x| - 1] == '\n') && (y == [] || y[0] == '\n')
    requires line != [] && forall c :: c in line ==> !IsBreak(c)
    ensures SplitLines(x + line + y) == SplitLines(x) + [line] + SplitLines(Behind(y))
    decreases |x|
  {
    hide LineLength, IsBreak, SplitLines, BreakLength;
    LineFeedIsBreak();
    var s := x + line + y;
    if x == [] {
      SplitFromLine(line, y);
      SplitNothing();
      assert s == line + y && [] + [line] == [line];
    } else {
      var n := LineLength(s);
      assert s[|x| - 1] == '\n' && s[..|x|] == x;
      BreakEnds(s, |x| - 1);
      SameFirstLine(x, s);
      var k := n + BreakLength(s, n);
      SplitFirst(s, n);
      SplitFirst(x, n);
      DropFront(x, line, y, k);
      assert s[..n] == x[..n];
      SplitAround(x[k..], line, y);
    }
  }

  lemma DropFront(x: string, line: string, y: string, k: nat)
    requires k <= |x|
    ensures (x + line + y)[k..] == x[k..] + line + y
  {
  }

  lemma SplitFromLine(line: string, y: string)
    requires y == [] || y[0] == '\n'
    requires line != [] && forall c :: c in line ==> !IsBreak(c)
    ensures SplitLines(line + y) == [line] + SplitLines(Behind(y))
  {
    hide LineLength, IsBreak, SplitLines, BreakLength;
    LineFeedIsBreak();
    SplitNothing();
    var s := line + y;
    assert forall i :: 0 <= i < |line| ==> s[i] == line[i] && line[i] in line;
    LineLengthIs(s, |line|);
    SplitFirst(s, |line|);
    assert s[..|line|] == line;
    if y == [] {
      assert s == line;
    } else {
      LineFeedAlone(s, |line|);
      assert s[|line| + 1..] == y[1..];
    }
  }

  lemma SplitNothing()
    ensures SplitLines([]) == []
  {
  }

  lemma LineFeedAlone(s: string, n: nat)
    requires n < |s| && s[n] == '\n'
    ensures BreakLength(s, n) == 1
  {
  }

  /** Text that ends in a line feed breaks off its first line as any longer text does. */
  lemma SameFirstLine(x: string, s: string)
    requires x != [] && x <= s && x[|x| - 1] == '\n'
    ensures LineLength(x) == LineLength(s) < |x| && BreakLength(x, LineLength(x)) == BreakLength(s, LineLength(s))
  {
    hide IsBreak;
    LineFeedIsBreak();
    BreakEnds(x, |x| - 1);
    var n := LineLength(x);
    assert forall i :: 0 <= i < |x| ==> s[i] == x[i];
    LineLengthIs(s, n);
  }

  /** What a whole line assigns is known to the third pass, unless a later line assigns the same key. */
  lemma ShownIsDerived(text: string, key: string, value: string, x: string, y: string)
    requires ShowsBetween(text, key + "=" + value, x, y) && KeyName(key)
    requires forall c :: c in value ==> !IsBreak(c)
    requires forall l :: l in SplitLines(Behind(y)) ==> Assignment(l).None? || Assignment(l).value.0 != key
    ensures key in Derived(SplitLines(text)) && Derived(SplitLines(text))[key] == value
  {
    hide SplitLines, Assignment, KeyName, IsBreak, Derived, Behind;
    var line := key + "=" + value;
    KeyHasNoBreak(key);
    SplitAround(x, line, y);
    assert Assignment(line) == Some((key, value)) by {
      assert line == [] + (key + ("=" + value));
      assert AssignedBehind(line, [], key, value);
      AssignmentIff(line, key, value);
    }
    var lines, k := SplitLines(text), |SplitLines(x)|;
    forall j | k < j < |lines|
      ensures lines[j] in SplitLines(Behind(y))
    {
      assert lines[j] == SplitLines(Behind(y))[j - k - 1];
    }
    assert IsLastFor(Assignments(lines), k, key);
    DerivedIsLast(lines, key);
  }

  /** A reference to a key that a whole line assigns, with no later one that does, shows the value of that line, unless
      the user gave another. */
  lemma ReferenceShowsLine(template: string, values: map<string, string>, existing: map<string, string>,
                           sizes: map<string, nat>, draw: (nat, nat) -> string,
                           asked: string, text: string, out: string,
                           key: string, value: string, x: string, y: string, before: string, behind: string)
    requires Asked(template, values) == Ok(asked) && Secured(asked, existing, sizes, draw) == Ok(text)
    requires Substituted(template, values, existing, sizes, draw) == Ok(out)
    requires ShowsBetween(text, key + "=" + value, x, y) && KeyName(key) && forall c :: c in value ==> !IsBreak(c)
    requires forall l :: l in SplitLines(Behind(y)) ==> Assignment(l).None? || Assignment(l).value.0 != key
    requires text == before + (BRACES.open + key + "}" + behind)
    ensures
      var known := Derived(SplitLines(text)) + values;
      out == Expand(Scan(before, BRACES), known) + (if key in values then values[key] else value) +
             Expand(Scan(behind, BRACES), known)
  {
    hide SplitLines, Assignment, KeyName, IsBreak, Derived, Behind, Scan, Keys, Expand, Asked, Secured, ShowsBetween;
    ShownIsDerived(text, key, value, x, y);
    ReferenceIsExpanded(before, key, behind, Derived(SplitLines(text)) + values);
  }

  lemma {:induction false} ExpandUnknown(pieces: seq<Piece>)
    ensures Expand(pieces, map[]) == Unscan(pieces)
  {
    if pieces != [] {
      ExpandUnknown(pieces[1..]);
    }
  }

  function Unscan(pieces: seq<Piece>): string {
    if pieces == [] then []
    else (match pieces[0] case Plain(c) => [c] case Slot(key) => BRACES.open + key + "}") + Unscan(pieces[1..])
  }

  lemma {:induction false} UnscanScan(s: string)
    ensures Unscan(Scan(s, BRACES)) == s
    decreases |s|
  {
    hide TokenAt, StepLength, Scan;
    if s != [] {
      ScanStep(s, BRACES);
      var n := StepLength(s, BRACES);
      UnscanScan(s[n..]);
      UnscanStep(s, n);
      assert s == s[..n] + s[n..];
      assert Scan(s, BRACES)[1..] == Scan(s[n..], BRACES);
    } else {
      NothingScannedFor(BRACES);
    }
  }

  lemma UnscanStep(s: string, n: nat)
    requires s != [] && n == StepLength(s, BRACES) <= |s|
    ensures s[..n] == if TokenAt(s, BRACES).Some? then BRACES.open + TokenAt(s, BRACES).value + "}" else [s[0]]
  {
    hide KeyName, TokenAt;
    BraceIsNoKey();
    if TokenAt(s, BRACES).Some? {
      var key := TokenAt(s, BRACES).value;
      TokenIff(s, BRACES, key);
      assert s[..|Token(key, BRACES)|] == Token(key, BRACES) == BRACES.open + key + "}";
    } else {
      assert s[..1] == [s[0]];
    }
  }

  /** A reference to a secret shows the secret that was chosen for it. */
  lemma ReferenceShowsSecret(template: string, values: map<string, string>, existing: map<string, string>,
                             sizes: map<string, nat>, draw: (nat, nat) -> string, asked: string,
                             choices: seq<string>, out: string, i: nat, before: string, behind: string)
    requires FirstRun(template, values, existing, sizes, draw, asked, choices, out) && SecretLines(asked)
    requires forall c :: c in choices ==> PlainSecret(c)
    requires i < |choices| && Keys(Scan(asked, RANDOM))[i] !in values
    requires
      var key, text := Keys(Scan(asked, RANDOM))[i], Fill(Scan(asked, RANDOM), choices);
      && OnlyAssignment(SplitLines(text), key)
      && text == before + (BRACES.open + key + "}" + behind)
    ensures
      var known := Derived(SplitLines(Fill(Scan(asked, RANDOM), choices))) + values;
      out == Expand(Scan(before, BRACES), known) + choices[i] + Expand(Scan(behind, BRACES), known)
  {
    hide Scan, Keys, Fill, Expand, SplitLines, SecretLines, KeyName, Derived, Asked, Assignment, OnlyAssignment,
         PlainSecret;
    var keys, text := Keys(Scan(asked, RANDOM)), Fill(Scan(asked, RANDOM), choices);
    var key := keys[i];
    SecretsShow(asked, choices, map[]);
    ExpandUnknown(Scan(text, BRACES));
    UnscanScan(text);
    assert Shows(text, key, choices[i]);
    KeysAreNames(asked, RANDOM);
    assert key in keys && choices[i] in choices;
    var x, y :| ShowsBetween(text, key + "=" + choices[i], x, y);
    OnlyAssignmentIsLast(text, key, choices[i], x, y);
    ShownIsDerived(text, key, choices[i], x, y);
    ReferenceIsExpanded(before, key, behind, Derived(SplitLines(text)) + values);
  }

  /** At most one line assigns the key. */
  ghost predicate OnlyAssignment(lines: seq<string>, key: string) {
    forall i, j :: 0 <= i < j < |lines| && Assigns(lines[i], key) ==> !Assigns(lines[j], key)
  }

  predicate Assigns(line: string, key: string) {
    Assignment(line).Some? && Assignment(line).value.0 == key
  }

  lemma OnlyAssignmentIsLast(text: string, key: string, secret: string, x: string, y: string)
    requires ShowsBetween(text, key + "=" + secret, x, y) && KeyName(key) && PlainSecret(secret)
    requires OnlyAssignment(SplitLines(text), key)
    ensures forall c :: c in secret ==> !IsBreak(c)
    ensures forall l :: l in SplitLines(Behind(y)) ==> Assignment(l).None? || Assignment(l).value.0 != key
  {
    hide SplitLines, Assignment, KeyName, IsBreak, Behind, Trimmed, Scan, Keys;
    var line := key + "=" + secret;
    KeyHasNoBreak(key);
    SplitAround(x, line, y);
    assert Assigns(line, key) by {
      assert line == [] + (key + ("=" + secret));
      assert AssignedBehind(line, [], key, secret);
      AssignmentIff(line, key, secret);
    }
    var lines, k := SplitLines(text), |SplitLines(x)|;
    assert lines[k] == line;
    forall l | l in SplitLines(Behind(y))
      ensures !Assigns(l, key)
    {
      var j :| 0 <= j < |SplitLines(Behind(y))| && SplitLines(Behind(y))[j] == l;
      assert lines[k + 1 + j] == l;
    }
  }
}
