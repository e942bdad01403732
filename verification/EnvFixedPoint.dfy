/** A second run with the secrets of the first one renders the same file (scripts/generate-prod-env.py). */
module EnvFixedPoint {
  import opened Wrappers
  import opened PythonText
  import opened EnvTemplate

  // ---- what is assumed of a template --------------------------------------------------------

  function LineEnd(s: string): (n: nat)
    ensures n <= |s| && '\n' !in s[..n] && (n < |s| ==> s[n] == '\n')
  {
    if s == [] || s[0] == '\n' then 0 else
      var n := LineEnd(s[1..]);
      assert s[..1 + n] == [s[0]] + s[1..][..n];
      1 + n
  }

  predicate KeyName(key: string) {
    key != [] && KeyStart(key[0]) && forall c :: c in key ==> KeyChar(c)
  }

  ghost predicate SecretLine(line: string) {
    exists key :: KeyName(key) && line == key + "=" + (RANDOM.open + key + "@")
  }

  /** Every secret is the whole value of its own key. */
  ghost predicate SecretLines(text: string)
    decreases |text|
  {
    var n := LineEnd(text);
    (Keys(Scan(text[..n], RANDOM)) == [] || SecretLine(text[..n])) && (n < |text| ==> SecretLines(text[n + 1..]))
  }

  /** One line, without white space around it, in which no `${KEY}` stands; hexadecimal digits are. */
  predicate PlainSecret(secret: string) {
    Trimmed(secret) && (forall c :: c in secret ==> !IsBreak(c)) && Keys(Scan(secret, BRACES)) == []
  }

  /** At most one line gives a value to the key. */
  ghost predicate OnlyLine(lines: seq<string>, key: string) {
    forall i, j :: 0 <= i < j < |lines| && Gives(lines[i], key) ==> !Gives(lines[j], key)
  }

  predicate Gives(line: string, key: string) {
    ParseLine(line).Some? && ParseLine(line).value.0 == key
  }

  // ---- scanning part by part -------------------------------------------------------------------

  predicate SingleLine(m: Marks) {
    m.open != [] && '\n' !in m.open && m.close != '\n'
  }

  lemma KeyLengthIs(s: string, n: nat)
    requires n <= |s| && (forall i :: 0 <= i < n ==> KeyChar(s[i])) && (n < |s| ==> !KeyChar(s[n]))
    ensures KeyLength(s) == n
  {
    RunEndIs(s, 0, n, |s|, KeyChar);
  }

  /** A character with which no placeholder goes on: it can only stand in front of one, or begin one. */
  predicate Barrier(c: char, m: Marks) {
    m.open != [] && c !in m.open[1..] && c != m.close && !KeyChar(c)
  }

  lemma PrefixToBarrier(open: string, x: string, y: string)
    requires x != [] && y != [] && open != [] && y[0] !in open[1..]
    ensures open <= x + y <==> open <= x
  {
    var s := x + y;
    assert s[|x|] == y[0];
    assert open <= s ==> forall i :: 0 < i < |open| ==> open[i] == s[i] && open[i] == open[1..][i - 1];
    assert |open| <= |x| ==> s[..|open|] == x[..|open|];
  }

  /** No placeholder that begins in `x` reaches over a barrier. */
  lemma TokenToBarrier(x: string, y: string, m: Marks)
    requires x != [] && y != [] && Barrier(y[0], m)
    ensures TokenAt(x + y, m) == TokenAt(x, m)
  {
    hide KeyChar, KeyStart, KeyLength;
    BarrierIsNoStart(y[0], m);
    var s := x + y;
    PrefixToBarrier(m.open, x, y);
    if m.open <= x {
      var rest := x[|m.open|..];
      var n := KeyLength(rest);
      assert s[|m.open|..] == rest + y;
      KeyLengthIs(rest + y, n);
      assert (rest + y)[..n] == rest[..n];
    }
  }

  lemma BarrierIsNoStart(c: char, m: Marks)
    requires Barrier(c, m)
    ensures !KeyStart(c)
  {
  }

  function StepLength(s: string, m: Marks): nat {
    if TokenAt(s, m).Some? then |m.open| + |TokenAt(s, m).value| + 1 else 1
  }

  lemma ScanStep(s: string, m: Marks)
    requires s != []
    ensures
      var n := StepLength(s, m);
      0 < n <= |s| &&
      Scan(s, m) == [if TokenAt(s, m).Some? then Slot(TokenAt(s, m).value) else Plain(s[0])] + Scan(s[n..], m)
  {
    hide TokenAt;
  }

  lemma {:induction false} ScanToBarrier(x: string, y: string, m: Marks)
    requires y != [] && Barrier(y[0], m)
    ensures Scan(x + y, m) == Scan(x, m) + Scan(y, m)
    decreases |x|
  {
    hide TokenAt, Barrier, Scan;
    if x == [] {
      assert x + y == y;
      NothingScannedFor(m);
    } else {
      TokenToBarrier(x, y, m);
      ScanStep(x, m);
      ScanStep(x + y, m);
      var n := StepLength(x, m);
      assert (x + y)[n..] == x[n..] + y && (x + y)[0] == x[0];
      ScanToBarrier(x[n..], y, m);
    }
  }

  lemma NothingScannedFor(m: Marks)
    ensures Scan([], m) == []
  {
  }

  /** No placeholder crosses a line feed. */
  lemma ScanSplit(x: string, y: string, m: Marks)
    requires SingleLine(m)
    ensures Scan(x + "\n" + y, m) == Scan(x, m) + [Plain('\n')] + Scan(y, m)
  {
    hide KeyChar;
    LineFeedIsNoKey();
    var line := "\n" + y;
    assert x + "\n" + y == x + line;
    assert forall c :: c in m.open[1..] ==> c in m.open;
    ScanToBarrier(x, line, m);
    PrefixBegins(m.open, line);
    assert TokenAt(line, m).None?;
    assert line[1..] == y;
  }

  lemma PrefixBegins(open: string, s: string)
    requires open != [] && s != []
    ensures open <= s ==> s[0] in open
  {
  }

  lemma LineFeedIsNoKey()
    ensures !KeyChar('\n') && !KeyStart('\n')
  {
  }

  lemma {:induction false} KeysConcat(a: seq<Piece>, b: seq<Piece>)
    ensures Keys(a + b) == Keys(a) + Keys(b)
  {
    if a == [] {
      assert a + b == b;
    } else {
      assert (a + b)[1..] == a[1..] + b;
      KeysConcat(a[1..], b);
    }
  }

  lemma FillMore(piece: Piece, rest: seq<Piece>, u: seq<string>)
    requires |u| == |Keys([piece] + rest)|
    ensures Keys([piece] + rest) == (if piece.Slot? then [piece.key] else []) + Keys(rest)
    ensures piece.Slot? ==> u != [] && Fill([piece] + rest, u) == u[0] + Fill(rest, u[1..])
    ensures piece.Plain? ==> Fill([piece] + rest, u) == [piece.c] + Fill(rest, u)
  {
    assert ([piece] + rest)[1..] == rest;
  }

  lemma FillNothing()
    ensures Keys([]) == [] && Fill([], []) == []
  {
  }

  lemma {:induction false} FillConcat(a: seq<Piece>, b: seq<Piece>, u: seq<string>, v: seq<string>)
    requires |u| == |Keys(a)| && |v| == |Keys(b)|
    ensures Keys(a + b) == Keys(a) + Keys(b) && Fill(a + b, u + v) == Fill(a, u) + Fill(b, v)
    decreases a
  {
    hide Keys, Fill;
    KeysConcat(a, b);
    if a == [] {
      FillNothing();
      assert a + b == b && u == [] && u + v == v;
    } else {
      var rest := a[1..];
      assert a == [a[0]] + rest && a + b == [a[0]] + (rest + b);
      FillMore(a[0], rest, u);
      FillMore(a[0], rest + b, u + v);
      var u' := if a[0].Slot? then u[1..] else u;
      assert a[0].Slot? ==> (u + v)[1..] == u' + v && (u + v)[0] == u[0];
      FillConcat(rest, b, u', v);
    }
  }

  lemma {:induction false} ExpandConcat(a: seq<Piece>, b: seq<Piece>, known: map<string, string>)
    ensures Expand(a + b, known) == Expand(a, known) + Expand(b, known)
    decreases a
  {
    if a == [] {
      assert a + b == b;
    } else {
      assert (a + b)[1..] == a[1..] + b;
      ExpandConcat(a[1..], b, known);
    }
  }

  lemma LineFeedPiece(known: map<string, string>)
    ensures Keys([Plain('\n')]) == [] && Fill([Plain('\n')], []) == "\n" && Expand([Plain('\n')], known) == "\n"
  {
    assert [Plain('\n')][1..] == [];
  }

  // ---- a line with a secret -----------------------------------------------------------------------

  function Plains(s: string): (r: seq<Piece>)
    ensures |r| == |s|
  {
    seq(|s|, i requires 0 <= i < |s| => Plain(s[i]))
  }

  /** Text in front of the first mark is plain. */
  lemma {:induction false} ScanPrefix(x: string, s: string, m: Marks)
    requires m.open != [] && m.open[0] !in x
    ensures Scan(x + s, m) == Plains(x) + Scan(s, m)
    decreases |x|
  {
    if x == [] {
      assert x + s == s && Plains(x) == [];
    } else {
      var t := x + s;
      assert t[0] == x[0] && x[0] in x && t[1..] == x[1..] + s;
      assert TokenAt(t, m).None?;
      ScanPrefix(x[1..], s, m);
      assert Plains(x) == [Plain(x[0])] + Plains(x[1..]);
    }
  }

  lemma {:induction false} PlainsFill(x: string, known: map<string, string>)
    ensures Keys(Plains(x)) == [] && Fill(Plains(x), []) == x && Expand(Plains(x), known) == x
    decreases |x|
  {
    if x != [] {
      assert Plains(x)[1..] == Plains(x[1..]);
      PlainsFill(x[1..], known);
    }
  }

  /** Text without placeholders is expanded to itself. */
  lemma {:induction false} ExpandNothing(s: string, m: Marks, known: map<string, string>)
    requires Keys(Scan(s, m)) == []
    ensures Expand(Scan(s, m), known) == s
    decreases |s|
  {
    hide TokenAt;
    if s != [] {
      assert TokenAt(s, m).None?;
      assert Scan(s, m)[1..] == Scan(s[1..], m);
      ExpandNothing(s[1..], m, known);
    }
  }

  lemma KeyNameParts(key: string)
    requires KeyName(key)
    ensures '@' !in key + "=" && '$' !in key + "=" && '\n' !in key
    ensures forall c :: c in key ==> !IsSpace(c)
  {
  }

  lemma SlotToken(key: string)
    requires KeyName(key)
    ensures TokenAt(RANDOM.open + key + "@", RANDOM) == Some(key)
  {
    hide KeyChar, KeyStart, KeyLength;
    var s := RANDOM.open + key + "@";
    assert s[|RANDOM.open|..] == key + "@";
    CloseIsNoKey();
    forall i | 0 <= i < |key|
      ensures KeyChar((key + "@")[i])
    {
      assert key[i] in key;
    }
    KeyLengthIs(key + "@", |key|);
    assert (key + "@")[..|key|] == key;
  }

  lemma CloseIsNoKey()
    ensures !KeyChar('@') && !KeyChar('=') && !KeyChar('$')
  {
  }

  lemma ScanSlot(key: string)
    requires KeyName(key)
    ensures Scan(RANDOM.open + key + "@", RANDOM) == [Slot(key)]
  {
    hide TokenAt;
    SlotToken(key);
    var s := RANDOM.open + key + "@";
    assert s[|RANDOM.open| + |key| + 1..] == [];
  }

  lemma SlotFill(key: string, secret: string)
    ensures Keys([Slot(key)]) == [key] && Fill([Slot(key)], [secret]) == secret
  {
    assert [Slot(key)][1..] == [] && [secret][1..] == [];
    assert Keys([Slot(key)]) == [key] + Keys([]);
  }

  /** The line of a secret, filled and expanded, gives the secret to its key. */
  lemma SecretLineRendered(key: string, secret: string, known: map<string, string>)
    requires KeyName(key) && Keys(Scan(secret, BRACES)) == []
    ensures
      var pieces := Scan(key + "=" + (RANDOM.open + key + "@"), RANDOM);
      Keys(pieces) == [key] && Fill(pieces, [secret]) == key + "=" + secret
    ensures Expand(Scan(key + "=" + secret, BRACES), known) == key + "=" + secret
  {
    hide Scan, Keys, Fill, Expand, KeyName, TokenAt;
    var x := key + "=";
    KeyNameParts(key);
    Marked();
    ScanPrefix(x, RANDOM.open + key + "@", RANDOM);
    ScanSlot(key);
    PlainsFill(x, known);
    SlotFill(key, secret);
    FillConcat(Plains(x), [Slot(key)], [], [secret]);
    assert [] + [secret] == [secret] && [] + [key] == [key];
    ScanPrefix(x, secret, BRACES);
    ExpandConcat(Plains(x), Scan(secret, BRACES), known);
    ExpandNothing(secret, BRACES, known);
  }

  lemma Marked()
    ensures RANDOM.open[0] == '@' && BRACES.open[0] == '$' && SingleLine(RANDOM) && SingleLine(BRACES)
  {
  }

  // ---- all lines ----------------------------------------------------------------------------------

  /** `key=secret` is a whole line of the text, between `x` and `y`. */
  ghost predicate ShowsBetween(text: string, line: string, x: string, y: string) {
    text == x + line + y && (x == [] || x[|x| - 1] == '\n') && (y == [] || y[0] == '\n')
  }

  ghost predicate Shows(text: string, key: string, secret: string) {
    exists x, y :: ShowsBetween(text, key + "=" + secret, x, y)
  }

  lemma ShowsFirst(key: string, secret: string, y: string)
    requires y == [] || y[0] == '\n'
    ensures Shows(key + "=" + secret + y, key, secret)
  {
    var line := key + "=" + secret;
    assert line + y == [] + line + y;
    assert ShowsBetween(line + y, line, [], y);
  }

  lemma ShowsLater(front: string, text: string, key: string, secret: string)
    requires Shows(text, key, secret)
    ensures Shows(front + "\n" + text, key, secret)
  {
    var line := key + "=" + secret;
    var x, y :| ShowsBetween(text, line, x, y);
    BetweenLater(front, text, line, x, y);
  }

  lemma BetweenLater(front: string, text: string, line: string, x: string, y: string)
    requires ShowsBetween(text, line, x, y)
    ensures ShowsBetween(front + "\n" + text, line, front + "\n" + x, y)
  {
    assert front + "\n" + (x + line + y) == front + "\n" + x + line + y;
  }

  function Rendered(text: string, choices: seq<string>, known: map<string, string>): string
    requires |choices| == |Keys(Scan(text, RANDOM))|
  {
    Expand(Scan(Fill(Scan(text, RANDOM), choices), BRACES), known)
  }

  lemma RenderedSplit(x: string, y: string, u: seq<string>, v: seq<string>, known: map<string, string>)
    requires |u| == |Keys(Scan(x, RANDOM))| && |v| == |Keys(Scan(y, RANDOM))|
    ensures Keys(Scan(x + "\n" + y, RANDOM)) == Keys(Scan(x, RANDOM)) + Keys(Scan(y, RANDOM))
    ensures Rendered(x + "\n" + y, u + v, known) == Rendered(x, u, known) + "\n" + Rendered(y, v, known)
  {
    hide Scan, Keys, Fill, Expand;
    Marked();
    LineFeedPiece(known);
    var a, b := Scan(x, RANDOM), Scan(y, RANDOM);
    ScanSplit(x, y, RANDOM);
    FillConcat(a, [Plain('\n')], u, []);
    assert u + [] == u && Keys(a) + [] == Keys(a);
    FillConcat(a + [Plain('\n')], b, u, v);
    var x', y' := Fill(a, u), Fill(b, v);
    ScanSplit(x', y', BRACES);
    ExpandConcat(Scan(x', BRACES), [Plain('\n')], known);
    ExpandConcat(Scan(x', BRACES) + [Plain('\n')], Scan(y', BRACES), known);
  }

  /** One line of a template, alone or in front of others, shows its secret. */
  lemma LineShows(line: string, choices: seq<string>, known: map<string, string>, behind: string)
    requires Keys(Scan(line, RANDOM)) == [] || SecretLine(line)
    requires |choices| == |Keys(Scan(line, RANDOM))| && forall c :: c in choices ==> PlainSecret(c)
    requires behind == [] || behind[0] == '\n'
    ensures forall i :: 0 <= i < |choices| ==>
              Shows(Rendered(line, choices, known) + behind, Keys(Scan(line, RANDOM))[i], choices[i])
  {
    hide Scan, Keys, Fill, Expand, KeyName, Trimmed, Shows;
    if SecretLine(line) {
      var key :| KeyName(key) && line == key + "=" + (RANDOM.open + key + "@");
      SecretLineRendered(key, [], known) by {
        NothingScannedFor(BRACES);
        FillNothing();
      }
      assert |choices| == 1 && choices == [choices[0]] && choices[0] in choices;
      SecretLineRendered(key, choices[0], known);
      ShowsFirst(key, choices[0], behind);
    }
  }

  /** Every secret of a template shows up in what is rendered from it. */
  lemma {:induction false} SecretsShow(text: string, choices: seq<string>, known: map<string, string>)
    requires SecretLines(text)
    requires |choices| == |Keys(Scan(text, RANDOM))| && forall c :: c in choices ==> PlainSecret(c)
    ensures forall i :: 0 <= i < |choices| ==>
              Shows(Rendered(text, choices, known), Keys(Scan(text, RANDOM))[i], choices[i])
    decreases |text|
  {
    hide Scan, Keys, Rendered, PlainSecret, SecretLine, Shows;
    var n := LineEnd(text);
    var line := text[..n];
    if n == |text| {
      assert text == line;
      LineShows(line, choices, known, []);
      assert Rendered(text, choices, known) + [] == Rendered(text, choices, known);
    } else {
      var rest := text[n + 1..];
      assert text == line + "\n" + rest;
      LineThenRest(line, rest, choices, known);
    }
  }

  lemma LineThenRest(line: string, rest: string, choices: seq<string>, known: map<string, string>)
    requires (Keys(Scan(line, RANDOM)) == [] || SecretLine(line)) && SecretLines(rest)
    requires |choices| == |Keys(Scan(line + "\n" + rest, RANDOM))| && forall c :: c in choices ==> PlainSecret(c)
    ensures forall i :: 0 <= i < |choices| ==>
              Shows(Rendered(line + "\n" + rest, choices, known), Keys(Scan(line + "\n" + rest, RANDOM))[i], choices[i])
    decreases |rest| + 1, 0
  {
    hide Scan, Keys, Rendered, PlainSecret, SecretLine, Shows, SecretLines;
    var text := line + "\n" + rest;
    KeysSplit(line, rest);
    var k := |Keys(Scan(line, RANDOM))|;
    var u, v := choices[..k], choices[k..];
    assert choices == u + v && |v| == |Keys(Scan(rest, RANDOM))|;
    RenderedSplit(line, rest, u, v, known);
    var behind := "\n" + Rendered(rest, v, known);
    LineShows(line, u, known, behind);
    assert Rendered(text, choices, known) == Rendered(line, u, known) + behind;
    SecretsShow(rest, v, known);
    forall i | k <= i < |choices|
      ensures Shows(Rendered(text, choices, known), Keys(Scan(text, RANDOM))[i], choices[i])
    {
      ShowsLater(Rendered(line, u, known), Rendered(rest, v, known), Keys(Scan(rest, RANDOM))[i - k], v[i - k]);
    }
  }

  lemma KeysSplit(x: string, y: string)
    ensures Keys(Scan(x + "\n" + y, RANDOM)) == Keys(Scan(x, RANDOM)) + Keys(Scan(y, RANDOM))
  {
    hide Scan, Keys;
    Marked();
    LineFeedPiece(map[]);
    ScanSplit(x, y, RANDOM);
    KeysConcat(Scan(x, RANDOM) + [Plain('\n')], Scan(y, RANDOM));
    KeysConcat(Scan(x, RANDOM), [Plain('\n')]);
  }

  // ---- reading a secret back ------------------------------------------------------------------------

  /** The first break of a text that has one ends by the last line feed. */
  lemma BreakEnds(s: string, last: nat)
    requires last < |s| && s[last] == '\n'
    ensures LineLength(s) <= last && LineLength(s) + BreakLength(s, LineLength(s)) <= last + 1
  {
    LineFeedIsBreak();
  }

  /** A line between line feeds is among the lines. */
  lemma {:induction false} LineIsSplit(x: string, line: string, y: string)
    requires (x == [] || x[|x| - 1] == '\n') && (y == [] || y[0] == '\n')
    requires line != [] && forall c :: c in line ==> !IsBreak(c)
    ensures line in SplitLines(x + line + y)
    decreases |x|
  {
    hide LineLength, IsBreak, SplitLines, BreakLength;
    LineFeedIsBreak();
    var s := x + line + y;
    if x == [] {
      assert forall i :: 0 <= i < |line| ==> s[i] == line[i] && line[i] in line;
      LineLengthIs(s, |line|);
      SplitFirst(s, |line|);
      assert s[..|line|] == line && (y == [] ==> s == line);
      assert SplitLines(s)[0] == line;
    } else {
      var n := LineLength(s);
      assert s[|x| - 1] == '\n';
      BreakEnds(s, |x| - 1);
      var k := n + BreakLength(s, n);
      SplitFirst(s, n);
      assert s[k..] == x[k..] + line + y;
      LineIsSplit(x[k..], line, y);
    }
  }

  /** The line of a plain secret is read as what it says. */
  lemma SecretIsParsed(key: string, secret: string)
    requires KeyName(key) && Trimmed(secret)
    ensures ParseLine(key + "=" + secret) == Some((key, secret))
  {
    hide KeyLength, IsSpace;
    var line := key + "=" + secret;
    KeyNameParts(key);
    CloseIsNoKey();
    HashIsNoKey();
    EqualsIsNoSpace();
    assert line[0] == key[0] && key[0] in key;
    assert TrimLeft(line) == line;
    forall i | 0 <= i < |key|
      ensures KeyChar(line[i])
    {
      assert line[i] == key[i] && key[i] in key;
    }
    KeyLengthIs(line, |key|);
    assert line[|key|..] == "=" + secret && ("=" + secret)[1..] == secret && line[..|key|] == key;
    assert TrimLeft("=" + secret) == "=" + secret;
    TrimOfTrimmed(secret);
  }

  lemma HashIsNoKey()
    ensures !KeyStart('#')
  {
  }

  lemma EqualsIsNoSpace()
    ensures !IsSpace('=')
  {
  }

  /** The only line of a key decides its value. */
  lemma {:induction false} OnlyLineDecides(lines: seq<string>, k: nat, key: string, secret: string)
    requires k < |lines| && ParseLine(lines[k]) == Some((key, secret)) && OnlyLine(lines, key)
    ensures key in EnvOf(lines) && EnvOf(lines)[key] == secret
    decreases |lines|
  {
    hide ParseLine;
    var n := |lines| - 1;
    if k < n {
      assert !Gives(lines[n], key) by {
        assert Gives(lines[k], key);
      }
      OnlyLineDecides(lines[..n], k, key, secret);
    }
  }

  lemma ShownIsRead(text: string, key: string, secret: string)
    requires Shows(text, key, secret) && KeyName(key) && PlainSecret(secret) && OnlyLine(SplitLines(text), key)
    ensures key in EnvOf(SplitLines(text)) && EnvOf(SplitLines(text))[key] == secret
  {
    hide SplitLines, ParseLine, OnlyLine, KeyName, IsBreak, Trimmed, Scan, Keys;
    var line := key + "=" + secret;
    var x, y :| ShowsBetween(text, line, x, y);
    KeyHasNoBreak(key);
    LineIsSplit(x, line, y);
    SecretIsParsed(key, secret);
    var k :| 0 <= k < |SplitLines(text)| && SplitLines(text)[k] == line;
    OnlyLineDecides(SplitLines(text), k, key, secret);
  }

  lemma KeyHasNoBreak(key: string)
    requires KeyName(key)
    ensures forall c :: c in key + "=" ==> !IsBreak(c)
  {
  }

  lemma {:induction false} KeysAreNames(s: string, m: Marks)
    ensures forall key :: key in Keys(Scan(s, m)) ==> KeyName(key)
    decreases |s|
  {
    if s != [] {
      match TokenAt(s, m)
      case Some(key) =>
        TokenIsName(s, m);
        KeysAreNames(s[|m.open| + |key| + 1..], m);
        assert Scan(s, m)[1..] == Scan(s[|m.open| + |key| + 1..], m);
      case None =>
        KeysAreNames(s[1..], m);
        assert Scan(s, m)[1..] == Scan(s[1..], m);
    }
  }

  lemma TokenIsName(s: string, m: Marks)
    requires TokenAt(s, m).Some?
    ensures KeyName(TokenAt(s, m).value)
  {
  }

  // ---- references between values -------------------------------------------------------------------------

  lemma ReferenceToken(key: string, y: string)
    requires KeyName(key)
    ensures TokenAt(BRACES.open + key + "}" + y, BRACES) == Some(key)
  {
    hide KeyChar, KeyStart, KeyLength;
    var s := BRACES.open + key + "}" + y;
    var rest := key + "}" + y;
    assert s[|BRACES.open|..] == rest;
    BraceIsNoKey();
    assert rest[|key|] == '}' && rest[0] == key[0];
    forall i | 0 <= i < |key|
      ensures KeyChar(rest[i])
    {
      assert rest[i] == key[i] && key[i] in key;
    }
    KeyLengthIs(rest, |key|);
    assert rest[..|key|] == key;
  }

  lemma BraceIsNoKey()
    ensures !KeyChar('}')
  {
  }

  lemma ScanReference(key: string, y: string)
    requires KeyName(key)
    ensures Scan(BRACES.open + key + "}" + y, BRACES) == [Slot(key)] + Scan(y, BRACES)
  {
    hide TokenAt, KeyName;
    var s := BRACES.open + key + "}" + y;
    ReferenceToken(key, y);
    assert s[|BRACES.open| + |key| + 1..] == y;
  }

  lemma ExpandSlot(key: string, rest: seq<Piece>, known: map<string, string>)
    ensures Expand([Slot(key)] + rest, known) ==
            (if key in known then known[key] else BRACES.open + key + "}") + Expand(rest, known)
  {
    assert ([Slot(key)] + rest)[1..] == rest;
  }

  lemma DollarIsBarrier()
    ensures Barrier('$', BRACES)
  {
  }

  /** A reference is replaced by the value of its key, or stays as it is; the text around it is expanded on its own. */
  lemma ReferenceIsExpanded(x: string, key: string, y: string, known: map<string, string>)
    requires KeyName(key)
    ensures Expand(Scan(x + (BRACES.open + key + "}" + y), BRACES), known) ==
            Expand(Scan(x, BRACES), known) +
            (if key in known then known[key] else BRACES.open + key + "}") + Expand(Scan(y, BRACES), known)
  {
    hide Scan, Expand, KeyName, Barrier;
    Marked();
    DollarIsBarrier();
    ScanToBarrier(x, BRACES.open + key + "}" + y, BRACES);
    ScanReference(key, y);
    ExpandSlot(key, Scan(y, BRACES), known);
    ExpandConcat(Scan(x, BRACES), [Slot(key)] + Scan(y, BRACES), known);
  }

  /** The value that the user gave for a key is used for a reference to it, whatever a rendered line says. */
  lemma ValuesWin(x: string, key: string, y: string, values: map<string, string>)
    requires KeyName(key) && key in values
    ensures
      var text := x + (BRACES.open + key + "}" + y);
      var known := Derived(SplitLines(text)) + values;
      Expanded(text, values) == Expand(Scan(x, BRACES), known) + values[key] + Expand(Scan(y, BRACES), known)
  {
    hide Scan, Expand, KeyName, Derived, SplitLines;
    var text := x + (BRACES.open + key + "}" + y);
    ReferenceIsExpanded(x, key, y, Derived(SplitLines(text)) + values);
  }

  // ---- main results --------------------------------------------------------------------------------------

  /** The outcome of a first run: the template with the answers filled in, its secrets, and what is written. */
  ghost predicate FirstRun(template: string, values: map<string, string>, existing: map<string, string>,
                           sizes: map<string, nat>, draw: (nat, nat) -> string,
                           asked: string, choices: seq<string>, out: string)
  {
    && Asked(template, values) == Ok(asked) && FirstUnknown(Keys(Scan(asked, RANDOM)), existing.Keys + sizes.Keys).None?
    && choices == Choices(Keys(Scan(asked, RANDOM)), existing, sizes, draw)
    && Substituted(template, values, existing, sizes, draw) == Ok(out)
  }

  /** Reading the written file gives every secret back as it was chosen. */
  lemma SecretsAreRecovered(template: string, values: map<string, string>, existing: map<string, string>,
                            sizes: map<string, nat>, draw: (nat, nat) -> string,
                            asked: string, choices: seq<string>, out: string)
    requires FirstRun(template, values, existing, sizes, draw, asked, choices, out)
    requires SecretLines(asked) && forall c :: c in choices ==> PlainSecret(c)
    requires forall key :: key in Keys(Scan(asked, RANDOM)) ==> OnlyLine(SplitLines(out), key)
    ensures forall i :: 0 <= i < |choices| ==>
              var key := Keys(Scan(asked, RANDOM))[i];
              key in EnvOf(SplitLines(out)) && EnvOf(SplitLines(out))[key] == choices[i]
  {
    hide Scan, Keys, Fill, Expand, SplitLines, EnvOf, SecretLines, PlainSecret, OnlyLine, KeyName, Derived, Shows;
    var keys := Keys(Scan(asked, RANDOM));
    var known := Derived(SplitLines(Fill(Scan(asked, RANDOM), choices))) + values;
    assert out == Rendered(asked, choices, known);
    SecretsShow(asked, choices, known);
    KeysAreNames(asked, RANDOM);
    forall i | 0 <= i < |choices|
      ensures keys[i] in EnvOf(SplitLines(out)) && EnvOf(SplitLines(out))[keys[i]] == choices[i]
    {
      assert keys[i] in keys && choices[i] in choices;
      ShownIsRead(out, keys[i], choices[i]);
    }
  }

  /** Rendering again with the secrets recovered from the first output, and whatever fresh ones would be drawn, writes
      the same file. */
  lemma RerenderIsFixedPoint(template: string, values: map<string, string>, existing: map<string, string>,
                             sizes: map<string, nat>, draw: (nat, nat) -> string, draw': (nat, nat) -> string,
                             asked: string, choices: seq<string>, out: string)
    requires FirstRun(template, values, existing, sizes, draw, asked, choices, out) && existing.Keys <= sizes.Keys
    requires SecretLines(asked) && forall c :: c in choices ==> PlainSecret(c)
    requires forall key :: key in Keys(Scan(asked, RANDOM)) ==> OnlyLine(SplitLines(out), key)
    ensures Substituted(template, values, Recovered(out, sizes), sizes, draw') == Ok(out)
  {
    hide Scan, Keys, Fill, Expand, SplitLines, EnvOf, SecretLines, PlainSecret, OnlyLine, Expanded;
    SecretsAreRecovered(template, values, existing, sizes, draw, asked, choices, out);
    var keys, recovered := Keys(Scan(asked, RANDOM)), Recovered(out, sizes);
    assert forall i :: 0 <= i < |keys| ==> keys[i] in recovered && recovered[keys[i]] == choices[i];
    assert Choices(keys, recovered, sizes, draw') == choices;
  }

  predicate IsHex(s: string) {
    forall c :: c in s ==> '0' <= c <= '9' || 'a' <= c <= 'f'
  }

  /** A fresh secret is plain. */
  lemma HexIsPlain(secret: string)
    requires IsHex(secret)
    ensures PlainSecret(secret)
  {
    hide Scan, Keys, Fill, Expand;
    Marked();
    ScanPrefix(secret, [], BRACES);
    NothingScannedFor(BRACES);
    assert secret + [] == secret && Plains(secret) + [] == Plains(secret);
    PlainsFill(secret, map[]);
    assert secret != [] ==> secret[0] in secret && secret[|secret| - 1] in secret;
  }

  /** After a first run without an earlier file, only the shape of the template matters. */
  lemma FreshRerenderIsFixedPoint(template: string, values: map<string, string>, sizes: map<string, nat>,
                                  draw: (nat, nat) -> string, draw': (nat, nat) -> string,
                                  asked: string, choices: seq<string>, out: string)
    requires FirstRun(template, values, map[], sizes, draw, asked, choices, out)
    requires SecretLines(asked) && forall i, n :: IsHex(draw(i, n))
    requires forall key :: key in Keys(Scan(asked, RANDOM)) ==> OnlyLine(SplitLines(out), key)
    ensures Substituted(template, values, Recovered(out, sizes), sizes, draw') == Ok(out)
  {
    hide Scan, Keys, Substituted, Asked, SplitLines, Recovered, SecretLines, OnlyLine, PlainSecret, IsHex;
    forall c | c in choices
      ensures PlainSecret(c)
    {
      var i :| 0 <= i < |choices| && choices[i] == c;
      HexIsPlain(draw(i, sizes[Keys(Scan(asked, RANDOM))[i]]));
    }
    RerenderIsFixedPoint(template, values, map[], sizes, draw, draw', asked, choices, out);
  }
}
