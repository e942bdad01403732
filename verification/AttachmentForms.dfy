/** The written form of a reference, `key = "..."`, which the comment in src/utils/extract_attachments.py lists. */
module AttachmentForms {
  import opened Wrappers
  import opened PercentEncoding
  import opened PythonText
  import opened AttachmentScanner
  import opened AttachmentUrls
  import opened AttachmentRoundTrip
  import opened AttachmentExact

  predicate Blank(s: string) {
    forall c :: c in s ==> IsSpace(c)
  }

  predicate OptionalQuote(s: string) {
    s == "" || s == "\""
  }

  /** `word` is `key` in any mix of cases; white space may stand around the equals sign, a double quote at either end of
      the value. */
  function Written(word: string, left: string, right: string, open: string, raw: string, close: string): string {
    word + left + "=" + right + open + raw + close
  }

  ghost predicate WellWritten(word: string, left: string, right: string, open: string, raw: string, close: string) {
    && |word| == 3 && FoldsTo(word, 0, 3, "key")
    && Blank(left) && Blank(right) && OptionalQuote(open) && OptionalQuote(close)
    && raw != [] && forall c :: c in raw ==> KeyChar(c)
  }

  lemma SpaceIsNoMark()
    ensures !IsSpace('=') && !IsSpace('"') && !KeyChar('"')
    ensures forall c :: KeyChar(c) ==> !IsSpace(c) && c != '"'
  {
  }

  lemma BlankRun(s: string, a: nat, blank: string)
    requires OccursAt(s, a, blank) && Blank(blank) && (a + |blank| == |s| || !IsSpace(s[a + |blank|]))
    ensures RunEnd(s, a, |s|, IsSpace) == a + |blank|
  {
    hide IsSpace, OccursAt;
    OccursFits(s, a, blank);
    forall j | a <= j < a + |blank|
      ensures IsSpace(s[j])
    {
      OccursChar(s, a, blank, j - a);
    }
    RunEndIs(s, a, a + |blank|, |s|, IsSpace);
  }

  lemma WordFolds(s: string, word: string)
    requires OccursAt(s, 0, word) && |word| == 3 && FoldsTo(word, 0, 3, "key")
    ensures FoldsTo(s, 0, |s|, "key") && Lower(s[0]) == 'k'
  {
    assert forall j :: 0 <= j < 3 ==> s[0..3][j] == s[j];
    assert forall j :: 0 <= j < 3 ==> s[j] == word[j];
    assert Lower(word[0 + 0]) == "key"[0];
  }

  /** Where the parts of such a text stand. */
  lemma WrittenParts(s: string, word: string, left: string, right: string, open: string, raw: string, close: string)
    requires s == Written(word, left, right, open, raw, close)
    ensures
      var equals := |word| + |left|;
      var value := equals + 1 + |right|;
      && OccursAt(s, 0, word) && OccursAt(s, |word|, left) && OccursAt(s, equals, "=") && OccursAt(s, equals + 1, right)
      && OccursAt(s, value, open) && OccursAt(s, value + |open|, raw)
      && OccursAt(s, value + |open| + |raw|, close) && |s| == value + |open| + |raw| + |close|
  {
    assert s[0..|s|] == s;
    assert OccursAt(s, 0, Written(word, left, right, open, raw, close));
    hide OccursAt;
    OccursSplit(s, 0, word + left + "=" + right + open + raw, close);
    OccursSplit(s, 0, word + left + "=" + right + open, raw);
    OccursSplit(s, 0, word + left + "=" + right, open);
    OccursSplit(s, 0, word + left + "=", right);
    OccursSplit(s, 0, word + left, "=");
    OccursSplit(s, 0, word, left);
  }

  /** The one match of such a text is the whole of it. */
  lemma WrittenMatches(s: string, word: string, left: string, right: string, open: string, raw: string, close: string)
    requires WellWritten(word, left, right, open, raw, close) && s == Written(word, left, right, open, raw, close)
    ensures FindAll(s, 0) == [KeyRef(0, |s|, raw)]
  {
    hide FoldsTo, IsSpace, KeyChar, RunEnd, FindAll, MatchAt, OccursAt, Written, Blank, OptionalQuote, SkipQuote;
    WrittenParts(s, word, left, right, open, raw, close);
    var equals := 3 + |left|;
    var value := equals + 1 + |right|;
    var from := value + |open|;
    var e := from + |raw|;
    WordFolds(s, word);
    EqualsAt(s, equals);
    ValueAt(s, value, open, raw, close);
    BlankRun(s, 3, left);
    BlankRun(s, equals + 1, right);
    RunOf(s, from, |s|, raw);
    KeyRefIs(s, equals, value, from, e);
    FindAllHit(s, 0, KeyRef(0, |s|, raw));
    EmptyDocument(s, |s|, "");
  }

  lemma EqualsAt(s: string, i: nat)
    requires OccursAt(s, i, "=")
    ensures i < |s| && s[i] == '=' && !IsSpace(s[i])
  {
    OccursChar(s, i, "=", 0);
  }

  /** The quotes around a value are told from it. */
  lemma ValueAt(s: string, value: nat, open: string, raw: string, close: string)
    requires OptionalQuote(open) && OptionalQuote(close) && raw != [] && forall c :: c in raw ==> KeyChar(c)
    requires OccursAt(s, value, open) && OccursAt(s, value + |open|, raw)
    requires OccursAt(s, value + |open| + |raw|, close) && |s| == value + |open| + |raw| + |close|
    ensures
      var from := value + |open|;
      var e := from + |raw|;
      && !IsSpace(s[value]) && from == (if s[value] == '"' then value + 1 else value)
      && (e == |s| || (s[e] == '"' && e + 1 == |s| && !KeyChar(s[e])))
  {
    hide OccursAt, IsSpace, KeyChar;
    SpaceIsNoMark();
    assert raw[0] in raw;
    OccursChar(s, value + |open|, raw, 0);
    if open != "" {
      OccursChar(s, value, open, 0);
    }
    if close != "" {
      OccursChar(s, value + |open| + |raw|, close, 0);
    }
  }

  lemma KeyRefIs(s: string, equals: nat, value: nat, from: nat, e: nat)
    requires FoldsTo(s, 0, |s|, "key") && 3 <= equals < value <= from < e <= |s| && s[0] != '/'
    requires RunEnd(s, 3, |s|, IsSpace) == equals && s[equals] == '='
    requires RunEnd(s, equals + 1, |s|, IsSpace) == value
    requires from == if s[value] == '"' then value + 1 else value
    requires RunEnd(s, from, |s|, KeyChar) == e && (e == |s| || (s[e] == '"' && e + 1 == |s|))
    ensures MatchAt(s, 0, |s|) == Some(KeyRef(0, |s|, s[from..e]))
  {
    hide FoldsTo, IsSpace, KeyChar, RunEnd;
    NotASlug(s, 0, |s|);
  }

  /** A written reference is read as its value, decoded twice. */
  lemma WrittenIsRead(word: string, left: string, right: string, open: string, raw: string, close: string)
    requires WellWritten(word, left, right, open, raw, close)
    ensures Extracted(Written(word, left, right, open, raw, close)) == [Unquote(Unquote(raw))]
  {
    hide Written, Unquote, MatchAt;
    var s := Written(word, left, right, open, raw, close);
    WrittenMatches(s, word, left, right, open, raw, close);
    FindAllWithin(s, 0);
    hide WellWritten, FindAll;
    var ms, id := FindAll(s, 0), Unquote(Unquote(raw));
    assert ms[1..] == [];
    NothingAtEnd(s, 0);
    assert SupersededBy(s, ms[0]).None?;
    assert Superseded(s, ms) == {};
    assert Values(ms, {}) == [id] + Values([], {});
    assert [id][..0] == [];
    assert Unique([id]) == [id];
  }

  /** So a key that was encoded twice comes back unchanged, and so does a plain one without an escape. */
  lemma WrittenRoundTrip(word: string, left: string, right: string, open: string, key: string, close: string)
    requires Scannable(key) && WellWritten(word, left, right, open, "k", close)
    ensures Extracted(Written(word, left, right, open, Quote(Quote(key)), close)) == [key]
    ensures (forall c :: c in key ==> KeyChar(c)) ==>
      (Extracted(Written(word, left, right, open, key, close)) == [key] <==> !HasEscape(key))
  {
    hide Extracted, Written, Unquote, Quote, FoldsTo, IsSpace, HasEscape;
    QuoteIsBytes(key);
    QuoteIsBytes(Quote(key));
    QuoteIsNotEmpty(key);
    QuoteIsNotEmpty(Quote(key));
    DoubleRoundTrip(key);
    assert forall c :: c in Quote(Quote(key)) ==> KeyChar(c);
    WrittenIsRead(word, left, right, open, Quote(Quote(key)), close);
    if forall c :: c in key ==> KeyChar(c) {
      WrittenIsRead(word, left, right, open, key, close);
      UnquoteLength(key);
      UnquoteLength(Unquote(key));
    }
  }

  lemma QuoteIsNotEmpty(s: string)
    requires s != []
    ensures Quote(s) != []
  {
  }
}
