/** Exactly which keys survive being printed and scanned on their own. */
module AttachmentExact {
  import opened Wrappers
  import opened PercentEncoding
  import opened PythonText
  import opened AttachmentScanner
  import opened AttachmentUrls
  import opened AttachmentRoundTrip
  import opened AttachmentLeak

  predicate Dirty(c: char) {
    c == '.' || c == '~'
  }

  /** Length of the longest prefix without a character that the scanner does not know. */
  function CleanLength(key: string): (n: nat)
    ensures n <= |key| && (forall i :: 0 <= i < n ==> !Dirty(key[i])) && (n < |key| ==> Dirty(key[n]))
  {
    if key == [] || Dirty(key[0]) then 0 else 1 + CleanLength(key[1..])
  }

  // ---- text that contains no reference --------------------------------------------------

  ghost predicate Calm(s: string, off: nat) {
    off <= |s| && forall j :: off <= j < |s| ==> s[j] != '/' && s[j] != '='
  }

  /** The first alternative needs a slash, the second an equals sign. */
  lemma CalmIsQuiet(s: string, off: nat)
    requires Calm(s, off)
    ensures Quiet(s, off, |s|, |s|)
  {
    hide FoldsTo, RunEnd;
    forall j | off <= j < |s|
      ensures MatchAt(s, j, |s|).None?
    {
      FirstFolds(s, j, |s|, PATH_PREFIX);
      assert PATH_PREFIX[0] == '/';
      if FoldsTo(s, j, |s|, "key") {
        KeyFits(s, j);
      }
    }
  }

  lemma KeyFits(s: string, j: nat)
    requires FoldsTo(s, j, |s|, "key")
    ensures j + 3 <= |s|
  {
  }

  lemma NoColonNoScheme(s: string)
    requires ':' !in s
    ensures SchemeFree(s)
  {
    forall i: nat
      ensures !OccursAt(s, i, "https://") && !OccursAt(s, i, "http://")
    {
      if OccursAt(s, i, "https://") {
        OccursChar(s, i, "https://", 5);
      }
      if OccursAt(s, i, "http://") {
        OccursChar(s, i, "http://", 4);
      }
    }
  }

  // ---- image URLs ---------------------------------------------------------------------------

  /** The part of a key that the scanner reads, followed by what it leaves. */
  lemma UrlOfPrefix(key: string, n: nat)
    requires n <= |key|
    ensures BuildAttachmentUrl(key) == BuildAttachmentUrl(key[..n]) + Quote(Quote(key[n..]))
  {
    assert key == key[..n] + key[n..];
    QuoteConcat(key[..n], key[n..]);
    QuoteConcat(Quote(key[..n]), Quote(key[n..]));
  }

  lemma DirtyStaysFirst(s: string)
    requires s != [] && Dirty(s[0])
    ensures Quote(s) != [] && Quote(s)[0] == s[0]
  {
  }

  lemma DocumentOfOne(key: string, tail: string)
    ensures Document([Piece("", key)], tail) == BuildAttachmentUrl(key) + tail
  {
    hide BuildAttachmentUrl;
    var pieces := [Piece("", key)];
    assert pieces[1..] == [] && Document(pieces[1..], tail) == tail;
    assert "" + BuildAttachmentUrl(key) == BuildAttachmentUrl(key);
  }

  /** The scanner reads a key up to the first character it does not know. */
  lemma PrefixIsRead(key: string)
    requires IsBytes(key) && CleanLength(key) > 0
    ensures Extracted(BuildAttachmentUrl(key)) == [key[..CleanLength(key)]]
  {
    var n := CleanLength(key);
    UrlOfPrefix(key, n);
    DocumentOfOne(key[..n], Quote(Quote(key[n..])));
    assert Scannable(key[..n]);
    hide BuildAttachmentUrl, Document, Extracted, Quote;
    SingleKey(key[..n], key[n..]);
  }

  /** The tail that an unreadable rest of a key leaves behind the URL. */
  lemma RestIsCalm(rest: string)
    requires IsBytes(rest) && (rest == [] || Dirty(rest[0]))
    ensures
      var tail := Quote(Quote(rest));
      (tail == [] || !KeyChar(tail[0])) && forall c :: c in tail ==> c != '/' && c != '=' && c != ':'
  {
    QuoteClean(rest);
    QuoteClean(Quote(rest));
    if rest != [] {
      DirtyStaysFirst(rest);
      DirtyStaysFirst(Quote(rest));
    }
  }

  lemma SingleKey(clean: string, rest: string)
    requires Scannable(clean) && IsBytes(rest) && (rest == [] || Dirty(rest[0]))
    ensures Extracted(Document([Piece("", clean)], Quote(Quote(rest)))) == [clean]
  {
    hide Quote, BuildAttachmentUrl, KeyChar, Extracted, OccursAt, MatchAt, Scannable, Unique, Document, Dirty;
    hide Calm, SchemeFree, Quiet, Separated, QuietText, Keys, Anchored;
    var tail := Quote(Quote(rest));
    var pieces, s := [Piece("", clean)], BuildAttachmentUrl(clean) + tail;
    RestIsCalm(rest);
    ScannableUrl(clean);
    DocumentOfOne(clean, tail);
    NoColonNoScheme(s);
    TailIsCalm(BuildAttachmentUrl(clean), tail);
    CalmIsQuiet(s, |BuildAttachmentUrl(clean)|);
    OnePiece(clean, tail);
    assert Follows(s, 0, pieces, tail);
    SchemeFreeIsAnchored(s, -1, 0, pieces, tail);
    DocumentRoundTrip(pieces, tail);
    UniqueOfOne(pieces);
  }

  lemma ScannableUrl(key: string)
    requires Scannable(key)
    ensures ':' !in BuildAttachmentUrl(key)
  {
    UrlHasNoColon(key);
  }

  lemma TailIsCalm(head: string, tail: string)
    requires forall c :: c in tail ==> c != '/' && c != '='
    ensures Calm(head + tail, |head|)
  {
    forall j | |head| <= j < |head + tail|
      ensures (head + tail)[j] != '/' && (head + tail)[j] != '='
    {
      assert tail[j - |head|] in tail;
    }
  }

  lemma OnePiece(clean: string, tail: string)
    requires Scannable(clean) && (tail == [] || !KeyChar(tail[0]))
    requires
      var s := BuildAttachmentUrl(clean) + tail;
      Quiet(s, |BuildAttachmentUrl(clean)|, |s|, |s|)
    ensures Separated([Piece("", clean)], tail)
    ensures QuietText(BuildAttachmentUrl(clean) + tail, 0, [Piece("", clean)])
  {
    hide BuildAttachmentUrl, KeyChar, Scannable, MatchAt;
    var pieces := [Piece("", clean)];
    assert pieces[1..] == [] && Document(pieces[1..], tail) == tail;
    assert Quiet(BuildAttachmentUrl(clean) + tail, 0, 0, |BuildAttachmentUrl(clean) + tail|);
  }

  lemma UniqueOfOne(pieces: seq<Piece>)
    requires |pieces| == 1
    ensures Unique(Keys(pieces)) == [pieces[0].key]
  {
    assert pieces[1..] == [] && Keys(pieces) == [pieces[0].key] + Keys([]);
    assert [pieces[0].key][..0] == [];
  }

  lemma NoKeyRef(s: string, k: nat)
    requires OccursAt(s, k, "key=") && (k + 4 == |s| || Dirty(s[k + 4]))
    ensures MatchAt(s, k, |s|).None?
  {
    hide FoldsTo, RunEnd;
    KeyWord(s, k, |s|);
    NotASlug(s, k, |s|);
    RunEndIs(s, k + 3, k + 3, |s|, IsSpace);
    RunEndIs(s, k + 4, k + 4, |s|, IsSpace);
    RunEndIs(s, k + 4, k + 4, |s|, KeyChar);
  }

  /** Behind the slug nothing matches. */
  lemma NothingBehindSlug(s: string, raw: string, j: nat)
    requires OccursAt(s, |IMAGE_PATH|, IMAGE_QUERY) && OccursAt(s, |IMAGE_PATH| + |IMAGE_QUERY|, "key=")
    requires
      var from := |IMAGE_PATH| + |IMAGE_QUERY| + 4;
      OccursAt(s, from, raw) && from + |raw| == |s|
    requires (raw == [] || Dirty(raw[0])) && forall c :: c in raw ==> c != '/' && c != '='
    requires |IMAGE_PATH| <= j < |s| && Inert(IMAGE_QUERY)
    ensures MatchAt(s, j, |s|).None?
  {
    hide MatchAt, OccursAt, Inert, Dirty;
    var k := |IMAGE_PATH| + |IMAGE_QUERY|;
    if j < k {
      NoMatchInInert(s, |IMAGE_PATH|, IMAGE_QUERY, j, |s|);
    } else if j == k {
      if raw != [] {
        OccursChar(s, k + 4, raw, 0);
      }
      OccursFits(s, k, "key=");
      NoKeyRef(s, k);
    } else if j < k + 4 {
      OccursChar(s, k, "key=", j - k);
      NoMatchByFirst(s, j, |s|);
    } else {
      TailIsQuiet(s, k + 4, raw, j);
    }
  }

  lemma OnlySlug(s: string, key: string)
    requires IsBytes(key) && CleanLength(key) == 0 && s == BuildAttachmentUrl(key)
    ensures FindAll(s, 0) == [SlugOf(0)]
  {
    hide Quote, BuildAttachmentUrl, MatchAt, Search, FindAll, OccursAt, Dirty, KeyChar;
    WholeUrl(s, key);
    UrlParts(s, 0, key);
    DirtyRaw(key);
    ImageSlug(s, 0, |s|);
    FindAllHit(s, 0, SlugOf(0));
    forall j | |IMAGE_PATH| <= j < |s|
      ensures MatchAt(s, j, |s|).None?
    {
      NothingBehindSlug(s, Quote(Quote(key)), j);
    }
    EmptyDocument(s, |IMAGE_PATH|, "");
  }

  lemma WholeUrl(s: string, key: string)
    requires s == BuildAttachmentUrl(key)
    ensures OccursAt(s, 0, BuildAttachmentUrl(key))
  {
    assert s[0..|s|] == s;
  }

  lemma DirtyRaw(key: string)
    requires IsBytes(key) && CleanLength(key) == 0
    ensures
      var raw := Quote(Quote(key));
      (raw == [] || Dirty(raw[0])) && forall c :: c in raw ==> c != '/' && c != '='
  {
    QuoteClean(key);
    QuoteClean(Quote(key));
    if key != [] {
      DirtyStaysFirst(key);
      DirtyStaysFirst(Quote(key));
    }
  }

  lemma TailIsQuiet(s: string, from: nat, raw: string, j: nat)
    requires OccursAt(s, from, raw) && from + |raw| == |s| && from <= j < |s|
    requires forall c :: c in raw ==> c != '/' && c != '='
    ensures MatchAt(s, j, |s|).None?
  {
    hide MatchAt;
    assert s == s[..from] + raw;
    TailIsCalm(s[..from], raw);
    CalmIsQuiet(s, from);
  }

  /** Nothing readable after `key=`: only the path slug is found. */
  lemma SlugRemains(key: string)
    requires IsBytes(key) && CleanLength(key) == 0
    ensures Extracted(BuildAttachmentUrl(key)) == ["image"]
  {
    var s := BuildAttachmentUrl(key);
    OnlySlug(s, key);
    var ms := FindAll(s, 0);
    assert ms[1..] == [];
    assert Superseded(s, ms) == {};
    assert Values(ms, {}) == ["image"];
    assert ["image"][..0] == [];
  }

  /** An image URL gives its key back exactly if the key is not empty and free of `.` and `~`. */
  lemma ImageUrlRoundTripIff(key: string)
    requires IsBytes(key)
    ensures Extracted(BuildAttachmentUrl(key)) == [key] <==> Scannable(key)
  {
    hide Extracted, BuildAttachmentUrl;
    var n := CleanLength(key);
    assert n == |key| ==> key[..n] == key;
    assert "image"[0] == 'i';
    if n == 0 {
      SlugRemains(key);
    } else {
      PrefixIsRead(key);
      assert n < |key| ==> key[n] in key;
    }
  }

  // ---- link URLs ------------------------------------------------------------------------------

  lemma LinkParts(s: string, key: string)
    requires s == BuildAttachmentLinkUrl(key)
    ensures OccursAt(s, 0, LINK_PATH) && OccursAt(s, |LINK_PATH|, "key=") && OccursAt(s, |LINK_PATH| + 4, Quote(key))
    ensures |s| == |LINK_PATH| + 4 + |Quote(key)|
  {
    hide Quote;
    assert s == LINK_PATH + "key=" + Quote(key);
    OccursSplit(s, 0, LINK_PATH + "key=", Quote(key));
    OccursSplit(s, 0, LINK_PATH, "key=");
    assert s[0..|s|] == s;
  }

  lemma LinkCharacters(j: nat)
    requires j < |LINK_PATH|
    ensures LINK_PATH[j] != 'k' && LINK_PATH[j] != 'K'
    ensures LINK_PATH[j] == '/' ==> j == 0 || j == 4 || j == 16
    ensures LINK_PATH[6] == 't' && LINK_PATH[17] == '?'
  {
  }

  lemma PrefixNeeds(s: string, i: nat, hi: nat)
    requires hi <= |s|
    ensures FoldsTo(s, i, hi, PATH_PREFIX) ==> i + 17 <= hi && Lower(s[i + 1]) == 'a' && Lower(s[i + 2]) == 'p'
  {
    assert PATH_PREFIX[1] == 'a' && PATH_PREFIX[2] == 'p';
  }

  /** No match begins in the path of a link URL: a slug would have to follow, and a question mark does. */
  lemma LinkPathIsQuiet(s: string, j: nat, hi: nat)
    requires OccursAt(s, 0, LINK_PATH) && j < |LINK_PATH| <= hi <= |s|
    ensures MatchAt(s, j, hi).None?
  {
    hide OccursAt;
    OccursChar(s, 0, LINK_PATH, j);
    LinkCharacters(j);
    if s[j] != '/' {
      NoMatchByFirst(s, j, hi);
    } else {
      OccursChar(s, 0, LINK_PATH, 6);
      OccursChar(s, 0, LINK_PATH, 17);
      FirstFolds(s, j, hi, "key");
      if j == 0 {
        QuestionMarkIsNoSlug(s, hi);
      } else {
        PrefixNeeds(s, j, hi);
      }
    }
  }

  lemma QuestionMarkIsNoSlug(s: string, hi: nat)
    requires 17 < hi <= |s| && s[17] == '?'
    ensures SlugAt(s, 0, hi).None?
  {
    hide FoldsTo;
    RunEndIs(s, 17, 17, hi, SlugChar);
  }

  lemma LinkMatches(s: string, key: string)
    requires Scannable(key) && s == BuildAttachmentLinkUrl(key)
    ensures FindAll(s, 0) == [KeyRef(|LINK_PATH|, |s|, Quote(key))]
  {
    hide Quote, BuildAttachmentLinkUrl, OccursAt, MatchAt, FindAll, Search, Scannable, KeyChar;
    var k := |LINK_PATH|;
    LinkParts(s, key);
    LinkKey(s, key);
    forall j | 0 <= j < k
      ensures MatchAt(s, j, |s|).None?
    {
      LinkPathIsQuiet(s, j, |s|);
    }
    FindAllSkips(s, 0, k);
    FindAllHit(s, k, KeyRef(k, |s|, Quote(key)));
    EmptyDocument(s, |s|, "");
  }

  lemma LinkKey(s: string, key: string)
    requires Scannable(key) && s == BuildAttachmentLinkUrl(key)
    ensures |LINK_PATH| <= |s| && MatchAt(s, |LINK_PATH|, |s|) == Some(KeyRef(|LINK_PATH|, |s|, Quote(key)))
  {
    hide MatchAt, OccursAt, BuildAttachmentLinkUrl, Quote;
    LinkParts(s, key);
    QuoteIsBytes(key);
    OccursChar(s, 0, LINK_PATH, |LINK_PATH| - 1);
    LinkCharacters(|LINK_PATH| - 1);
    KeyMatch(s, |LINK_PATH|, |s|, Quote(key));
  }

  lemma LinkSupersedesNothing(s: string, key: string, m: Match)
    requires s == BuildAttachmentLinkUrl(key) && m.start == |LINK_PATH|
    ensures m.start <= |s| && SupersededBy(s, m).None?
  {
    hide Quote, BuildAttachmentLinkUrl, OccursAt, MatchAt, UrlStart;
    var k := |LINK_PATH|;
    LinkParts(s, key);
    forall j | 0 <= j < k
      ensures MatchAt(s, j, k).None?
    {
      LinkPathIsQuiet(s, j, k);
    }
    SearchSkips(s, UrlStart(s, k), k, k);
    NothingAtEnd(s, k);
  }

  lemma NothingAtEnd(s: string, hi: nat)
    requires hi <= |s|
    ensures Search(s, hi, hi).None?
  {
  }

  /** A link URL gives its key back decoded, and so unchanged exactly if the key holds no `%hh`. */
  lemma LinkUrlRoundTrip(key: string)
    requires Scannable(key)
    ensures Extracted(BuildAttachmentLinkUrl(key)) == [Unquote(key)]
    ensures Extracted(BuildAttachmentLinkUrl(key)) == [key] <==> !HasEscape(key)
  {
    var s := BuildAttachmentLinkUrl(key);
    LinkMatches(s, key);
    LinkSupersedesNothing(s, key, KeyRef(|LINK_PATH|, |s|, Quote(key)));
    UnquoteQuote(key);
    UnquoteFixpoint(key);
    hide Quote, Unquote, BuildAttachmentLinkUrl, SupersededBy, Scannable, HasEscape;
    var ms := FindAll(s, 0);
    assert ms[1..] == [];
    assert Superseded(s, ms) == {};
    assert Values(ms, {}) == [Unquote(key)] + Values([], {});
    assert [Unquote(key)][..0] == [];
    assert Unique([Unquote(key)]) == [Unquote(key)];
  }

  // ---- references that are not read -------------------------------------------------------------

  /** The form of a reference in JSON, which the comment on the expression lists. */
  function ColonForm(key: string): string {
    "\"key\":\"" + key + "\""
  }

  lemma ColonText(key: string)
    ensures
      var s := ColonForm(key);
      && |s| == |key| + 8 && s[|s| - 1] == '"' && (forall i :: 7 <= i < |s| - 1 ==> s[i] == key[i - 7])
      && forall i :: 0 <= i < 7 ==> s[i] != '=' && s[i] != '/'
  {
    var front := "\"key\":\"";
    assert |front| == 7 && '=' !in front && '/' !in front;
    assert forall i :: 0 <= i < 7 ==> ColonForm(key)[i] == front[i] && front[i] in front;
  }

  lemma {:induction false} FoundAreMatches(s: string, lo: nat)
    requires lo <= |s|
    ensures forall m :: m in FindAll(s, lo) ==> m.start <= |s| && MatchAt(s, m.start, |s|) == Some(m)
    decreases |s| - lo
  {
    hide MatchAt;
    SearchMatches(s, lo, |s|);
    match Search(s, lo, |s|)
    case None =>
    case Some(m) => FoundAreMatches(s, m.end);
  }

  lemma {:induction false} SearchMatches(s: string, lo: nat, hi: nat)
    requires lo <= hi <= |s|
    ensures Search(s, lo, hi).Some? ==> MatchAt(s, Search(s, lo, hi).value.start, hi) == Search(s, lo, hi)
    decreases hi - lo
  {
    hide SlugAt, KeyRefAt;
    if lo < hi {
      SearchMatches(s, lo + 1, hi);
    }
  }

  /** Every extracted value is no longer than the text of some match. */
  lemma {:induction false} ValuesAreShort(ms: seq<Match>, superseded: set<nat>, n: nat)
    requires forall m :: m in ms ==> |m.text| < n
    ensures forall x :: x in Values(ms, superseded) ==> |x| < n
    decreases ms
  {
    hide Unquote;
    if ms != [] {
      UnquoteShrinks(ms[0].text);
      UnquoteShrinks(Unquote(ms[0].text));
      assert ms[0] in ms && forall m :: m in ms[1..] ==> m in ms;
      ValuesAreShort(ms[1..], superseded, n);
    }
  }

  /** In this form a key reference can only begin behind an equals sign of the key itself, and a path slug behind its
      prefix: either way less than the key is read. */
  lemma ColonMatchIsShort(key: string, i: nat)
    requires i <= |ColonForm(key)|
    ensures
      var m := MatchAt(ColonForm(key), i, |ColonForm(key)|);
      m.Some? ==> |m.value.text| < |key|
  {
    hide ColonForm, FoldsTo, IsSpace;
    var s := ColonForm(key);
    ColonText(key);
    if SlugAt(s, i, |s|).None? && KeyRefAt(s, i, |s|).Some? {
      var equals := RunEnd(s, i + 3, |s|, IsSpace);
      var from := SkipQuote(s, RunEnd(s, equals + 1, |s|, IsSpace), |s|);
      assert equals >= 7 && from >= 8;
      assert RunEnd(s, from, |s|, KeyChar) < |s|;
    }
  }

  /** The form `"key":"..."` never gives its key back, whatever the key. */
  lemma ColonFormIsNotRead(key: string)
    ensures key !in Extracted(ColonForm(key))
  {
    hide MatchAt, FindAll, Values, Superseded, Unique, ColonForm;
    var s := ColonForm(key);
    FindAllWithin(s, 0);
    var ms := FindAll(s, 0);
    FoundAreMatches(s, 0);
    forall m | m in ms
      ensures |m.text| < |key|
    {
      ColonMatchIsShort(key, m.start);
    }
    ValuesAreShort(ms, Superseded(s, ms), |key|);
    UniqueIsSet(Values(ms, Superseded(s, ms)));
  }

  /** It gives nothing at all for a key without an equals sign and without the path of an attachment, such as the keys
      that the repository makes. */
  lemma ColonFormFindsNothing(key: string)
    requires '=' !in key && forall i: nat :: !FoldsTo(key, i, |key|, PATH_PREFIX)
    ensures Extracted(ColonForm(key)) == []
  {
    hide MatchAt, FindAll, ColonForm, FoldsTo;
    var s := ColonForm(key);
    forall j | 0 <= j < |s|
      ensures MatchAt(s, j, |s|).None?
    {
      NoSlugInColonForm(key, j);
      NoKeyInColonForm(key, j);
    }
    EmptyDocument(s, 0, "");
    UniqueOfNone();
  }

  lemma NoSlugInColonForm(key: string, j: nat)
    requires j <= |ColonForm(key)| && forall i: nat :: !FoldsTo(key, i, |key|, PATH_PREFIX)
    ensures SlugAt(ColonForm(key), j, |ColonForm(key)|).None?
  {
    hide ColonForm, RunEnd;
    var s := ColonForm(key);
    ColonText(key);
    if FoldsTo(s, j, |s|, PATH_PREFIX) {
      PrefixInColonForm(s, key, j);
    }
  }

  lemma PrefixInColonForm(s: string, key: string, j: nat)
    requires |s| == |key| + 8 && s[|s| - 1] == '"' && (forall i :: 7 <= i < |s| - 1 ==> s[i] == key[i - 7])
    requires forall i :: 0 <= i < 7 ==> s[i] != '/'
    requires FoldsTo(s, j, |s|, PATH_PREFIX)
    ensures j >= 7 && FoldsTo(key, j - 7, |key|, PATH_PREFIX)
  {
    assert |PATH_PREFIX| == 17 && PATH_PREFIX[0] == '/' && PATH_PREFIX[16] == '/';
    assert Lower(s[j + 0]) == '/' && Lower(s[j + 16]) == '/';
    assert j + 17 < |s|;
    forall i | 0 <= i < 17
      ensures Lower(key[j - 7 + i]) == PATH_PREFIX[i]
    {
      assert Lower(s[j + i]) == PATH_PREFIX[i] && s[j + i] == key[j + i - 7];
    }
  }

  lemma NoKeyInColonForm(key: string, j: nat)
    requires j < |ColonForm(key)| && '=' !in key
    ensures
      var s := ColonForm(key);
      MatchAt(s, j, |s|) == SlugAt(s, j, |s|)
  {
    hide ColonForm, FoldsTo, IsSpace, KeyChar, SlugChar;
    var s := ColonForm(key);
    ColonText(key);
    forall i | 0 <= i < |s|
      ensures s[i] != '='
    {
      assert 7 <= i < |s| - 1 ==> key[i - 7] in key;
    }
  }
}
