/** The URL builders of src/utils/attachment_url.py, and the documents that contain what they build. */
module AttachmentUrls {
  import opened Wrappers
  import opened PercentEncoding
  import opened PythonText
  import opened AttachmentScanner

  const IMAGE_PATH: string := "/api/attachments/image"
  const IMAGE_QUERY: string := "?width=720&format=webp&"
  const LINK_PATH: string := "/api/attachments/?"

  function BuildAttachmentUrl(key: string): string {
    IMAGE_PATH + IMAGE_QUERY + "key=" + Quote(Quote(key))
  }

  function BuildAttachmentLinkUrl(key: string): string {
    LINK_PATH + "key=" + Quote(key)
  }

  /** Keys that the scanner can read back: bytes, not empty, without the two unreserved characters that `quote` leaves
      alone and the scanner does not know. */
  predicate Scannable(key: string) {
    key != [] && IsBytes(key) && '.' !in key && '~' !in key
  }

  // ---- single matches ------------------------------------------------------------------

  lemma FirstFolds(s: string, i: nat, hi: nat, lit: string)
    requires hi <= |s| && lit != []
    ensures FoldsTo(s, i, hi, lit) ==> i < hi && Lower(s[i]) == lit[0]
  {
    assert FoldsTo(s, i, hi, lit) ==> Lower(s[i + 0]) == lit[0];
  }

  /** Both alternatives begin with a fixed character. */
  lemma NoMatchByFirst(s: string, i: nat, hi: nat)
    requires i <= hi <= |s|
    requires i < hi ==> s[i] != '/' && s[i] != 'k' && s[i] != 'K'
    ensures MatchAt(s, i, hi).None?
  {
    FirstFolds(s, i, hi, "key");
    FirstFolds(s, i, hi, PATH_PREFIX);
    assert "key"[0] == 'k' && PATH_PREFIX[0] == '/';
  }

  ghost predicate Inert(s: string) {
    forall c :: c in s ==> c != '/' && c != 'k' && c != 'K'
  }

  /** No match begins in a stretch of inert characters. */
  lemma NoMatchInInert(s: string, i: nat, lit: string, j: nat, hi: nat)
    requires OccursAt(s, i, lit) && Inert(lit) && i <= j < i + |lit| && j <= hi <= |s|
    ensures MatchAt(s, j, hi).None?
  {
    OccursChar(s, i, lit, j - i);
    assert lit[j - i] in lit;
    NoMatchByFirst(s, j, hi);
  }

  lemma OccursFour(s: string, i: nat, a: string, b: string, c: string, d: string)
    requires OccursAt(s, i, a + b + c + d)
    ensures OccursAt(s, i, a) && OccursAt(s, i + |a|, b)
    ensures OccursAt(s, i + |a| + |b|, c) && OccursAt(s, i + |a| + |b| + |c|, d)
  {
    OccursSplit(s, i, a + b + c, d);
    OccursSplit(s, i, a + b, c);
    OccursSplit(s, i, a, b);
  }

  lemma LowerCaseFolds(s: string, i: nat, hi: nat, lit: string)
    requires OccursAt(s, i, lit) && i + |lit| <= hi <= |s|
    requires forall c :: c in lit ==> Lower(c) == c
    ensures FoldsTo(s, i, hi, lit)
  {
    forall j | 0 <= j < |lit|
      ensures Lower(s[i + j]) == lit[j]
    {
      OccursChar(s, i, lit, j);
    }
  }

  lemma PrefixIsLowerCase()
    ensures forall c :: c in PATH_PREFIX ==> Lower(c) == c
  {
  }

  lemma SlugMatch(s: string, u: nat, hi: nat, text: string)
    requires OccursAt(s, u, PATH_PREFIX) && OccursAt(s, u + |PATH_PREFIX|, text)
    requires text != [] && forall c :: c in text ==> SlugChar(c)
    requires
      var e := u + |PATH_PREFIX| + |text|;
      e <= hi <= |s| && (e == hi || !SlugChar(s[e]))
    ensures MatchAt(s, u, hi) == Some(Slug(u, u + |PATH_PREFIX| + |text|, text))
  {
    hide FoldsTo;
    var from, e := u + |PATH_PREFIX|, u + |PATH_PREFIX| + |text|;
    PrefixIsLowerCase();
    LowerCaseFolds(s, u, hi, PATH_PREFIX);
    forall j | from <= j < e
      ensures SlugChar(s[j])
    {
      OccursChar(s, from, text, j - from);
    }
    RunEndIs(s, from, e, hi, SlugChar);
  }

  lemma ImageSlug(s: string, u: nat, hi: nat)
    requires OccursAt(s, u, IMAGE_PATH) && u + |IMAGE_PATH| < hi <= |s| && s[u + |IMAGE_PATH|] == '?'
    ensures MatchAt(s, u, hi) == Some(Slug(u, u + |IMAGE_PATH|, "image"))
  {
    hide MatchAt;
    assert IMAGE_PATH == PATH_PREFIX + "image";
    OccursSplit(s, u, PATH_PREFIX, "image");
    assert forall c :: c in "image" ==> SlugChar(c);
    SlugMatch(s, u, hi, "image");
  }

  /** The second alternative, once the extent of each of its parts is known. */
  lemma KeyRefParts(s: string, k: nat, e: nat, hi: nat)
    requires k + 4 < e <= hi <= |s| && (k == 0 || !SlugChar(s[k - 1]))
    requires FoldsTo(s, k, hi, "key") && s[k + 3] == '=' && s[k + 4] != '"'
    requires RunEnd(s, k + 3, hi, IsSpace) == k + 3 && RunEnd(s, k + 4, hi, IsSpace) == k + 4
    requires RunEnd(s, k + 4, hi, KeyChar) == e
    ensures KeyRefAt(s, k, hi) == Some(KeyRef(k, SkipQuote(s, e, hi), s[k + 4..e]))
  {
    hide FoldsTo, RunEnd, SlugChar;
  }

  lemma KeyWord(s: string, k: nat, hi: nat)
    requires OccursAt(s, k, "key=") && k + 4 <= hi <= |s|
    ensures FoldsTo(s, k, hi, "key") && s[k] == 'k' && s[k + 3] == '='
  {
    hide FoldsTo;
    assert "key=" == "key" + "=";
    OccursSplit(s, k, "key", "=");
    OccursChar(s, k, "key=", 0);
    OccursChar(s, k, "key=", 3);
    LowerCaseFolds(s, k, hi, "key");
  }

  lemma NotASlug(s: string, k: nat, hi: nat)
    requires k < hi <= |s| && s[k] != '/'
    ensures SlugAt(s, k, hi).None?
  {
    hide FoldsTo;
    FirstFolds(s, k, hi, PATH_PREFIX);
    assert PATH_PREFIX[0] == '/';
  }

  lemma RunOf(s: string, from: nat, hi: nat, raw: string)
    requires OccursAt(s, from, raw) && forall c :: c in raw ==> KeyChar(c)
    requires from + |raw| <= hi <= |s| && (from + |raw| == hi || !KeyChar(s[from + |raw|]))
    ensures RunEnd(s, from, hi, KeyChar) == from + |raw| && s[from..from + |raw|] == raw
  {
    hide KeyChar;
    forall j | from <= j < from + |raw|
      ensures KeyChar(s[j])
    {
      OccursChar(s, from, raw, j - from);
      assert raw[j - from] in raw;
    }
    RunEndIs(s, from, from + |raw|, hi, KeyChar);
  }

  lemma KeyMatch(s: string, k: nat, hi: nat, raw: string)
    requires OccursAt(s, k, "key=") && (k == 0 || !SlugChar(s[k - 1]))
    requires OccursAt(s, k + 4, raw) && raw != [] && forall c :: c in raw ==> KeyChar(c)
    requires k + 4 + |raw| <= hi <= |s| && (k + 4 + |raw| == hi || !KeyChar(s[k + 4 + |raw|]))
    ensures MatchAt(s, k, hi) == Some(KeyRef(k, SkipQuote(s, k + 4 + |raw|, hi), raw))
  {
    hide FoldsTo, RunEnd, SlugAt, KeyRefAt;
    var from, e := k + 4, k + 4 + |raw|;
    KeyWord(s, k, hi);
    NotASlug(s, k, hi);
    OccursChar(s, from, raw, 0);
    assert KeyChar(raw[0]);
    RunEndIs(s, k + 3, k + 3, hi, IsSpace);
    RunEndIs(s, from, from, hi, IsSpace);
    RunOf(s, from, hi, raw);
    KeyRefParts(s, k, e, hi);
  }

  // ---- searching over stretches without a match ----------------------------------------

  ghost predicate Quiet(s: string, lo: nat, to: nat, hi: nat) {
    to <= hi <= |s| && forall j :: lo <= j < to ==> MatchAt(s, j, hi).None?
  }

  lemma {:induction false} SearchSkips(s: string, lo: nat, to: nat, hi: nat)
    requires lo <= to && Quiet(s, lo, to, hi)
    ensures Search(s, lo, hi) == Search(s, to, hi)
    decreases hi - lo
  {
    if lo < to {
      assert MatchAt(s, lo, hi).None?;
      SearchSkips(s, lo + 1, to, hi);
    }
  }

  lemma FindAllSkips(s: string, lo: nat, to: nat)
    requires lo <= to && Quiet(s, lo, to, |s|)
    ensures FindAll(s, lo) == FindAll(s, to)
  {
    SearchSkips(s, lo, to, |s|);
  }

  lemma FindAllHit(s: string, lo: nat, m: Match)
    requires lo <= |s| && MatchAt(s, lo, |s|) == Some(m)
    ensures FindAll(s, lo) == [m] + FindAll(s, m.end)
  {
  }

  /** What a built image URL contributes, wherever it stands: its path slug, then its key. */
  lemma ImageUrlMatches(s: string, u: nat, key: string)
    requires Scannable(key) && OccursAt(s, u, BuildAttachmentUrl(key))
    requires
      var e := u + |BuildAttachmentUrl(key)|;
      e == |s| || !KeyChar(s[e])
    ensures
      var path, k, e := u + |IMAGE_PATH|, u + |IMAGE_PATH| + |IMAGE_QUERY|, u + |BuildAttachmentUrl(key)|;
      FindAll(s, u) ==
      [Slug(u, path, "image"), KeyRef(k, SkipQuote(s, e, |s|), Quote(Quote(key)))] + FindAll(s, SkipQuote(s, e, |s|))
  {
    hide MatchAt, Search, Quote, Inert, OccursAt;
    var raw := Quote(Quote(key));
    var path, k, e := u + |IMAGE_PATH|, u + |IMAGE_PATH| + |IMAGE_QUERY|, u + |BuildAttachmentUrl(key)|;
    UrlParts(s, u, key);
    ImageSlug(s, u, |s|);
    FindAllHit(s, u, Slug(u, path, "image"));
    forall j | path <= j < k
      ensures MatchAt(s, j, |s|).None?
    {
      NoMatchInInert(s, path, IMAGE_QUERY, j, |s|);
    }
    FindAllSkips(s, path, k);
    RawIsScannable(key);
    KeyMatch(s, k, |s|, raw);
    FindAllHit(s, k, KeyRef(k, SkipQuote(s, e, |s|), raw));
  }

  lemma QueryEnds()
    ensures |IMAGE_QUERY| > 0 && IMAGE_QUERY[0] == '?' && IMAGE_QUERY[|IMAGE_QUERY| - 1] == '&' && Inert(IMAGE_QUERY)
  {
  }

  lemma UrlParts(s: string, u: nat, key: string)
    requires OccursAt(s, u, BuildAttachmentUrl(key))
    ensures OccursAt(s, u, IMAGE_PATH) && s[u + |IMAGE_PATH|] == '?'
    ensures OccursAt(s, u + |IMAGE_PATH|, IMAGE_QUERY) && Inert(IMAGE_QUERY)
    ensures
      var k := u + |IMAGE_PATH| + |IMAGE_QUERY|;
      k + 4 + |Quote(Quote(key))| == u + |BuildAttachmentUrl(key)| <= |s| &&
      s[k - 1] == '&' && OccursAt(s, k, "key=") && OccursAt(s, k + 4, Quote(Quote(key)))
  {
    hide OccursAt, Quote, IMAGE_PATH, IMAGE_QUERY, Inert;
    var path := u + |IMAGE_PATH|;
    QueryEnds();
    OccursFits(s, u, BuildAttachmentUrl(key));
    OccursFour(s, u, IMAGE_PATH, IMAGE_QUERY, "key=", Quote(Quote(key)));
    OccursChar(s, path, IMAGE_QUERY, 0);
    OccursChar(s, path, IMAGE_QUERY, |IMAGE_QUERY| - 1);
  }

  lemma RawIsScannable(key: string)
    requires Scannable(key)
    ensures Quote(Quote(key)) != [] && forall c :: c in Quote(Quote(key)) ==> KeyChar(c) && c != '/' && c != ':'
  {
    QuoteIsBytes(key);
    QuoteIsBytes(Quote(key));
  }

  lemma QuoteClean(s: string)
    requires IsBytes(s)
    ensures IsBytes(Quote(s))
    ensures forall c :: c in Quote(s) ==> c != '/' && c != '=' && c != ':'
  {
    QuoteIsBytes(s);
  }

  lemma UrlHasNoColon(key: string)
    requires IsBytes(key)
    ensures ':' !in BuildAttachmentUrl(key)
  {
    QuoteClean(key);
    QuoteClean(Quote(key));
    hide Quote;
    assert ':' !in IMAGE_PATH && ':' !in IMAGE_QUERY && ':' !in "key=";
  }
}
