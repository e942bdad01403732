/** The printer of src/utils/attachment_url.py against the scanner of src/utils/extract_attachments.py. */
module AttachmentRoundTrip {
  import opened Wrappers
  import opened PercentEncoding
  import opened PythonText
  import opened AttachmentScanner
  import opened AttachmentUrls

  /** Some text, then the image URL of a key. */
  datatype Piece = Piece(text: string, key: string)

  function Document(pieces: seq<Piece>, tail: string): string {
    if pieces == [] then tail
    else pieces[0].text + BuildAttachmentUrl(pieces[0].key) + Document(pieces[1..], tail)
  }

  function Keys(pieces: seq<Piece>): seq<string> {
    if pieces == [] then [] else [pieces[0].key] + Keys(pieces[1..])
  }

  /** What follows each URL does not continue its key. */
  ghost predicate Separated(pieces: seq<Piece>, tail: string) {
    pieces == [] ||
    (var rest := Document(pieces[1..], tail);
     Scannable(pieces[0].key) && (rest == [] || !KeyChar(rest[0])) && Separated(pieces[1..], tail))
  }

  /** No reference begins in the text around the URLs. */
  ghost predicate QuietText(s: string, off: nat, pieces: seq<Piece>)
    decreases pieces
  {
    if pieces == [] then Quiet(s, off, |s|, |s|)
    else
      var u := off + |pieces[0].text|;
      Quiet(s, off, u, |s|) && QuietText(s, u + |BuildAttachmentUrl(pieces[0].key)|, pieces[1..])
  }

  ghost predicate SchemeFree(s: string) {
    forall i: nat :: !OccursAt(s, i, "https://") && !OccursAt(s, i, "http://")
  }

  function KeyPosition(u: nat): nat {
    u + |IMAGE_PATH| + |IMAGE_QUERY|
  }

  /** Searched backward from its key, the URL at `u` is taken to start behind the start of the URL before it, which is
      at `prev`, or -1 for the first. */
  predicate AnchoredAt(s: string, prev: int, u: nat) {
    KeyPosition(u) <= |s| && prev < UrlStart(s, KeyPosition(u))
  }

  predicate Anchored(s: string, prev: int, off: nat, pieces: seq<Piece>)
    decreases pieces
  {
    pieces == [] ||
    (var u := off + |pieces[0].text|;
     AnchoredAt(s, prev, u) && Anchored(s, u, u + |BuildAttachmentUrl(pieces[0].key)|, pieces[1..]))
  }

  // ---- the matches of a document --------------------------------------------------------

  function SlugOf(u: nat): Match {
    Slug(u, u + |IMAGE_PATH|, "image")
  }

  function KeyRefOf(s: string, u: nat, key: string): Match {
    var e := u + |BuildAttachmentUrl(key)|;
    KeyRef(KeyPosition(u), if e <= |s| then SkipQuote(s, e, |s|) else e, Quote(Quote(key)))
  }

  ghost predicate Follows(s: string, off: nat, pieces: seq<Piece>, tail: string) {
    off <= |s| && s[off..] == Document(pieces, tail)
  }

  lemma FollowsNext(s: string, off: nat, pieces: seq<Piece>, tail: string)
    requires Follows(s, off, pieces, tail) && pieces != []
    ensures
      var u := off + |pieces[0].text|;
      OccursAt(s, u, BuildAttachmentUrl(pieces[0].key)) &&
      u + |IMAGE_PATH| + |IMAGE_QUERY| <= u + |BuildAttachmentUrl(pieces[0].key)| <= |s| &&
      Follows(s, u + |BuildAttachmentUrl(pieces[0].key)|, pieces[1..], tail)
  {
    var text, url, rest := pieces[0].text, BuildAttachmentUrl(pieces[0].key), Document(pieces[1..], tail);
    var u := off + |text|;
    assert s[off..] == text + url + rest;
    assert s[u..u + |url|] == s[off..][|text|..|text| + |url|];
    assert s[u + |url|..] == s[off..][|text| + |url|..];
  }

  /** The matches of the pieces, if they begin at `off`. */
  function Expected(s: string, off: nat, pieces: seq<Piece>): seq<Match>
    decreases pieces
  {
    if pieces == [] then []
    else
      var u := off + |pieces[0].text|;
      [SlugOf(u), KeyRefOf(s, u, pieces[0].key)] +
      Expected(s, u + |BuildAttachmentUrl(pieces[0].key)|, pieces[1..])
  }

  function SlugStarts(off: nat, pieces: seq<Piece>): set<nat>
    decreases pieces
  {
    if pieces == [] then {}
    else
      var u := off + |pieces[0].text|;
      {u} + SlugStarts(u + |BuildAttachmentUrl(pieces[0].key)|, pieces[1..])
  }

  /** An optional closing quote belongs to the match, but no match begins there either. */
  lemma SkipQuoteIsQuiet(s: string, e: nat)
    requires e <= |s|
    ensures FindAll(s, SkipQuote(s, e, |s|)) == FindAll(s, e)
  {
    if e < |s| && s[e] == '"' {
      NoMatchByFirst(s, e, |s|);
      FindAllSkips(s, e, e + 1);
    }
  }

  lemma FirstMatches(s: string, off: nat, u: nat, key: string)
    requires off <= u && Quiet(s, off, u, |s|)
    requires Scannable(key) && OccursAt(s, u, BuildAttachmentUrl(key))
    requires
      var e := u + |BuildAttachmentUrl(key)|;
      e == |s| || !KeyChar(s[e])
    ensures FindAll(s, off) == [SlugOf(u), KeyRefOf(s, u, key)] + FindAll(s, u + |BuildAttachmentUrl(key)|)
  {
    hide MatchAt, Search, FindAll, Quote, BuildAttachmentUrl, OccursAt, Scannable;
    FindAllSkips(s, off, u);
    ImageUrlMatches(s, u, key);
    SkipQuoteIsQuiet(s, u + |BuildAttachmentUrl(key)|);
  }

  /** The matches of the first piece, and everything that the induction needs for the others. */
  lemma FirstPiece(s: string, off: nat, pieces: seq<Piece>, tail: string)
    requires Follows(s, off, pieces, tail) && Separated(pieces, tail) && QuietText(s, off, pieces) && pieces != []
    ensures
      var key, u := pieces[0].key, off + |pieces[0].text|;
      var e := u + |BuildAttachmentUrl(key)|;
      && Follows(s, e, pieces[1..], tail) && Separated(pieces[1..], tail) && QuietText(s, e, pieces[1..])
      && FindAll(s, off) == [SlugOf(u), KeyRefOf(s, u, key)] + FindAll(s, e)
  {
    hide FindAll, BuildAttachmentUrl, OccursAt, Scannable, Document, KeyChar, Quote, Quiet;
    var u := off + |pieces[0].text|;
    var e := u + |BuildAttachmentUrl(pieces[0].key)|;
    FollowsNext(s, off, pieces, tail);
    assert e < |s| ==> s[e] == s[e..][0];
    FirstMatches(s, off, u, pieces[0].key);
  }

  lemma {:induction false} MatchesOfDocument(s: string, off: nat, pieces: seq<Piece>, tail: string)
    requires Follows(s, off, pieces, tail) && Separated(pieces, tail) && QuietText(s, off, pieces)
    ensures FindAll(s, off) == Expected(s, off, pieces)
    decreases pieces
  {
    hide FindAll, BuildAttachmentUrl, Separated, Document, Quiet, KeyRefOf, Quote;
    if pieces == [] {
      EmptyDocument(s, off, tail);
    } else {
      hide Follows, QuietText;
      FirstPiece(s, off, pieces, tail);
      MatchesOfDocument(s, off + |pieces[0].text| + |BuildAttachmentUrl(pieces[0].key)|, pieces[1..], tail);
    }
  }

  lemma EmptyDocument(s: string, off: nat, tail: string)
    requires Quiet(s, off, |s|, |s|) && off <= |s|
    ensures FindAll(s, off) == []
  {
    FindAllSkips(s, off, |s|);
  }

  // ---- every path slug is superseded ------------------------------------------------------

  /** The last `/api/` in front of the key of a built URL is the one at its start. */
  lemma LastApiIsUrl(s: string, u: nat, v: nat)
    requires OccursAt(s, u, IMAGE_PATH) && OccursAt(s, u + |IMAGE_PATH|, IMAGE_QUERY)
    requires u <= v && v + 5 <= u + |IMAGE_PATH| + |IMAGE_QUERY| && OccursAt(s, v, "/api/")
    ensures v == u
  {
    OccursChar(s, v, "/api/", 0);
    OccursChar(s, v, "/api/", 2);
    var d := v - u;
    if d < |IMAGE_PATH| {
      OccursChar(s, u, IMAGE_PATH, d);
      SlashesOfPath(d);
      if d == 4 || d == 16 {
        OccursChar(s, u, IMAGE_PATH, d + 2);
      }
    } else {
      OccursChar(s, u + |IMAGE_PATH|, IMAGE_QUERY, d - |IMAGE_PATH|);
      QueryHasNoSlash(d - |IMAGE_PATH|);
    }
  }

  lemma SlashesOfPath(d: nat)
    requires d < |IMAGE_PATH| && IMAGE_PATH[d] == '/'
    ensures d == 0 || d == 4 || d == 16
    ensures IMAGE_PATH[6] == 't' && IMAGE_PATH[18] == 'm'
  {
  }

  lemma QueryHasNoSlash(d: nat)
    requires d < |IMAGE_QUERY|
    ensures IMAGE_QUERY[d] != '/'
  {
  }

  lemma ApiAtStart(s: string, u: nat)
    requires OccursAt(s, u, IMAGE_PATH)
    ensures OccursAt(s, u, "/api/")
  {
    assert IMAGE_PATH == "/api/" + "attachments/image";
    OccursSplit(s, u, "/api/", "attachments/image");
  }

  ghost predicate UrlHead(s: string, u: nat) {
    OccursAt(s, u, IMAGE_PATH) && OccursAt(s, u + |IMAGE_PATH|, IMAGE_QUERY) && KeyPosition(u) <= |s|
  }

  /** No scheme marker begins inside the head of a URL and ends by its key. */
  lemma MarkerBeforeUrl(s: string, u: nat, v: nat, marker: string)
    requires UrlHead(s, u) && (marker == "https://" || marker == "http://")
    requires OccursAt(s, v, marker) && v + |marker| <= KeyPosition(u)
    ensures v <= u
  {
    hide OccursAt;
    var colon := if marker == "https://" then 5 else 4;
    assert marker[colon] == ':';
    OccursChar(s, v, marker, colon);
    var d := v + colon - u;
    if v > u {
      if d < |IMAGE_PATH| {
        OccursChar(s, u, IMAGE_PATH, d);
      } else {
        OccursChar(s, u + |IMAGE_PATH|, IMAGE_QUERY, d - |IMAGE_PATH|);
      }
      HeadHasNoColon(d);
    }
  }

  lemma HeadHasNoColon(d: nat)
    requires d < |IMAGE_PATH| + |IMAGE_QUERY|
    ensures d < |IMAGE_PATH| ==> IMAGE_PATH[d] != ':'
    ensures d >= |IMAGE_PATH| ==> IMAGE_QUERY[d - |IMAGE_PATH|] != ':'
  {
  }

  /** The URL of a key is never taken to start behind its real start. */
  lemma UrlStartBounded(s: string, u: nat)
    requires UrlHead(s, u)
    ensures UrlStart(s, KeyPosition(u)) <= u
    ensures SchemeFree(s) ==> UrlStart(s, KeyPosition(u)) == u
  {
    hide LastBefore, OccursAt;
    var k := KeyPosition(u);
    ApiAtStart(s, u);
    if LastBefore(s, "https://", k).Some? {
      MarkerBeforeUrl(s, u, LastBefore(s, "https://", k).value, "https://");
    } else if LastBefore(s, "http://", k).Some? {
      MarkerBeforeUrl(s, u, LastBefore(s, "http://", k).value, "http://");
    } else {
      LastApiIsUrl(s, u, LastBefore(s, "/api/", k).value);
    }
  }

  lemma RunStarts(s: string, i: nat, hi: nat, kind: char -> bool)
    requires i < hi <= |s|
    ensures RunEnd(s, i, hi, kind) > i <==> kind(s[i])
  {
  }

  lemma FoldsExtends(s: string, i: nat, hi: nat, lit: string)
    requires hi <= |s|
    ensures FoldsTo(s, i, hi, lit) ==> FoldsTo(s, i, |s|, lit) && i + |lit| <= hi
  {
  }

  lemma SlugExtends(s: string, i: nat, hi: nat)
    requires i <= hi <= |s| && SlugAt(s, i, hi).Some?
    ensures SlugAt(s, i, |s|).Some?
  {
    hide RunEnd, SlugChar, FoldsTo;
    FoldsExtends(s, i, hi, PATH_PREFIX);
    var from := i + |PATH_PREFIX|;
    if from < hi {
      RunStarts(s, from, hi, SlugChar);
      RunStarts(s, from, |s|, SlugChar);
    }
  }

  lemma KeyRefExtends(s: string, i: nat, hi: nat)
    requires i <= hi <= |s| && KeyRefAt(s, i, hi).Some?
    ensures KeyRefAt(s, i, |s|).Some?
  {
    hide RunEnd, SlugChar, KeyChar, FoldsTo;
    FoldsExtends(s, i, hi, "key");
    var equals := RunEnd(s, i + 3, hi, IsSpace);
    RunEndIs(s, i + 3, equals, |s|, IsSpace);
    var a := RunEnd(s, equals + 1, hi, IsSpace);
    var from := SkipQuote(s, a, hi);
    RunEndIs(s, equals + 1, a, |s|, IsSpace);
    RunStarts(s, from, hi, KeyChar);
    RunStarts(s, from, |s|, KeyChar);
  }

  /** What matches in a part of the text matches in the whole. */
  lemma MatchExtends(s: string, i: nat, hi: nat)
    requires i <= hi <= |s| && MatchAt(s, i, hi).Some?
    ensures MatchAt(s, i, |s|).Some?
  {
    hide SlugAt, KeyRefAt;
    if SlugAt(s, i, hi).Some? {
      SlugExtends(s, i, hi);
    } else {
      KeyRefExtends(s, i, hi);
    }
  }

  lemma QuietInPart(s: string, lo: nat, to: nat, hi: nat)
    requires Quiet(s, lo, to, |s|) && to <= hi <= |s|
    ensures Quiet(s, lo, to, hi)
  {
    forall j | lo <= j < to
      ensures MatchAt(s, j, hi).None?
    {
      if MatchAt(s, j, hi).Some? {
        MatchExtends(s, j, hi);
      }
    }
  }

  ghost predicate ColonFree(s: string, from: int, to: nat) {
    from <= to <= |s| && forall j :: 0 <= j && from <= j < to ==> s[j] != ':'
  }

  lemma UrlIsColonFree(s: string, u: nat, key: string)
    requires IsBytes(key) && OccursAt(s, u, BuildAttachmentUrl(key))
    ensures ColonFree(s, u, u + |BuildAttachmentUrl(key)|)
  {
    var url := BuildAttachmentUrl(key);
    UrlHasNoColon(key);
    hide OccursAt, BuildAttachmentUrl;
    forall j | u <= j < u + |url|
      ensures s[j] != ':'
    {
      OccursChar(s, u, url, j - u);
      assert url[j - u] in url;
    }
    OccursFits(s, u, url);
  }

  /** A scheme marker that begins behind the start of the last URL and still inside it covers only its last letters. */
  lemma MarkerTailIsQuiet(s: string, prev: int, off: nat, v: nat, marker: string, hi: nat)
    requires marker == "https://" || marker == "http://"
    requires ColonFree(s, prev, off) && prev < v < off <= hi <= |s| && OccursAt(s, v, marker)
    ensures Quiet(s, v, off, hi)
  {
    hide OccursAt, MatchAt;
    var colon := if marker == "https://" then 5 else 4;
    assert marker[colon] == ':';
    OccursChar(s, v, marker, colon);
    forall j | v <= j < off
      ensures MatchAt(s, j, hi).None?
    {
      OccursChar(s, v, marker, j - v);
      SchemeLetters(marker, colon, j - v);
      NoMatchByFirst(s, j, hi);
    }
  }

  lemma SchemeLetters(marker: string, colon: nat, d: nat)
    requires (marker == "https://" && colon == 5) || (marker == "http://" && colon == 4)
    requires d < colon
    ensures marker[d] != '/' && marker[d] != 'k' && marker[d] != 'K'
  {
  }

  lemma UrlStartIsMarker(s: string, u: nat)
    requires UrlHead(s, u)
    ensures
      var v := UrlStart(s, KeyPosition(u));
      v == u || (v < u && (OccursAt(s, v, "https://") || OccursAt(s, v, "http://")))
  {
    hide LastBefore, OccursAt;
    var k := KeyPosition(u);
    UrlStartBounded(s, u);
    ApiAtStart(s, u);
    if LastBefore(s, "https://", k).None? && LastBefore(s, "http://", k).None? {
      LastApiIsUrl(s, u, LastBefore(s, "/api/", k).value);
    }
  }

  /** Nothing matches between the place where a URL is taken to start and its real start. */
  lemma QuietFromUrlStart(s: string, prev: int, off: nat, u: nat)
    requires UrlHead(s, u) && ColonFree(s, prev, off) && off <= u && Quiet(s, off, u, |s|)
    requires prev < UrlStart(s, KeyPosition(u))
    ensures Quiet(s, UrlStart(s, KeyPosition(u)), u, KeyPosition(u))
  {
    hide OccursAt, MatchAt, UrlStart;
    var k := KeyPosition(u);
    var v := UrlStart(s, k);
    QuietInPart(s, off, u, k);
    UrlStartIsMarker(s, u);
    if v < off {
      if OccursAt(s, v, "https://") {
        MarkerTailIsQuiet(s, prev, off, v, "https://", k);
      } else {
        MarkerTailIsQuiet(s, prev, off, v, "http://", k);
      }
    }
  }

  lemma KeySupersedes(s: string, prev: int, off: nat, u: nat, key: string)
    requires OccursAt(s, u, BuildAttachmentUrl(key)) && off <= u && Quiet(s, off, u, |s|) && ColonFree(s, prev, off)
    requires AnchoredAt(s, prev, u)
    ensures SupersededBy(s, KeyRefOf(s, u, key)) == Some(u)
  {
    hide MatchAt, Quote, OccursAt, UrlStart, BuildAttachmentUrl, Quiet;
    var k := KeyPosition(u);
    UrlParts(s, u, key);
    UrlStartBounded(s, u);
    QuietFromUrlStart(s, prev, off, u);
    SearchSkips(s, UrlStart(s, k), u, k);
    ImageSlug(s, u, k);
  }

  /** Without a scheme marker every URL is anchored. */
  lemma {:induction false} SchemeFreeIsAnchored(s: string, prev: int, off: nat, pieces: seq<Piece>, tail: string)
    requires SchemeFree(s) && Follows(s, off, pieces, tail) && prev < off
    ensures Anchored(s, prev, off, pieces)
    decreases pieces
  {
    hide BuildAttachmentUrl, OccursAt, Document, Quote, UrlStart, SchemeFree;
    if pieces != [] {
      FollowsNext(s, off, pieces, tail);
      var key, u := pieces[0].key, off + |pieces[0].text|;
      UrlParts(s, u, key);
      UrlStartBounded(s, u);
      SchemeFreeIsAnchored(s, u, u + |BuildAttachmentUrl(key)|, pieces[1..], tail);
    }
  }

  lemma {:induction false} SeparatedIsBytes(pieces: seq<Piece>, tail: string)
    requires Separated(pieces, tail)
    ensures forall p :: p in pieces ==> IsBytes(p.key)
    decreases pieces
  {
    hide Document, KeyChar;
    if pieces != [] {
      SeparatedIsBytes(pieces[1..], tail);
      assert forall p :: p in pieces <==> p == pieces[0] || p in pieces[1..];
    }
  }
}
