/** Documents of image URLs and ordinary text: what is extracted from them, without reference to the scanner. */
module AttachmentPlain {
  import opened Wrappers
  import opened PercentEncoding
  import opened PythonText
  import opened AttachmentScanner
  import opened AttachmentUrls
  import opened AttachmentRoundTrip
  import opened AttachmentLeak

  /** No equals sign, and no slash in front of the letter with which the path of an attachment goes on. */
  predicate PlainText(t: string) {
    forall i :: 0 <= i < |t| ==> t[i] != '=' && (t[i] == '/' && i + 1 < |t| ==> Lower(t[i + 1]) != 'a')
  }

  predicate EndsKey(t: string) {
    t != [] && !KeyChar(t[0])
  }

  /** Plain text around URLs of readable keys; what follows a URL does not continue its key. */
  predicate PlainPieces(pieces: seq<Piece>, tail: string) {
    && PlainText(tail) && (pieces != [] && tail != [] ==> EndsKey(tail))
    && forall i :: 0 <= i < |pieces| ==>
                     PlainText(pieces[i].text) && Scannable(pieces[i].key) && (i > 0 ==> EndsKey(pieces[i].text))
  }

  lemma PlainNext(pieces: seq<Piece>, tail: string)
    requires PlainPieces(pieces, tail) && pieces != []
    ensures PlainPieces(pieces[1..], tail) && PlainText(pieces[0].text) && Scannable(pieces[0].key)
    ensures pieces[1..] != [] ==> EndsKey(pieces[1..][0].text)
  {
    hide PlainText, Scannable, EndsKey;
  }

  lemma {:induction false} PlainIsSeparated(pieces: seq<Piece>, tail: string)
    requires PlainPieces(pieces, tail)
    ensures Separated(pieces, tail)
    decreases pieces
  {
    hide PlainPieces, Scannable, KeyChar, BuildAttachmentUrl;
    if pieces != [] {
      PlainNext(pieces, tail);
      PlainIsSeparated(pieces[1..], tail);
      TailEndsKey(pieces, tail);
    }
  }

  lemma TailEndsKey(pieces: seq<Piece>, tail: string)
    requires PlainPieces(pieces, tail) && pieces != []
    ensures
      var rest := Document(pieces[1..], tail);
      rest == [] || !KeyChar(rest[0])
  {
    hide PlainText, Scannable, KeyChar, BuildAttachmentUrl;
    PlainNext(pieces, tail);
  }

  // ---- plain text is quiet ----------------------------------------------------------------

  /** In plain text that is followed by a slash or by nothing no reference begins. */
  lemma PlainIsQuiet(s: string, off: nat, t: string)
    requires OccursAt(s, off, t) && PlainText(t) && (off + |t| < |s| ==> s[off + |t|] == '/')
    ensures Quiet(s, off, off + |t|, |s|)
  {
    hide SlugAt, KeyRefAt, OccursAt, PlainText;
    OccursFits(s, off, t);
    forall j | off <= j < off + |t|
      ensures MatchAt(s, j, |s|).None?
    {
      NoSlugInPlain(s, off, t, j);
      NoKeyInPlain(s, off, t, j);
    }
  }

  lemma NoSlugInPlain(s: string, off: nat, t: string, j: nat)
    requires OccursAt(s, off, t) && PlainText(t) && (off + |t| < |s| ==> s[off + |t|] == '/')
    requires off <= j < off + |t| <= |s|
    ensures SlugAt(s, j, |s|).None?
  {
    hide OccursAt, RunEnd;
    OccursChar(s, off, t, j - off);
    if j + 1 < off + |t| {
      OccursChar(s, off, t, j + 1 - off);
    }
    if FoldsTo(s, j, |s|, PATH_PREFIX) {
      PathLetters(s, j);
    }
  }

  lemma PathLetters(s: string, j: nat)
    requires FoldsTo(s, j, |s|, PATH_PREFIX)
    ensures j + 2 <= |s| && s[j] == '/' && Lower(s[j + 1]) == 'a'
  {
    assert PATH_PREFIX[0] == '/' && PATH_PREFIX[1] == 'a' && |PATH_PREFIX| == 17;
    assert Lower(s[j + 0]) == '/' && Lower(s[j + 1]) == 'a';
  }

  lemma NoKeyInPlain(s: string, off: nat, t: string, j: nat)
    requires OccursAt(s, off, t) && PlainText(t) && (off + |t| < |s| ==> s[off + |t|] == '/')
    requires off <= j < off + |t| <= |s|
    ensures KeyRefAt(s, j, |s|).None?
  {
    hide OccursAt, KeyChar, SlugChar;
    var n := off + |t|;
    forall i | off <= i < n
      ensures s[i] != '='
    {
      OccursChar(s, off, t, i - off);
    }
    SlashIsNoSpace();
    if FoldsTo(s, j, |s|, "key") {
      KeyLetters(s, j);
      var equals := RunEnd(s, j + 3, |s|, IsSpace);
      assert n < |s| && n <= equals ==> s[n] == '/';
    }
  }

  lemma SlashIsNoSpace()
    ensures !IsSpace('/')
  {
  }

  lemma KeyLetters(s: string, j: nat)
    requires FoldsTo(s, j, |s|, "key")
    ensures j + 3 <= |s| && s[j] != '/' && s[j + 1] != '/' && s[j + 2] != '/'
  {
    assert Lower(s[j + 0]) == "key"[0] && Lower(s[j + 1]) == "key"[1] && Lower(s[j + 2]) == "key"[2];
  }

  lemma TextOccurs(s: string, off: nat, pieces: seq<Piece>, tail: string)
    requires Follows(s, off, pieces, tail)
    ensures OccursAt(s, off, if pieces == [] then tail else pieces[0].text)
    ensures pieces == [] ==> off + |tail| == |s|
  {
    hide BuildAttachmentUrl;
    var t := if pieces == [] then tail else pieces[0].text;
    assert s[off..off + |t|] == s[off..][..|t|];
  }

  lemma UrlBegins(s: string, u: nat, key: string)
    requires OccursAt(s, u, BuildAttachmentUrl(key))
    ensures u < |s| && s[u] == '/'
  {
    hide OccursAt;
    assert BuildAttachmentUrl(key)[0] == IMAGE_PATH[0] == '/';
    OccursFits(s, u, BuildAttachmentUrl(key));
    OccursChar(s, u, BuildAttachmentUrl(key), 0);
  }

  lemma {:induction false} PlainIsQuietText(s: string, off: nat, pieces: seq<Piece>, tail: string)
    requires Follows(s, off, pieces, tail) && PlainPieces(pieces, tail)
    ensures QuietText(s, off, pieces)
    decreases pieces
  {
    hide Follows, PlainPieces, PlainText, OccursAt, Quiet, BuildAttachmentUrl, Scannable, EndsKey;
    TextOccurs(s, off, pieces, tail);
    if pieces == [] {
      TailIsPlain(pieces, tail);
      PlainIsQuiet(s, off, tail);
    } else {
      var key, u := pieces[0].key, off + |pieces[0].text|;
      PlainNext(pieces, tail);
      FollowsNext(s, off, pieces, tail);
      UrlBegins(s, u, key);
      PlainIsQuiet(s, off, pieces[0].text);
      PlainIsQuietText(s, u + |BuildAttachmentUrl(key)|, pieces[1..], tail);
    }
  }

  lemma TailIsPlain(pieces: seq<Piece>, tail: string)
    requires PlainPieces(pieces, tail)
    ensures PlainText(tail)
  {
  }

  // ---- text without slashes -----------------------------------------------------------------

  predicate NoDoubleSlash(s: string) {
    forall i :: 0 <= i < |s| - 1 ==> !(s[i] == '/' && s[i + 1] == '/')
  }

  lemma NoDoubleSlashConcat(a: string, b: string)
    requires NoDoubleSlash(a) && NoDoubleSlash(b) && (a == [] || b == [] || a[|a| - 1] != '/' || b[0] != '/')
    ensures NoDoubleSlash(a + b)
  {
  }

  lemma UrlSlashes(key: string)
    requires Scannable(key)
    ensures var url := BuildAttachmentUrl(key); url != [] && NoDoubleSlash(url) && url[|url| - 1] != '/'
  {
    hide Quote, Scannable;
    RawIsScannable(key);
    var raw := Quote(Quote(key));
    assert forall i :: 0 <= i < |raw| ==> raw[i] in raw;
    var front := IMAGE_PATH + IMAGE_QUERY + "key=";
    FrontSlashes();
    assert BuildAttachmentUrl(key) == front + raw;
    NoDoubleSlashConcat(front, raw);
  }

  lemma FrontSlashes()
    ensures NoDoubleSlash(IMAGE_PATH + IMAGE_QUERY + "key=")
  {
    assert NoDoubleSlash(IMAGE_PATH) && IMAGE_PATH[|IMAGE_PATH| - 1] == 'e';
    assert '/' !in IMAGE_QUERY + "key=";
    var behind := IMAGE_QUERY + "key=";
    assert forall i :: 0 <= i < |behind| ==> behind[i] in behind;
    NoDoubleSlashConcat(IMAGE_PATH, behind);
    assert IMAGE_PATH + behind == IMAGE_PATH + IMAGE_QUERY + "key=";
  }

  predicate SlashFree(pieces: seq<Piece>, tail: string) {
    '/' !in tail && forall i :: 0 <= i < |pieces| ==> '/' !in pieces[i].text
  }

  lemma SlashFreeText(t: string)
    requires '/' !in t
    ensures NoDoubleSlash(t) && (t != [] ==> t[|t| - 1] != '/' && t[0] != '/')
  {
    assert forall i :: 0 <= i < |t| ==> t[i] in t;
  }

  lemma {:induction false} DocumentSlashes(pieces: seq<Piece>, tail: string)
    requires SlashFree(pieces, tail) && PlainPieces(pieces, tail)
    ensures NoDoubleSlash(Document(pieces, tail))
    decreases pieces
  {
    hide NoDoubleSlash, BuildAttachmentUrl, Scannable, PlainText, EndsKey;
    if pieces == [] {
      SlashFreeText(tail);
    } else {
      var text, url, rest := pieces[0].text, BuildAttachmentUrl(pieces[0].key), Document(pieces[1..], tail);
      SlashFreeText(text);
      UrlSlashes(pieces[0].key);
      PlainNext(pieces, tail);
      DocumentSlashes(pieces[1..], tail);
      NoDoubleSlashConcat(text, url);
      NoDoubleSlashConcat(text + url, rest);
    }
  }

  lemma NoDoubleSlashNoScheme(s: string)
    requires NoDoubleSlash(s)
    ensures SchemeFree(s)
  {
    hide OccursAt;
    forall i: nat
      ensures !OccursAt(s, i, "https://") && !OccursAt(s, i, "http://")
    {
      if OccursAt(s, i, "https://") {
        OccursChar(s, i, "https://", 6);
        OccursChar(s, i, "https://", 7);
        OccursFits(s, i, "https://");
      }
      if OccursAt(s, i, "http://") {
        OccursChar(s, i, "http://", 5);
        OccursChar(s, i, "http://", 6);
        OccursFits(s, i, "http://");
      }
    }
  }

  /** URLs separated by text without slashes and equals signs, none of which continues a key, give back their keys. */
  lemma PlainDocumentRoundTrip(pieces: seq<Piece>, tail: string)
    requires PlainPieces(pieces, tail) && SlashFree(pieces, tail)
    ensures Extracted(Document(pieces, tail)) == Unique(Keys(pieces))
  {
    hide PlainPieces, SlashFree, Document, Extracted, Keys, Unique, NoDoubleSlash, Separated, QuietText, SchemeFree;
    hide Anchored;
    var s := Document(pieces, tail);
    assert Follows(s, 0, pieces, tail);
    PlainIsSeparated(pieces, tail);
    PlainIsQuietText(s, 0, pieces, tail);
    DocumentSlashes(pieces, tail);
    NoDoubleSlashNoScheme(s);
    SchemeFreeIsAnchored(s, -1, 0, pieces, tail);
    DocumentRoundTrip(pieces, tail);
  }

  // ---- two URLs and schemes -------------------------------------------------------------------

  function TwoUrls(before: string, a: string, between: string, b: string): seq<Piece> {
    [Piece(before, a), Piece(between, b)]
  }

  /** Where everything stands in a document of two URLs, and where its colons can be. */
  ghost predicate Layout(s: string, before: string, u1: nat, e1: nat, between: string, u2: nat) {
    && u1 == |before| && u2 == e1 + |between| && OccursAt(s, 0, before) && OccursAt(s, e1, between)
    && HeadAt(s, u1) && HeadAt(s, u2) && KeyPosition(u1) <= e1
    && (forall i :: u1 <= i < e1 ==> s[i] != ':') && forall i :: u2 <= i < KeyPosition(u2) ==> s[i] != ':'
  }

  lemma LayoutOfTwo(before: string, a: string, between: string, b: string) returns (u1: nat, e1: nat, u2: nat)
    requires Scannable(a) && Scannable(b)
    ensures Layout(Document(TwoUrls(before, a, between, b), ""), before, u1, e1, between, u2)
    ensures Anchored(Document(TwoUrls(before, a, between, b), ""), -1, 0, TwoUrls(before, a, between, b)) <==>
            AnchoredAt(Document(TwoUrls(before, a, between, b), ""), u1, u2)
  {
    hide BuildAttachmentUrl, OccursAt, Document, HeadAt, AnchoredAt, Follows;
    var pieces := TwoUrls(before, a, between, b);
    var s := Document(pieces, "");
    WholeFollows(s, pieces);
    u1 := |before|;
    e1 := u1 + |BuildAttachmentUrl(a)|;
    u2 := e1 + |between|;
    TextOccurs(s, 0, pieces, "");
    FollowsNext(s, 0, pieces, "");
    TextOccurs(s, e1, pieces[1..], "");
    FollowsNext(s, e1, pieces[1..], "");
    HeadOfUrl(s, u1, a);
    HeadOfUrl(s, u2, b);
    UrlIsColonFree(s, u1, a);
    UrlIsColonFree(s, u2, b);
    FirstIsAnchored(s, u1);
    assert pieces[1..][1..] == [];
    assert Anchored(s, -1, 0, pieces) <==> AnchoredAt(s, -1, u1) && Anchored(s, u1, e1, pieces[1..]);
    assert Anchored(s, u1, e1, pieces[1..]) <==>
           AnchoredAt(s, u1, u2) && Anchored(s, u2, u2 + |BuildAttachmentUrl(b)|, []);
  }

  lemma LayoutBounds(s: string, before: string, u1: nat, e1: nat, between: string, u2: nat)
    requires Layout(s, before, u1, e1, between, u2)
    ensures u1 < e1 && KeyPosition(u2) <= |s|
  {
  }

  lemma WholeFollows(s: string, pieces: seq<Piece>)
    requires s == Document(pieces, "")
    ensures Follows(s, 0, pieces, "")
  {
  }

  lemma FirstIsAnchored(s: string, u: nat)
    requires HeadAt(s, u)
    ensures AnchoredAt(s, -1, u)
  {
  }

  lemma KeysOfTwo(before: string, a: string, between: string, b: string)
    ensures Keys(TwoUrls(before, a, between, b)) == [a, b]
  {
    var last := [Piece(between, b)];
    assert TwoUrls(before, a, between, b)[1..] == last && last[1..] == [];
    assert Keys(last) == [b] + Keys([]);
  }

  lemma PlainTwo(before: string, a: string, between: string, b: string)
    requires PlainText(before) && PlainText(between) && EndsKey(between) && Scannable(a) && Scannable(b)
    ensures
      var pieces := TwoUrls(before, a, between, b);
      Separated(pieces, "") && QuietText(Document(pieces, ""), 0, pieces) && Keys(pieces) == [a, b]
  {
    hide PlainText, Scannable, Document, Separated, QuietText, EndsKey, Keys;
    var pieces := TwoUrls(before, a, between, b);
    assert PlainText("") by {
      NothingIsPlain();
    }
    PlainIsSeparated(pieces, "");
    WholeFollows(Document(pieces, ""), pieces);
    PlainIsQuietText(Document(pieces, ""), 0, pieces, "");
    KeysOfTwo(before, a, between, b);
  }

  lemma NothingIsPlain()
    ensures PlainText("")
  {
  }

  const HTTP: string := "http://h"
  const HTTPS: string := "https://h"

  lemma HostsArePlain()
    ensures PlainText(HTTP) && PlainText(HTTPS) && PlainText(" ") && PlainText(" " + HTTP)
    ensures EndsKey(" ") && EndsKey(" " + HTTP)
  {
    assert (" " + HTTP)[0] == ' ';
  }

  /** The scheme marker in front of the second URL is the one at the very start. */
  lemma OneScheme(s: string, u1: nat, e1: nat, u2: nat)
    requires Layout(s, HTTP, u1, e1, " ", u2)
    ensures UrlStart(s, KeyPosition(u2)) == 0
  {
    hide OccursAt, LastBefore, HeadAt;
    var k := KeyPosition(u2);
    OccursChar(s, e1, " ", 0);
    OnlyColon(HTTP, 4);
    ColonsAt(s, 0, HTTP);
    assert HTTP == "http://" + "h";
    OccursSplit(s, 0, "http://", "h");
    LayoutBounds(s, HTTP, u1, e1, " ", u2);
    NoMarkerBut(s, k, 4, 4);
  }

  lemma OnlyColon(t: string, c: nat)
    requires (t == HTTP && c == 4) || (t == HTTPS && c == 5)
    ensures c < |t| && forall i :: 0 <= i < |t| ==> (t[i] == ':' <==> i == c)
  {
  }

  lemma ColonsAt(s: string, off: nat, t: string)
    requires OccursAt(s, off, t)
    ensures off + |t| <= |s| && forall i :: off <= i < off + |t| ==> s[i] == t[i - off]
  {
    hide OccursAt;
    OccursFits(s, off, t);
    forall i | off <= i < off + |t|
      ensures s[i] == t[i - off]
    {
      OccursChar(s, off, t, i - off);
    }
  }

  /** Every marker in front of `k` has its colon at one of two places. */
  lemma NoMarkerBut(s: string, k: nat, c: nat, d: nat)
    requires k <= |s| && forall i :: 0 <= i < k && s[i] == ':' ==> i == c || i == d
    ensures forall v: nat :: v + 8 <= k && OccursAt(s, v, "https://") ==> v + 5 == c || v + 5 == d
    ensures forall v: nat :: v + 7 <= k && OccursAt(s, v, "http://") ==> v + 4 == c || v + 4 == d
  {
    hide OccursAt;
    forall v: nat | v + 8 <= k && OccursAt(s, v, "https://")
      ensures v + 5 == c || v + 5 == d
    {
      OccursChar(s, v, "https://", 5);
    }
    forall v: nat | v + 7 <= k && OccursAt(s, v, "http://")
      ensures v + 4 == c || v + 4 == d
    {
      OccursChar(s, v, "http://", 4);
    }
  }

  /** A scheme in front of the first of two URLs, and none between them: the slug of the second shows. */
  lemma OneSchemeLeaks(a: string, b: string)
    requires Scannable(a) && Scannable(b)
    ensures
      var pieces := TwoUrls(HTTP, a, " ", b);
      && Separated(pieces, "") && QuietText(Document(pieces, ""), 0, pieces)
      && !Anchored(Document(pieces, ""), -1, 0, pieces) && "image" in Extracted(Document(pieces, ""))
  {
    hide PlainText, Scannable, Document, Separated, QuietText, EndsKey, Layout, Extracted, Anchored, HTTP, UrlStart;
    hide TwoUrls;
    HostsArePlain();
    PlainTwo(HTTP, a, " ", b);
    var u1, e1, u2 := LayoutOfTwo(HTTP, a, " ", b);
    OneScheme(Document(TwoUrls(HTTP, a, " ", b), ""), u1, e1, u2);
    LooseLeaks(TwoUrls(HTTP, a, " ", b), "");
  }

  lemma LooseLeaks(pieces: seq<Piece>, tail: string)
    requires Separated(pieces, tail) && QuietText(Document(pieces, tail), 0, pieces)
    ensures !Anchored(Document(pieces, tail), -1, 0, pieces) ==> "image" in Extracted(Document(pieces, tail))
  {
    hide Separated, QuietText, Anchored, Extracted, Unique, Document, Shown;
    var s := Document(pieces, tail);
    DocumentShows(pieces, tail);
    if !Anchored(s, -1, 0, pieces) {
      LooseShowsImage(s, -1, 0, pieces);
      UniqueIsSet(Shown(s, -1, 0, pieces));
    }
  }

  lemma TwoSchemes(s: string, u1: nat, e1: nat, u2: nat)
    requires Layout(s, HTTP, u1, e1, " " + HTTP, u2)
    ensures UrlStart(s, KeyPosition(u2)) == e1 + 1
  {
    hide OccursAt, LastBefore, HeadAt;
    var k := KeyPosition(u2);
    OnlyColon(HTTP, 4);
    ColonsAt(s, 0, HTTP);
    ColonsAt(s, e1, " " + HTTP);
    OccursSplit(s, e1, " ", HTTP);
    assert HTTP == "http://" + "h";
    OccursSplit(s, e1 + 1, "http://", "h");
    LayoutBounds(s, HTTP, u1, e1, " " + HTTP, u2);
    NoMarkerBut(s, k, 4, e1 + 5);
    NotSecure(s, e1);
  }

  lemma NotSecure(s: string, e: nat)
    requires e < |s| && s[e] == ' '
    ensures !OccursAt(s, e, "https://")
  {
    hide OccursAt;
    if OccursAt(s, e, "https://") {
      OccursChar(s, e, "https://", 0);
    }
  }

  lemma SecureThenPlain(s: string, u1: nat, e1: nat, u2: nat)
    requires Layout(s, HTTPS, u1, e1, " " + HTTP, u2)
    ensures UrlStart(s, KeyPosition(u2)) == 0
  {
    hide OccursAt, LastBefore, HeadAt;
    var k := KeyPosition(u2);
    OnlyColon(HTTP, 4);
    OnlyColon(HTTPS, 5);
    ColonsAt(s, 0, HTTPS);
    ColonsAt(s, e1, " " + HTTP);
    assert HTTPS == "https://" + "h";
    OccursSplit(s, 0, "https://", "h");
    LayoutBounds(s, HTTPS, u1, e1, " " + HTTP, u2);
    NoMarkerBut(s, k, 5, e1 + 5);
    NotSecure(s, e1);
  }

  /** A plain scheme in front of each URL anchors both. */
  lemma SchemeEachAnchors(a: string, b: string)
    requires Scannable(a) && Scannable(b)
    ensures Extracted(Document(TwoUrls(HTTP, a, " " + HTTP, b), "")) == Unique([a, b])
  {
    hide PlainText, Scannable, Document, Separated, QuietText, EndsKey, Layout, Extracted, Anchored, HTTP, UrlStart;
    hide TwoUrls, Unique;
    HostsArePlain();
    PlainTwo(HTTP, a, " " + HTTP, b);
    var u1, e1, u2 := LayoutOfTwo(HTTP, a, " " + HTTP, b);
    LayoutBounds(Document(TwoUrls(HTTP, a, " " + HTTP, b), ""), HTTP, u1, e1, " " + HTTP, u2);
    TwoSchemes(Document(TwoUrls(HTTP, a, " " + HTTP, b), ""), u1, e1, u2);
    DocumentRoundTrip(TwoUrls(HTTP, a, " " + HTTP, b), "");
  }

  /** After a secure scheme a plain one between the URLs does not help: the marker `https://` is looked for first. */
  lemma SecureSchemeLeaks(a: string, b: string)
    requires Scannable(a) && Scannable(b)
    ensures "image" in Extracted(Document(TwoUrls(HTTPS, a, " " + HTTP, b), ""))
  {
    hide PlainText, Scannable, Document, Separated, QuietText, EndsKey, Layout, Extracted, Anchored, HTTP, UrlStart;
    hide TwoUrls, HTTPS;
    HostsArePlain();
    PlainTwo(HTTPS, a, " " + HTTP, b);
    var u1, e1, u2 := LayoutOfTwo(HTTPS, a, " " + HTTP, b);
    SecureThenPlain(Document(TwoUrls(HTTPS, a, " " + HTTP, b), ""), u1, e1, u2);
    LooseLeaks(TwoUrls(HTTPS, a, " " + HTTP, b), "");
  }
}
