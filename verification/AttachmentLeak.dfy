/** What extraction gives for a document of built image URLs: its keys, and the path slug `image` for every URL that is
    taken to start too early.  That happens where the last `https://` in front of its key, or without one the last
    `http://`, stands at or before the start of the URL before. */
module AttachmentLeak {
  import opened Wrappers
  import opened PercentEncoding
  import opened PythonText
  import opened AttachmentScanner
  import opened AttachmentUrls
  import opened AttachmentRoundTrip

  /** A later key that looks past this URL's key looks at least as far back as this URL does. */
  lemma UrlStartOfLater(s: string, k: nat, k': nat)
    requires k <= k' <= |s| && UrlStart(s, k') + 8 <= k
    ensures UrlStart(s, k') <= UrlStart(s, k)
  {
    hide LastBefore, OccursAt;
    assert |"https://"| == 8 && |"http://"| == 7 && |"/api/"| == 5;
  }

  lemma {:induction false} SearchLeftmost(s: string, lo: nat, j: nat, hi: nat)
    requires lo <= j <= hi <= |s| && MatchAt(s, j, hi).Some?
    ensures Search(s, lo, hi).Some? && Search(s, lo, hi).value.start <= j
    decreases j - lo
  {
    hide MatchAt;
    if lo < j && MatchAt(s, lo, hi).None? {
      SearchLeftmost(s, lo + 1, j, hi);
    }
  }

  ghost predicate HeadAt(s: string, u: nat) {
    UrlHead(s, u) && s[u + |IMAGE_PATH|] == '?'
  }

  /** If the URL at `u` is taken to start at or before the URL at `prev`, no key at all supersedes its slug. */
  lemma KeyMissesSlug(s: string, prev: nat, u: nat, m: Match)
    requires HeadAt(s, prev) && UrlHead(s, u) && KeyPosition(prev) <= u && UrlStart(s, KeyPosition(u)) <= prev
    requires m.start <= |s| && (m.start <= u || KeyPosition(u) <= m.start)
    ensures SupersededBy(s, m) != Some(u)
  {
    hide MatchAt, UrlStart, OccursAt, Search;
    var k, start := m.start, UrlStart(s, m.start);
    if KeyPosition(u) <= k && start <= u {
      UrlStartOfLater(s, KeyPosition(u), k);
      ImageSlug(s, prev, k);
      SearchLeftmost(s, start, prev, k);
    }
  }

  lemma HeadOfUrl(s: string, u: nat, key: string)
    requires OccursAt(s, u, BuildAttachmentUrl(key))
    ensures HeadAt(s, u) && KeyPosition(u) <= u + |BuildAttachmentUrl(key)| <= |s|
  {
    hide OccursAt, Quote, BuildAttachmentUrl, Inert;
    UrlParts(s, u, key);
  }

  lemma HeadIsUrlHead(s: string, u: nat)
    requires HeadAt(s, u)
    ensures UrlHead(s, u)
  {
  }

  // ---- slugs that no key supersedes ---------------------------------------------------------

  /** No key reference among `ms` begins between the start of the URL at `u` and its key. */
  ghost predicate KeysAvoid(ms: seq<Match>, u: nat) {
    forall m :: m in ms && m.KeyRef? ==> m.start <= u || KeyPosition(u) <= m.start
  }

  lemma {:induction false} NeverSuperseded(s: string, prev: nat, u: nat, ms: seq<Match>)
    requires HeadAt(s, prev) && UrlHead(s, u) && KeyPosition(prev) <= u && UrlStart(s, KeyPosition(u)) <= prev
    requires AllWithin(ms, |s|) && KeysAvoid(ms, u)
    ensures u !in Superseded(s, ms)
    decreases ms
  {
    hide HeadAt, UrlHead, UrlStart, SupersededBy;
    if ms != [] {
      assert ms[0] in ms && forall m :: m in ms[1..] ==> m in ms;
      if ms[0].KeyRef? {
        KeyMissesSlug(s, prev, u, ms[0]);
      }
      NeverSuperseded(s, prev, u, ms[1..]);
    }
  }

  /** Every key reference of the pieces belongs to one of their URLs. */
  lemma {:induction false} ExpectedKeys(s: string, off: nat, pieces: seq<Piece>, tail: string, u: nat)
    requires Follows(s, off, pieces, tail) && (u in SlugStarts(off, pieces) || KeyPosition(u) <= off)
    ensures KeysAvoid(Expected(s, off, pieces), u) && AllWithin(Expected(s, off, pieces), |s|)
    ensures forall m :: m in Expected(s, off, pieces) ==> off <= m.start
    decreases pieces
  {
    hide BuildAttachmentUrl, OccursAt, Document, Follows, KeysAvoid, HeadAt, Quote, AllWithin;
    if pieces == [] {
      NothingAvoids(u, |s|);
    } else {
      FollowsNext(s, off, pieces, tail);
      var key, v := pieces[0].key, off + |pieces[0].text|;
      HeadOfUrl(s, v, key);
      var e := v + |BuildAttachmentUrl(key)|;
      SlugStartsFrom(e, pieces[1..]);
      ExpectedKeys(s, e, pieces[1..], tail, u);
      PairAvoids(SlugOf(v), KeyRefOf(s, v, key), Expected(s, e, pieces[1..]), u, |s|);
    }
  }

  lemma NothingAvoids(u: nat, n: nat)
    ensures KeysAvoid([], u) && AllWithin([], n)
  {
  }

  lemma PairAvoids(slug: Match, key: Match, rest: seq<Match>, u: nat, n: nat)
    requires KeysAvoid(rest, u) && AllWithin(rest, n)
    requires slug.Slug? && (key.start <= u || KeyPosition(u) <= key.start) && slug.start <= n && key.start <= n
    ensures KeysAvoid([slug, key] + rest, u) && AllWithin([slug, key] + rest, n)
  {
  }

  lemma {:induction false} SlugStartsFrom(off: nat, pieces: seq<Piece>)
    ensures forall v :: v in SlugStarts(off, pieces) ==> off <= v
    decreases pieces
  {
    if pieces != [] {
      SlugStartsFrom(off + |pieces[0].text| + |BuildAttachmentUrl(pieces[0].key)|, pieces[1..]);
    }
  }

  // ---- exactly the anchored slugs are superseded ---------------------------------------------

  /** Of the URLs of the pieces, those anchored are in the set, and no others. */
  predicate MarksAnchored(s: string, prev: int, off: nat, pieces: seq<Piece>, superseded: set<nat>)
    decreases pieces
  {
    pieces == [] ||
    (var u := off + |pieces[0].text|;
     (u in superseded <==> AnchoredAt(s, prev, u)) &&
     MarksAnchored(s, u, u + |BuildAttachmentUrl(pieces[0].key)|, pieces[1..], superseded))
  }

  /** The start of a URL is not superseded by the keys of later pieces, if it is not anchored, and by its own key, if it
      is.  `all` are the matches of the whole document. */
  lemma {:induction false} MarkedExactly(s: string, prev: int, off: nat, pieces: seq<Piece>, tail: string,
                                         all: seq<Match>)
    requires Follows(s, off, pieces, tail) && QuietText(s, off, pieces) && ColonFree(s, prev, off) && prev >= -1
    requires forall p :: p in pieces ==> IsBytes(p.key)
    requires prev >= 0 ==> HeadAt(s, prev) && KeyPosition(prev) <= off
    requires AllWithin(all, |s|) && forall u :: u in SlugStarts(off, pieces) ==> KeysAvoid(all, u)
    requires forall m :: m in Expected(s, off, pieces) ==> m in all
    ensures MarksAnchored(s, prev, off, pieces, Superseded(s, all))
    decreases pieces
  {
    hide BuildAttachmentUrl, OccursAt, Document, SupersededBy, Superseded, Quote, AnchoredAt, Quiet, ColonFree;
    hide HeadAt, UrlHead, KeysAvoid, Follows, KeyRefOf;
    if pieces != [] {
      FollowsNext(s, off, pieces, tail);
      var key, u := pieces[0].key, off + |pieces[0].text|;
      var e := u + |BuildAttachmentUrl(key)|;
      assert pieces[0] in pieces;
      UrlIsColonFree(s, u, key);
      HeadOfUrl(s, u, key);
      assert KeyRefOf(s, u, key) == Expected(s, off, pieces)[1];
      MarkedFirst(s, prev, off, u, key, all);
      MarkedExactly(s, u, e, pieces[1..], tail, all);
    }
  }

  lemma MarkedFirst(s: string, prev: int, off: nat, u: nat, key: string, all: seq<Match>)
    requires OccursAt(s, u, BuildAttachmentUrl(key)) && off <= u && Quiet(s, off, u, |s|) && ColonFree(s, prev, off)
    requires prev >= -1 && (prev >= 0 ==> HeadAt(s, prev) && KeyPosition(prev) <= off)
    requires AllWithin(all, |s|) && KeysAvoid(all, u) && KeyRefOf(s, u, key) in all
    ensures u in Superseded(s, all) <==> AnchoredAt(s, prev, u)
  {
    hide BuildAttachmentUrl, OccursAt, SupersededBy, Superseded, Quote, UrlStart, Quiet, ColonFree;
    hide HeadAt, UrlHead, KeysAvoid;
    HeadOfUrl(s, u, key);
    HeadIsUrlHead(s, u);
    if AnchoredAt(s, prev, u) {
      KeySupersedes(s, prev, off, u, key);
      SupersededByOne(s, all, KeyRefOf(s, u, key));
    } else {
      NeverSuperseded(s, prev, u, all);
    }
  }

  lemma {:induction false} SupersededByOne(s: string, ms: seq<Match>, m: Match)
    requires AllWithin(ms, |s|) && m in ms && m.KeyRef?
    ensures m.start <= |s| && (SupersededBy(s, m).Some? ==> SupersededBy(s, m).value in Superseded(s, ms))
    decreases ms
  {
    hide SupersededBy;
    if ms[0] != m {
      SupersededByOne(s, ms[1..], m);
    }
  }

  // ---- the values of a document -----------------------------------------------------------------

  /** The keys, with the slug in front of each whose URL is not anchored. */
  function Shown(s: string, prev: int, off: nat, pieces: seq<Piece>): seq<string>
    decreases pieces
  {
    if pieces == [] then []
    else
      var u := off + |pieces[0].text|;
      (if AnchoredAt(s, prev, u) then [] else ["image"]) + [pieces[0].key] +
      Shown(s, u, u + |BuildAttachmentUrl(pieces[0].key)|, pieces[1..])
  }

  lemma ValuesPair(slug: Match, key: Match, rest: seq<Match>, superseded: set<nat>)
    requires slug.Slug? && key.KeyRef?
    ensures Values([slug, key] + rest, superseded) ==
            (if slug.start in superseded then [] else [slug.text]) + [Unquote(Unquote(key.text))] +
            Values(rest, superseded)
  {
    hide Unquote;
    var ms := [slug, key] + rest;
    assert ms[1..] == [key] + rest && ms[1..][1..] == rest;
  }

  lemma ValuesOfNone(superseded: set<nat>)
    ensures Values([], superseded) == []
  {
  }

  lemma {:induction false} ValuesOfDocument(s: string, prev: int, off: nat, pieces: seq<Piece>, superseded: set<nat>)
    requires (forall p :: p in pieces ==> IsBytes(p.key)) && MarksAnchored(s, prev, off, pieces, superseded)
    ensures Values(Expected(s, off, pieces), superseded) == Shown(s, prev, off, pieces)
    decreases pieces
  {
    hide BuildAttachmentUrl, Quote, Unquote, Values, AnchoredAt;
    if pieces == [] {
      ValuesOfNone(superseded);
    } else {
      var key, u := pieces[0].key, off + |pieces[0].text|;
      var e := u + |BuildAttachmentUrl(key)|;
      ValuesOfDocument(s, u, e, pieces[1..], superseded);
      assert pieces[0] in pieces;
      DoubleRoundTrip(key);
      ValuesPair(SlugOf(u), KeyRefOf(s, u, key), Expected(s, e, pieces[1..]), superseded);
    }
  }

  /** Extracting from a document of built image URLs and text in which no reference begins gives exactly its keys, and
      `image` in front of each whose URL is not anchored; of equal values only the first. */
  lemma DocumentShows(pieces: seq<Piece>, tail: string)
    requires Separated(pieces, tail) && QuietText(Document(pieces, tail), 0, pieces)
    ensures Extracted(Document(pieces, tail)) == Unique(Shown(Document(pieces, tail), -1, 0, pieces))
  {
    hide Separated, QuietText, Values, Superseded, Expected, Unique, FindAll, KeysAvoid, AllWithin, SlugStarts;
    hide MarksAnchored, Shown, Document;
    var s := Document(pieces, tail);
    assert Follows(s, 0, pieces, tail);
    MatchesOfDocument(s, 0, pieces, tail);
    SeparatedIsBytes(pieces, tail);
    FindAllWithin(s, 0);
    var all := Expected(s, 0, pieces);
    forall u | u in SlugStarts(0, pieces)
      ensures KeysAvoid(all, u)
    {
      ExpectedKeys(s, 0, pieces, tail, u);
    }
    NothingBefore(s);
    MarkedExactly(s, -1, 0, pieces, tail, all);
    ValuesOfDocument(s, -1, 0, pieces, Superseded(s, all));
  }

  lemma NothingBefore(s: string)
    ensures ColonFree(s, -1, 0)
  {
  }

  // ---- anchored documents --------------------------------------------------------------------------

  lemma {:induction false} AnchoredShowsKeys(s: string, prev: int, off: nat, pieces: seq<Piece>)
    requires Anchored(s, prev, off, pieces)
    ensures Shown(s, prev, off, pieces) == Keys(pieces)
    decreases pieces
  {
    hide BuildAttachmentUrl, AnchoredAt;
    if pieces != [] {
      AnchoredShowsKeys(s, off + |pieces[0].text|, off + |pieces[0].text| + |BuildAttachmentUrl(pieces[0].key)|,
                        pieces[1..]);
    }
  }

  /** If every URL is anchored, the result is exactly the keys, each once, in the order of their first appearance; the
      path slugs never show. */
  lemma DocumentRoundTrip(pieces: seq<Piece>, tail: string)
    requires Separated(pieces, tail)
    requires QuietText(Document(pieces, tail), 0, pieces) && Anchored(Document(pieces, tail), -1, 0, pieces)
    ensures Extracted(Document(pieces, tail)) == Unique(Keys(pieces))
  {
    hide Separated, QuietText, Anchored, Unique, Keys, Extracted, Document, Shown;
    DocumentShows(pieces, tail);
    AnchoredShowsKeys(Document(pieces, tail), -1, 0, pieces);
  }

  // ---- first occurrences ------------------------------------------------------------------------------

  lemma {:induction false} UniquePrefix(xs: seq<string>, ys: seq<string>)
    ensures Unique(xs) <= Unique(xs + ys)
    decreases ys
  {
    hide Unique;
    if ys == [] {
      assert xs + ys == xs;
    } else {
      var n := |ys| - 1;
      UniquePrefix(xs, ys[..n]);
      assert xs + ys == xs + ys[..n] + [ys[n]];
      UniqueStep(xs + ys[..n], ys[n]);
    }
  }

  /** A value that came before adds nothing, wherever it stands. */
  lemma {:induction false} UniqueSkips(xs: seq<string>, x: string, ys: seq<string>)
    requires x in xs
    ensures Unique(xs + [x] + ys) == Unique(xs + ys)
    decreases ys
  {
    hide Unique;
    UniqueIsSet(xs);
    if ys == [] {
      assert xs + [x] + ys == xs + [x] && xs + ys == xs;
      UniqueStep(xs, x);
    } else {
      var n := |ys| - 1;
      UniqueSkips(xs, x, ys[..n]);
      assert xs + ys == xs + ys[..n] + [ys[n]] && xs + [x] + ys == xs + [x] + ys[..n] + [ys[n]];
      UniqueStep(xs + ys[..n], ys[n]);
      UniqueStep(xs + [x] + ys[..n], ys[n]);
    }
  }

  lemma {:induction false} UniqueSkipsAll(xs: seq<string>, seen: seq<string>, ys: seq<string>)
    requires forall x :: x in seen ==> x in xs
    ensures Unique(xs + seen + ys) == Unique(xs + ys)
    decreases seen
  {
    hide Unique;
    if seen == [] {
      assert xs + seen + ys == xs + ys;
    } else {
      assert xs + seen + ys == xs + [seen[0]] + (seen[1..] + ys);
      UniqueSkips(xs, seen[0], seen[1..] + ys);
      assert xs + (seen[1..] + ys) == xs + seen[1..] + ys;
      UniqueSkipsAll(xs, seen[1..], ys);
    }
  }

  /** Behind `xs` the first new value of `ys` is `x`. */
  ghost predicate NextNew(xs: seq<string>, ys: seq<string>, x: string) {
    exists q :: 0 <= q < |ys| && ys[q] == x && forall j :: 0 <= j < q ==> ys[j] in xs
  }

  /** The first value that `ys` adds to `xs`, if any, is its first new one. */
  lemma {:induction false} FirstAdded(xs: seq<string>, ys: seq<string>)
    requires |Unique(xs + ys)| > |Unique(xs)|
    ensures NextNew(xs, ys, Unique(xs + ys)[|Unique(xs)|])
    decreases ys
  {
    hide Unique;
    assert ys == [] ==> xs + ys == xs;
    if ys != [] {
      UniqueIsSet(xs);
      UniqueStep(xs, ys[0]);
      assert xs + ys == xs + [ys[0]] + ys[1..];
      if ys[0] in xs {
        UniqueSkips(xs, ys[0], ys[1..]);
        FirstAdded(xs, ys[1..]);
        var x := Unique(xs + ys)[|Unique(xs)|];
        var q :| 0 <= q < |ys[1..]| && ys[1..][q] == x && forall j :: 0 <= j < q ==> ys[1..][j] in xs;
        assert ys[q + 1] == x && forall j :: 0 <= j < q + 1 ==> ys[j] in xs;
      } else {
        UniquePrefix(xs + [ys[0]], ys[1..]);
        assert ys[0] == Unique(xs + ys)[|Unique(xs)|];
      }
    }
  }

  /** Putting `x` between `xs` and `ys` makes no difference exactly if it came before, or comes next anyway. */
  lemma InsertedIff(xs: seq<string>, x: string, ys: seq<string>)
    ensures Unique(xs + [x] + ys) == Unique(xs + ys) <==> x in xs || NextNew(xs, ys, x)
  {
    hide Unique;
    UniqueIsSet(xs);
    UniqueStep(xs, x);
    UniquePrefix(xs + [x], ys);
    if x in xs {
      UniqueSkips(xs, x, ys);
    } else if NextNew(xs, ys, x) {
      var q :| 0 <= q < |ys| && ys[q] == x && forall j :: 0 <= j < q ==> ys[j] in xs;
      NextIsSame(xs, x, ys, q);
    } else if Unique(xs + [x] + ys) == Unique(xs + ys) {
      FirstAdded(xs, ys);
    }
  }

  lemma NextIsSame(xs: seq<string>, x: string, ys: seq<string>, q: nat)
    requires q < |ys| && ys[q] == x && forall j :: 0 <= j < q ==> ys[j] in xs
    ensures Unique(xs + [x] + ys) == Unique(xs + ys)
  {
    hide Unique;
    var seen, rest := ys[..q], ys[q + 1..];
    assert ys == seen + [x] + rest;
    assert xs + ys == xs + seen + ([x] + rest) && xs + [x] + ys == (xs + [x]) + (seen + [x]) + rest;
    UniqueSkipsAll(xs, seen, [x] + rest);
    UniqueSkipsAll(xs + [x], seen + [x], rest);
    assert xs + ([x] + rest) == xs + [x] + rest;
  }

  // ---- when the leak does not show ------------------------------------------------------------------------

  /** Number of pieces in front of the first URL that is not anchored. */
  function Firm(s: string, prev: int, off: nat, pieces: seq<Piece>): (n: nat)
    ensures n <= |pieces|
    decreases pieces
  {
    if pieces == [] || !AnchoredAt(s, prev, off + |pieces[0].text|) then 0
    else
      var u := off + |pieces[0].text|;
      1 + Firm(s, u, u + |BuildAttachmentUrl(pieces[0].key)|, pieces[1..])
  }

  lemma {:induction false} FirmIff(s: string, prev: int, off: nat, pieces: seq<Piece>)
    ensures Firm(s, prev, off, pieces) == |pieces| <==> Anchored(s, prev, off, pieces)
    decreases pieces
  {
    hide AnchoredAt, BuildAttachmentUrl;
    if pieces != [] {
      var u := off + |pieces[0].text|;
      FirmIff(s, u, u + |BuildAttachmentUrl(pieces[0].key)|, pieces[1..]);
    }
  }

  lemma {:induction false} KeysLength(pieces: seq<Piece>)
    ensures |Keys(pieces)| == |pieces|
  {
    if pieces != [] {
      KeysLength(pieces[1..]);
    }
  }

  lemma ShownStep(s: string, prev: int, off: nat, pieces: seq<Piece>)
    requires pieces != []
    ensures
      var key, u := pieces[0].key, off + |pieces[0].text|;
      && Shown(s, prev, off, pieces) == (if AnchoredAt(s, prev, u) then [] else ["image"]) + [key] +
                                        Shown(s, u, u + |BuildAttachmentUrl(key)|, pieces[1..])
      && Keys(pieces) == [key] + Keys(pieces[1..])
  {
    hide BuildAttachmentUrl, AnchoredAt;
  }

  lemma ShownMore(s: string, prev: int, off: nat, pieces: seq<Piece>, seen: seq<string>)
    requires pieces != []
    ensures
      var key, u := pieces[0].key, off + |pieces[0].text|;
      var shown := seen + (if AnchoredAt(s, prev, u) then [] else ["image"]) + [key];
      && seen + Shown(s, prev, off, pieces) == shown + Shown(s, u, u + |BuildAttachmentUrl(key)|, pieces[1..])
      && seen + Keys(pieces) == seen + [key] + Keys(pieces[1..])
  {
    hide BuildAttachmentUrl, AnchoredAt, Shown, Keys;
    ShownStep(s, prev, off, pieces);
    var key, u := pieces[0].key, off + |pieces[0].text|;
    var slug := if AnchoredAt(s, prev, u) then [] else ["image"];
    var rest := Shown(s, u, u + |BuildAttachmentUrl(key)|, pieces[1..]);
    assert seen + (slug + [key] + rest) == seen + slug + [key] + rest;
    assert seen + ([key] + Keys(pieces[1..])) == seen + [key] + Keys(pieces[1..]);
  }

  /** Once `image` has been seen, further slugs make no difference. */
  lemma {:induction false} LaterSlugs(s: string, prev: int, off: nat, pieces: seq<Piece>, seen: seq<string>)
    requires "image" in seen
    ensures Unique(seen + Shown(s, prev, off, pieces)) == Unique(seen + Keys(pieces))
    decreases pieces
  {
    hide Unique, BuildAttachmentUrl, AnchoredAt, Shown, Keys;
    if pieces == [] {
      NothingShown(s, prev, off);
    } else {
      var key, u := pieces[0].key, off + |pieces[0].text|;
      var rest := Shown(s, u, u + |BuildAttachmentUrl(key)|, pieces[1..]);
      ShownMore(s, prev, off, pieces, seen);
      LaterSlugs(s, u, u + |BuildAttachmentUrl(key)|, pieces[1..], seen + [key]);
      if AnchoredAt(s, prev, u) {
        assert seen + [] + [key] == seen + [key];
      } else {
        UniqueSkips(seen, "image", [key] + rest);
        assert seen + ["image"] + ([key] + rest) == seen + ["image"] + [key] + rest;
        assert seen + ([key] + rest) == seen + [key] + rest;
      }
    }
  }

  lemma NothingShown(s: string, prev: int, off: nat)
    ensures Shown(s, prev, off, []) == [] && Keys([]) == []
  {
  }

  lemma FirmMore(s: string, prev: int, off: nat, pieces: seq<Piece>)
    requires pieces != []
    ensures
      var key, u, keys := pieces[0].key, off + |pieces[0].text|, Keys(pieces);
      var n, later := Firm(s, u, u + |BuildAttachmentUrl(key)|, pieces[1..]), Keys(pieces[1..]);
      && keys == [key] + later
      && Firm(s, prev, off, pieces) == if AnchoredAt(s, prev, u) then n + 1 else 0
  {
    hide BuildAttachmentUrl, AnchoredAt;
  }

  /** What is shown differs from the keys by one slug in front of the first loose URL, apart from repetitions. */
  lemma {:induction false} FirstSlug(s: string, prev: int, off: nat, pieces: seq<Piece>, seen: seq<string>)
    requires Firm(s, prev, off, pieces) < |pieces|
    ensures
      var n, keys := Firm(s, prev, off, pieces), Keys(pieces);
      n < |keys| == |pieces| &&
      Unique(seen + Shown(s, prev, off, pieces)) == Unique(seen + keys[..n] + ["image"] + keys[n..])
    decreases pieces
  {
    hide Unique, BuildAttachmentUrl, AnchoredAt, Shown, Keys, Firm;
    KeysLength(pieces);
    var key, u, keys := pieces[0].key, off + |pieces[0].text|, Keys(pieces);
    var e := u + |BuildAttachmentUrl(key)|;
    FirmMore(s, prev, off, pieces);
    ShownMore(s, prev, off, pieces, seen);
    if AnchoredAt(s, prev, u) {
      FirstSlug(s, u, e, pieces[1..], seen + [key]);
      assert seen + [] + [key] == seen + [key];
      KeyInFront(seen, key, Keys(pieces[1..]), Firm(s, u, e, pieces[1..]));
    } else {
      LaterSlugs(s, u, e, pieces[1..], seen + ["image"] + [key]);
      assert seen + ["image"] + [key] + Keys(pieces[1..]) == seen + keys[..0] + ["image"] + keys[0..];
    }
  }

  lemma KeyInFront(seen: seq<string>, key: string, later: seq<string>, m: nat)
    requires m <= |later|
    ensures
      var keys := [key] + later;
      seen + [key] + later[..m] + ["image"] + later[m..] == seen + keys[..m + 1] + ["image"] + keys[m + 1..]
  {
    var keys := [key] + later;
    assert keys[..m + 1] == [key] + later[..m] && keys[m + 1..] == later[m..];
  }

  /** For every document: the result is exactly the keys if and only if every URL is anchored, or the slug of the first
      that is not stands where the key `image` has been or is the next new key anyway. */
  lemma DocumentRoundTripIff(pieces: seq<Piece>, tail: string)
    requires Separated(pieces, tail) && QuietText(Document(pieces, tail), 0, pieces)
    ensures
      var keys, n := Keys(pieces), Firm(Document(pieces, tail), -1, 0, pieces);
      n <= |keys| &&
      (Extracted(Document(pieces, tail)) == Unique(keys) <==>
       n == |keys| || "image" in keys[..n] || NextNew(keys[..n], keys[n..], "image"))
  {
    hide Separated, QuietText, Anchored, Extracted, Unique, Keys, Document, Shown, NextNew, Firm;
    var s, keys := Document(pieces, tail), Keys(pieces);
    var n := Firm(s, -1, 0, pieces);
    FirmIff(s, -1, 0, pieces);
    KeysLength(pieces);
    DocumentShows(pieces, tail);
    if n == |pieces| {
      AnchoredShowsKeys(s, -1, 0, pieces);
    } else {
      FirstSlug(s, -1, 0, pieces, []);
      assert [] + Shown(s, -1, 0, pieces) == Shown(s, -1, 0, pieces) && [] + keys[..n] == keys[..n];
      InsertedIff(keys[..n], "image", keys[n..]);
      assert keys[..n] + keys[n..] == keys;
    }
  }

  /** Without a key `image` the result is exactly the keys if and only if every URL is anchored. */
  lemma LeaksIff(pieces: seq<Piece>, tail: string)
    requires Separated(pieces, tail) && QuietText(Document(pieces, tail), 0, pieces) && "image" !in Keys(pieces)
    ensures Extracted(Document(pieces, tail)) == Unique(Keys(pieces)) <==>
            Anchored(Document(pieces, tail), -1, 0, pieces)
    ensures "image" in Extracted(Document(pieces, tail)) <==> !Anchored(Document(pieces, tail), -1, 0, pieces)
  {
    hide Separated, QuietText, Anchored, Extracted, Unique, Keys, Document, Shown;
    var s := Document(pieces, tail);
    DocumentShows(pieces, tail);
    UniqueIsSet(Keys(pieces));
    if Anchored(s, -1, 0, pieces) {
      AnchoredShowsKeys(s, -1, 0, pieces);
    } else {
      LooseShowsImage(s, -1, 0, pieces);
      UniqueIsSet(Shown(s, -1, 0, pieces));
    }
  }

  lemma {:induction false} LooseShowsImage(s: string, prev: int, off: nat, pieces: seq<Piece>)
    requires !Anchored(s, prev, off, pieces)
    ensures "image" in Shown(s, prev, off, pieces)
    decreases pieces
  {
    hide BuildAttachmentUrl, AnchoredAt;
    var u := off + |pieces[0].text|;
    if AnchoredAt(s, prev, u) {
      LooseShowsImage(s, u, u + |BuildAttachmentUrl(pieces[0].key)|, pieces[1..]);
    }
  }
}
