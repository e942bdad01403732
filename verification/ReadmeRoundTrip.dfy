/** Exactly which READMEs are read back as they were written (src/utils/readme_parser.py). */
module ReadmeRoundTrip {
  import opened Wrappers
  import opened PythonText
  import opened ReadmeLines
  import opened ReadmeParser
  import opened ReadmeMatches

  /** What the parser can produce at all. */
  predicate Shaped(p: ParsedReadme) {
    && (p.title.Some? ==> GoodTitle(p.title.value))
    && (p.imageUrl.Some? ==> GoodUrl(p.imageUrl.value))
    && Tidy(p.description)
  }

  /** Nothing else in the text reads as a title or as an image.  Without a title no line of the description begins like
      one; no image stands in the title; and without an image URL none stands in the description, nor is one left open
      in the title and closed by the description. */
  ghost predicate Unambiguous(p: ParsedReadme) {
    && (p.title.None? ==> HeadingFree(p.description))
    && (p.title.Some? ==> !HoldsImage(p.title.value))
    && (p.imageUrl.None? ==> !HoldsImage(p.description))
    && (p.imageUrl.None? && p.title.Some? ==> !Bridges(p.title.value, p.description))
  }

  /** The same for the scanner: next to an image URL it finds nothing in the title, and without one nothing at all. */
  predicate ScannedAlone(p: ParsedReadme) {
    && (p.title.None? ==> HeadingFree(p.description))
    && (p.imageUrl.Some? && p.title.Some? ==> FindImage(p.title.value, 0).None?)
    && (p.imageUrl.None? ==> FindImage(Written(p), 0).None?)
  }

  // ---- the layout of a written README ------------------------------------------------------

  function Head(p: ParsedReadme): string {
    if p.title.None? then []
    else "# " + p.title.value + if p.imageUrl.Some? || p.description != [] then "\n\n" else []
  }

  function Picture(u: string): string {
    ALT + u + ")"
  }

  function Body(p: ParsedReadme): string {
    if p.imageUrl.None? then []
    else Picture(p.imageUrl.value) + if p.description != [] then "\n\n" else []
  }

  lemma JoinTwo(a: string, b: string)
    ensures Join("\n\n", [a, b]) == a + "\n\n" + b
  {
    assert [a, b][1..] == [b];
  }

  lemma JoinThree(a: string, b: string, c: string)
    ensures Join("\n\n", [a, b, c]) == a + "\n\n" + b + "\n\n" + c
  {
    JoinTwo(b, c);
    assert [a, b, c][1..] == [b, c];
    assert a + "\n\n" + (b + "\n\n" + c) == a + "\n\n" + b + "\n\n" + c;
  }

  lemma JoinFew(a: string)
    ensures Join("\n\n", []) == [] && Join("\n\n", [a]) == a
  {
  }

  function TitlePart(p: ParsedReadme): string {
    "# " + if p.title.Some? then p.title.value else []
  }

  function PicturePart(p: ParsedReadme): string {
    Picture(if p.imageUrl.Some? then p.imageUrl.value else [])
  }

  lemma PartsAre(p: ParsedReadme)
    requires Shaped(p)
    ensures Parts(p) == (if p.title.Some? then [TitlePart(p)] else []) +
                        (if p.imageUrl.Some? then [PicturePart(p)] else []) +
                        (if p.description != [] then [p.description] else [])
  {
    hide Tidy, UrlChar, Trimmed;
  }

  lemma LayoutIs(p: ParsedReadme)
    ensures Head(p) == if p.title.None? then []
                       else TitlePart(p) + if p.imageUrl.Some? || p.description != [] then "\n\n" else []
    ensures Body(p) == if p.imageUrl.None? then []
                       else PicturePart(p) + if p.description != [] then "\n\n" else []
  {
    hide Picture;
  }

  lemma WrittenIs(p: ParsedReadme)
    requires Shaped(p)
    ensures Written(p) == Head(p) + Body(p) + p.description
  {
    hide Join, Shaped, Parts, TitlePart, PicturePart, Head, Body;
    var title, picture, d := TitlePart(p), PicturePart(p), p.description;
    PartsAre(p);
    LayoutIs(p);
    if p.title.Some? && p.imageUrl.Some? && d != [] {
      JoinThree(title, picture, d);
      assert Parts(p) == [title, picture, d];
    } else if p.title.Some? && p.imageUrl.Some? {
      JoinTwo(title, picture);
      assert Parts(p) == [title, picture];
    } else if p.title.Some? && d != [] {
      JoinTwo(title, d);
      assert Parts(p) == [title, d];
    } else if p.imageUrl.Some? && d != [] {
      JoinTwo(picture, d);
      assert Parts(p) == [picture, d];
    } else {
      var only := if p.title.Some? then title else if p.imageUrl.Some? then picture else d;
      JoinFew(only);
      assert Parts(p) == if p.title.Some? || p.imageUrl.Some? || d != [] then [only] else [];
    }
  }

  // ---- the title --------------------------------------------------------------------------------

  /** A title is read back, and its match ends before the first character of whatever follows. */
  lemma TitleIsRead(p: ParsedReadme)
    requires Shaped(p) && p.title.Some?
    ensures
      var t, s := p.title.value, Written(p);
      && FindHeading(s, 0) == Some(Found(0, if |s| == 2 + |t| then |s| else 3 + |t|, t))
      && Group(FindHeading(s, 0)) == Some(t)
  {
    hide IsSpace, FindHeading, Written, Tidy, UrlChar;
    WrittenIs(p);
    WrittenStarts(p);
    HeadingFirst(Written(p), p.title.value);
    TrimOfTrimmed(p.title.value);
  }

  lemma WrittenStarts(p: ParsedReadme)
    requires Shaped(p) && p.title.Some? && Written(p) == Head(p) + Body(p) + p.description
    ensures StartsWithHeading(Written(p), p.title.value)
  {
    hide Written, Head, Body, Picture, Shaped, StartsWithHeading;
    var t, rest := p.title.value, Body(p) + p.description;
    LayoutIs(p);
    RestStarts(p);
    assert Written(p) == "# " + t + (if rest != [] then "\n\n" else []) + rest;
    HeadingThenRest(t, rest);
  }

  /** What follows a heading begins with the image or with the description, never with white space. */
  lemma RestStarts(p: ParsedReadme)
    requires Shaped(p)
    ensures
      var rest := Body(p) + p.description;
      (rest != [] <==> p.imageUrl.Some? || p.description != []) && (rest != [] ==> !IsSpace(rest[0]))
  {
    hide IsSpace, UrlChar, Picture;
    AltText();
    if p.imageUrl.Some? {
      BodyEnds(p.imageUrl.value);
      assert Body(p)[0] == Picture(p.imageUrl.value)[0] && Picture(p.imageUrl.value)[0] in Picture(p.imageUrl.value);
    }
  }

  lemma HeadingThenRest(t: string, rest: string)
    requires rest != [] ==> !IsSpace(rest[0])
    ensures StartsWithHeading("# " + t + (if rest != [] then "\n\n" else []) + rest, t)
  {
    hide IsSpace;
    var s, n := "# " + t + (if rest != [] then "\n\n" else []) + rest, 2 + |t|;
    assert s[0..2] == "# " && s[2..n] == t;
    assert rest != [] ==> s[n] == "\n\n"[0] && s[n + 1] == "\n\n"[1] && s[n + 2] == rest[0];
  }

  lemma BodyEnds(u: string)
    requires GoodUrl(u)
    ensures |Picture(u)| == 8 + |u| && Picture(u)[0] == '!' && Picture(u)[|u| + 7] == ')'
    ensures forall c :: c in Picture(u) ==> !IsSpace(c)
  {
    AltText();
    assert forall c :: c in ALT ==> !IsSpace(c);
    assert forall c :: c in Picture(u) ==> c in ALT || c in u || c == ')';
    assert Picture(u)[0] == ALT[0];
  }

  lemma WrittenIsFlush(p: ParsedReadme)
    requires Shaped(p) && p.title.None?
    ensures Flush(Written(p)) && (HeadingFree(Written(p)) <==> HeadingFree(p.description))
  {
    hide IsSpace, Written, Picture, UrlChar, GoodUrl;
    WrittenIs(p);
    var s, d := Written(p), p.description;
    TidyIsFlush(d);
    if p.imageUrl.Some? {
      BodyEnds(p.imageUrl.value);
      PictureInFront(Picture(p.imageUrl.value), d);
      assert s == Picture(p.imageUrl.value) + (if d != [] then "\n\n" else []) + d;
    } else {
      assert s == d;
    }
  }

  lemma TidyIsFlush(d: string)
    requires Tidy(d)
    ensures Flush(d)
  {
    assert forall i :: 0 <= i && i + 1 < |d| && d[i] == '\n' ==> 0 < i && IsBreak(d[i]) && !IsSpace(d[i + 1]);
  }

  lemma PictureAlone(picture: string)
    requires picture != [] && picture[0] == '!' && forall c :: c in picture ==> !IsSpace(c)
    ensures Flush(picture) && HeadingFree(picture)
  {
    hide IsSpace;
    LineFeedIsSpace();
    assert forall i :: 0 <= i < |picture| ==> picture[i] in picture;
  }

  /** Text of `n` characters without white space but two line feeds at the end, then `d`. */
  predicate InFront(s: string, n: nat, d: string) {
    && 2 < n && |s| == n + |d| && d != [] && s[0] == '!' && s[n - 2] == s[n - 1] == '\n'
    && (forall i :: 0 <= i < n - 2 ==> !IsSpace(s[i])) && forall i :: n <= i < |s| ==> s[i] == d[i - n]
  }

  lemma FlushInFront(s: string, n: nat, d: string)
    requires InFront(s, n, d) && Flush(d)
    ensures Flush(s)
  {
    hide IsSpace;
    LineFeedIsSpace();
  }

  lemma HeadingFreeInFront(s: string, n: nat, d: string)
    requires InFront(s, n, d)
    ensures HeadingFree(s) <==> HeadingFree(d)
  {
    hide IsSpace;
    LineFeedIsSpace();
    if HeadingFree(s) {
      forall a | 0 <= a && a + 1 < |d| && d[a] == '#' && LineStart(d, a)
        ensures !IsSpace(d[a + 1])
      {
        assert s[n + a] == '#' && LineStart(s, n + a) && s[n + a + 1] == d[a + 1];
      }
    } else {
      var a :| 0 <= a && a + 1 < |s| && s[a] == '#' && LineStart(s, a) && IsSpace(s[a + 1]);
      assert n <= a && d[a - n] == '#' && LineStart(d, a - n) && d[a - n + 1] == s[a + 1];
    }
  }

  lemma PictureInFront(picture: string, d: string)
    requires picture != [] && picture[0] == '!' && (forall c :: c in picture ==> !IsSpace(c)) && Flush(d)
    ensures
      var s := picture + (if d != [] then "\n\n" else []) + d;
      Flush(s) && (HeadingFree(s) <==> HeadingFree(d))
  {
    hide IsSpace, Flush, HeadingFree;
    var s, n := picture + (if d != [] then "\n\n" else []) + d, |picture| + 2;
    if d == [] {
      PictureAlone(picture);
      assert s == picture;
      NoHeadingInNothing();
    } else {
      assert forall i :: 0 <= i < |picture| ==> s[i] == picture[i] && picture[i] in picture;
      assert s[n - 2] == "\n\n"[0] && s[n - 1] == "\n\n"[1];
      FlushInFront(s, n, d);
      HeadingFreeInFront(s, n, d);
    }
  }

  lemma NoHeadingInNothing()
    ensures HeadingFree([])
  {
  }

  lemma LineFeedIsSpace()
    ensures IsSpace('\n') && !IsSpace('#') && IsSpace(' ')
  {
  }

  lemma TitleIsReadIff(p: ParsedReadme)
    requires Shaped(p)
    ensures Group(FindHeading(Written(p), 0)) == p.title <==> (p.title.None? ==> HeadingFree(p.description))
  {
    hide FindHeading, Written, Tidy, HeadingFree, Group, Flush, IsSpace, GoodTitle, GoodUrl;
    if p.title.Some? {
      TitleIsRead(p);
    } else {
      WrittenIsFlush(p);
      HeadingIff(Written(p));
    }
  }

  // ---- the image ----------------------------------------------------------------------------------

  lemma WrittenShowsImage(p: ParsedReadme)
    requires Shaped(p) && p.imageUrl.Some?
    ensures
      var s, u := Written(p), p.imageUrl.value;
      var h := |Head(p)|;
      OccursAt(s, h, ALT) && OccursAt(s, h + 7, u) && OccursAt(s, h + 7 + |u|, ")") &&
      (p.title.Some? ==> h == 4 + |p.title.value| && HeadingThenImage(s, p.title.value, u))
  {
    hide Written, Shaped, OccursAt, Head, Body, Picture, Headed;
    WrittenIs(p);
    LayoutIs(p);
    var u, sep := p.imageUrl.value, if p.description != [] then "\n\n" else [];
    assert Written(p) == Head(p) + Picture(u) + (sep + p.description);
    PictureOccurs(Head(p), u, sep + p.description);
    if p.title.Some? {
      assert Head(p) == "# " + p.title.value + "\n\n";
      HeadOccurs(p.title.value, Picture(u) + (sep + p.description));
      assert Written(p) == "# " + p.title.value + "\n\n" + (Picture(u) + (sep + p.description));
    }
  }

  lemma PictureOccurs(front: string, u: string, behind: string)
    ensures
      var s, h := front + Picture(u) + behind, |front|;
      OccursAt(s, h, ALT) && OccursAt(s, h + 7, u) && OccursAt(s, h + 7 + |u|, ")")
  {
    AltText();
    var s, h := front + Picture(u) + behind, |front|;
    assert s[h..h + 7] == ALT && s[h + 7..h + 7 + |u|] == u && s[h + 7 + |u|..h + 8 + |u|] == ")";
  }

  lemma HeadOccurs(t: string, behind: string)
    ensures Headed("# " + t + "\n\n" + behind, t)
  {
    var s := "# " + t + "\n\n" + behind;
    assert s[0..2] == "# " && s[2..2 + |t|] == t && s[2 + |t|..4 + |t|] == "\n\n";
  }

  /** The URL is read back from a match that begins in the heading or at the image, and ends with the image. */
  lemma ImageIsRead(p: ParsedReadme)
    requires Shaped(p) && p.imageUrl.Some? && (p.title.Some? ==> FindImage(p.title.value, 0).None?)
    ensures
      var found, u := FindImage(Written(p), 0), p.imageUrl.value;
      && found.Some? && found.value.start <= |Head(p)| && found.value.end == |Head(p)| + |Picture(u)|
      && found.value.text == u && Group(found) == Some(u)
  {
    hide Written, FindImage, Tidy, OccursAt, ImageAt, HeadingThenImage;
    var s, u := Written(p), p.imageUrl.value;
    WrittenShowsImage(p);
    BodyEnds(u);
    TrimOfUrl(u);
    if p.title.Some? {
      ImageAfterHeading(s, p.title.value, u);
    } else {
      PrintedImage(s, 0, u);
      FindImageFirst(s);
    }
  }

  lemma FindImageFirst(s: string)
    ensures ImageAt(s, 0).Some? ==> FindImage(s, 0) == ImageAt(s, 0)
  {
  }

  lemma TrimOfUrl(u: string)
    requires GoodUrl(u)
    ensures Trim(u) == u
  {
    assert u[0] in u && u[|u| - 1] in u;
    TrimOfTrimmed(u);
  }

  // ---- the description ------------------------------------------------------------------------------

  /** The matches cover the first `n` characters, up to line feeds, and none behind them. */
  ghost predicate CoverFront(s: string, n: nat, heading: Option<Found>, image: Option<Found>) {
    && n <= |s|
    && (forall i: nat :: i < n ==> Covers(heading, i) || Covers(image, i) || s[i] == '\n')
    && (forall i: nat :: n <= i < |s| ==> !Covers(heading, i) && !Covers(image, i))
  }

  lemma BlankedFront(s: string, n: nat, heading: Option<Found>, image: Option<Found>)
    requires CoverFront(s, n, heading, image)
    ensures Blanked(s, heading, image)[n..] == s[n..]
    ensures forall i :: 0 <= i < n ==> IsSpace(Blanked(s, heading, image)[i])
  {
    hide IsSpace, Covers;
    LineFeedIsSpace();
    var r := Blanked(s, heading, image);
    assert forall i: nat :: i < |s| ==> r[i] == if Covers(heading, i) || Covers(image, i) then ' ' else s[i];
  }

  /** If everything in front of the description is covered by the matches or white space, it is read back. */
  lemma DescriptionIsRead(p: ParsedReadme)
    requires Shaped(p) && ScannedAlone(p)
    ensures
      var s := Written(p);
      Description(Blanked(s, FindHeading(s, 0), FindImage(s, 0))) == p.description
  {
    hide Written, FindImage, FindHeading, IsSpace, Description, HeadingFree, Tidy, GoodTitle, GoodUrl, Blanked, Covers;
    hide ScannedAlone, Head, Body, CoverFront;
    var s := Written(p);
    var n := |Head(p)| + |Body(p)|;
    WrittenIs(p);
    MatchesCoverFront(p);
    BlankedFront(s, n, FindHeading(s, 0), FindImage(s, 0));
    assert s[n..] == p.description;
    TidyDescription(Blanked(s, FindHeading(s, 0), FindImage(s, 0)), n);
  }

  lemma NoHeadingFound(p: ParsedReadme)
    requires Shaped(p) && p.title.None? && HeadingFree(p.description)
    ensures FindHeading(Written(p), 0).None?
  {
    hide Written, FindHeading, HeadingFree, Flush, Tidy;
    WrittenIsFlush(p);
    NoHeading(Written(p));
  }

  /** The two matches end in front of the description, and leave only line feeds there. */
  lemma MatchesCoverFront(p: ParsedReadme)
    requires Shaped(p) && ScannedAlone(p)
    ensures
      var s := Written(p);
      CoverFront(s, |Head(p)| + |Body(p)|, FindHeading(s, 0), FindImage(s, 0))
  {
    hide Written, FindImage, FindHeading, IsSpace, HeadingFree, Tidy, GoodTitle, GoodUrl, Group, Picture;
    var s := Written(p);
    WrittenIs(p);
    LineFeedsInFront(p);
    PictureLength(p);
    if p.title.Some? {
      TitleIsRead(p);
    } else {
      NoHeadingFound(p);
    }
    if p.imageUrl.Some? {
      ImageIsRead(p);
    }
  }

  lemma PictureLength(p: ParsedReadme)
    ensures p.imageUrl.Some? ==> |Picture(p.imageUrl.value)| == 8 + |p.imageUrl.value|
  {
    AltText();
  }

  /** Between the heading and the image, and between the image and the description, there are only line feeds. */
  lemma LineFeedsInFront(p: ParsedReadme)
    requires Written(p) == Head(p) + Body(p) + p.description
    ensures
      var s, h, n := Written(p), |Head(p)|, |Head(p)| + |Body(p)|;
      && (p.title.Some? ==> forall i :: 2 + |p.title.value| <= i < h ==> s[i] == '\n')
      && (p.imageUrl.Some? ==> forall i :: h + |Picture(p.imageUrl.value)| <= i < n ==> s[i] == '\n')
  {
    hide Written, Picture;
    var s, h := Written(p), |Head(p)|;
    if p.imageUrl.Some? {
      forall i | h + |Picture(p.imageUrl.value)| <= i < h + |Body(p)|
        ensures s[i] == '\n'
      {
        assert s[i] == Body(p)[i - h];
      }
    }
  }

  // ---- an image in the title --------------------------------------------------------------------------

  lemma PictureIsKept(picture: string, rest: string)
    requires GoodLine(picture)
    ensures Kept(SplitLines(picture + "\n" + rest)) == [picture] + Kept(SplitLines(rest))
  {
    hide IsBreak, IsSpace, LineLength, Kept, Trim;
    var s, n := picture + "\n" + rest, |picture|;
    assert forall i :: 0 <= i < n ==> s[i] == picture[i] && picture[i] in picture;
    LineFeedIsBreak();
    assert s[n] == '\n';
    LineLengthIs(s, n);
    TrimOfTrimmed(picture);
    assert s[..n] == picture && s[n + 1..] == rest;
    KeptFirst(picture, SplitLines(rest));
  }

  lemma PictureIsGoodLine(u: string)
    requires GoodUrl(u)
    ensures GoodLine(Picture(u)) && Tidy(Picture(u))
  {
    hide IsSpace, Picture;
    BodyEnds(u);
    assert Picture(u)[0] in Picture(u) && Picture(u)[|u| + 7] in Picture(u);
    forall c | c in Picture(u)
      ensures !IsBreak(c)
    {
      BreakIsSpace(c);
    }
    LineIsTidy(Picture(u));
  }

  /** If the printed image is still there, the description is longer than it was. */
  lemma PictureShows(u: string, d: string)
    requires GoodUrl(u) && Tidy(d)
    ensures Description(Picture(u) + (if d != [] then "\n\n" else []) + d) != d
  {
    hide IsSpace, Picture, SplitLines, Kept, Join, Trim, Tidy, GoodUrl, GoodLine;
    PictureIsGoodLine(u);
    var picture := Picture(u);
    PictureIsLong(u);
    if d == [] {
      assert picture + [] + d == picture;
      assert picture[0..] == picture;
      TidyDescription(picture, 0);
    } else {
      assert picture + "\n\n" + d == picture + "\n" + ("\n" + d);
      PictureIsKept(picture, "\n" + d);
      LineFeedIsSpace();
      SpaceInFront('\n', d);
      TidyIsKept(d);
      JoinMore(picture, Kept(SplitLines(d)));
      PictureThenText(picture, d);
    }
  }

  lemma PictureIsLong(u: string)
    ensures Picture(u) != []
  {
  }

  lemma PictureThenText(picture: string, d: string)
    requires GoodLine(picture) && Tidy(d) && d != []
    ensures Trim(picture + "\n" + d) == picture + "\n" + d
  {
    hide IsSpace;
    TidyMore(picture, d);
    TrimOfTrimmed(picture + "\n" + d);
  }

  lemma BehindHeading(p: ParsedReadme)
    requires Shaped(p) && p.title.Some? && p.imageUrl.Some?
    ensures
      var s, h := Written(p), 4 + |p.title.value|;
      h < |s| && s[h - 1] == '\n' &&
      s[h..] == Picture(p.imageUrl.value) + (if p.description != [] then "\n\n" else []) + p.description
  {
    hide Written, Picture, Tidy, GoodTitle, GoodUrl;
    WrittenIs(p);
    PictureLength(p);
    assert Head(p)[3 + |p.title.value|] == '\n';
  }

  /** With both matches in the heading, everything behind it is described as it stands. */
  lemma DescriptionBehind(s: string, h: nat, heading: Option<Found>, image: Option<Found>)
    requires 0 < h <= |s| && s[h - 1] == '\n' && heading.Some? && heading.value.start == 0 && heading.value.end == h - 1
    requires image.Some? && image.value.end < h
    ensures Description(Blanked(s, heading, image)) == Description(s[h..])
  {
    hide SplitLines, Kept, Join, Trim, IsSpace;
    LineFeedIsSpace();
    var r := Blanked(s, heading, image);
    assert r[h..] == s[h..];
    SpacesInFront(r, h);
  }

  /** An image in the title hides the printed one, which then shows up in the description. */
  lemma ImageInTitleShows(p: ParsedReadme)
    requires Shaped(p) && p.title.Some? && p.imageUrl.Some? && FindImage(p.title.value, 0).Some?
    ensures Parsed(Written(p)).description != p.description
  {
    hide Written, FindImage, FindHeading, Tidy, GoodTitle, GoodUrl, Description, Blanked, Picture, Head, OccursAt;
    hide HeadingThenImage, Group, ALT, RunEnd;
    var s, t, u := Written(p), p.title.value, p.imageUrl.value;
    BehindHeading(p);
    TitleIsRead(p);
    WrittenShowsImage(p);
    ImageInHeading(s, t, u);
    DescriptionBehind(s, 4 + |t|, FindHeading(s, 0), FindImage(s, 0));
    PictureShows(u, p.description);
  }

  // ---- main results -------------------------------------------------------------------------------------

  /** Whatever the text, the parts that the parser finds have the shape of parts: a trimmed title of one line, a URL
      without white space and closing parenthesis, a description of trimmed lines that are not blank. */
  lemma ParsedIsShaped(content: string)
    ensures Shaped(Parsed(content))
  {
    hide FindHeading, FindImage, IsSpace, Description, Tidy, Trim, HeadingAfter, ImageAt;
    var heading, image := FindHeading(content, 0), FindImage(content, 0);
    DescriptionIsTidy(Blanked(content, heading, image));
    if heading.Some? {
      TrimTrims(heading.value.text);
      var hash := RunEnd(content, heading.value.start, |content|, IsSpace);
      HeadingHasNoLineFeed(content, hash + 2, RunEnd(content, hash + 1, |content|, IsSpace));
    }
    if image.Some? {
      TrimOfUrl(image.value.text);
    }
  }

  lemma ImageGroup(s: string)
    ensures Group(FindImage(s, 0)).None? ==> FindImage(s, 0).None?
  {
    hide FindImage, ImageAt, Trim, IsSpace;
    if FindImage(s, 0).Some? {
      TrimOfUrl(FindImage(s, 0).value.text);
    }
  }

  lemma HeadedText(p: ParsedReadme)
    requires Shaped(p) && p.imageUrl.None?
    ensures
      var s, d := Written(p), p.description;
      match p.title
      case None => s == d
      case Some(t) =>
        if d == [] then OccursAt(s, 0, "# ") && OccursAt(s, 2, t) && |s| == 2 + |t|
        else Headed(s, t) && OccursAt(s, 4 + |t|, d) && |s| == 4 + |t| + |d|
  {
    hide Written, Shaped, Headed;
    WrittenIs(p);
    if p.title.Some? {
      var t, d := p.title.value, p.description;
      if d == [] {
        assert Written(p) == "# " + t;
        assert ("# " + t)[0..2] == "# " && ("# " + t)[2..2 + |t|] == t;
      } else {
        assert Written(p) == "# " + t + "\n\n" + d;
        HeadOccurs(t, d);
        assert ("# " + t + "\n\n" + d)[4 + |t|..4 + |t| + |d|] == d;
      }
    }
  }

  lemma NoImageInNothing()
    ensures !HoldsImage([]) && forall t :: !Bridges(t, [])
  {
  }

  /** Without an image URL the written text holds an image exactly as its parts say. */
  lemma WrittenHoldsImage(p: ParsedReadme)
    requires Shaped(p) && p.imageUrl.None?
    ensures HoldsImage(Written(p)) <==>
      || HoldsImage(p.description)
      || (p.title.Some? && (HoldsImage(p.title.value) || Bridges(p.title.value, p.description)))
  {
    hide Written, Shaped, HoldsImage, Bridges, Headed, OccursAt;
    HeadedText(p);
    NoImageInNothing();
    if p.title.Some? {
      if p.description == [] {
        ImageOfHeading(Written(p), p.title.value);
      } else {
        ImageOfHeaded(Written(p), p.title.value, p.description);
      }
    }
  }

  lemma ScannedAloneIff(p: ParsedReadme)
    requires Shaped(p)
    ensures ScannedAlone(p) <==> Unambiguous(p)
  {
    hide Written, Shaped, HoldsImage, Bridges, FindImage, HeadingFree;
    if p.title.Some? {
      FindsImageIff(p.title.value);
    }
    if p.imageUrl.None? {
      FindsImageIff(Written(p));
      WrittenHoldsImage(p);
    }
  }

  lemma RoundTripByScan(p: ParsedReadme)
    ensures Parsed(Written(p)) == p <==> Shaped(p) && ScannedAlone(p)
  {
    hide FindHeading, FindImage, Written, Description, Blanked, HeadingFree, Shaped, Tidy, Group;
    if Shaped(p) && ScannedAlone(p) {
      TitleIsReadIff(p);
      DescriptionIsRead(p);
      NoGroup();
      if p.imageUrl.Some? {
        ImageIsRead(p);
      }
    } else if Parsed(Written(p)) == p {
      ParsedIsShaped(Written(p));
      TitleIsReadIff(p);
      ImageGroup(Written(p));
      if p.imageUrl.Some? && p.title.Some? && FindImage(p.title.value, 0).Some? {
        ImageInTitleShows(p);
      }
    }
  }

  /** A README is read back exactly as it was written if and only if its parts have the shape of parts and nothing else
      in them reads as a title or as an image. */
  lemma RoundTripIff(p: ParsedReadme)
    ensures Parsed(Written(p)) == p <==> Shaped(p) && Unambiguous(p)
  {
    hide Parsed, Written, Shaped, ScannedAlone, Unambiguous;
    RoundTripByScan(p);
    if Shaped(p) {
      ScannedAloneIff(p);
    }
  }

  predicate NoImageMark(s: string) {
    forall i :: 0 <= i < |s| - 1 ==> !(s[i] == '!' && s[i + 1] == '[')
  }

  lemma NoMarkNoImage(s: string)
    requires NoImageMark(s)
    ensures !HoldsImage(s) && forall d :: !Bridges(s, d)
  {
    hide UrlChar, AltChar;
  }

  /** In particular every README in normal form is: no image mark in the title, nor in the description when there is no
      image, and no line of the description that begins like a heading when there is no title. */
  lemma NormalFormRoundTrips(p: ParsedReadme)
    requires Shaped(p) && (p.title.Some? ==> NoImageMark(p.title.value))
    requires p.imageUrl.None? ==> NoImageMark(p.description)
    requires p.title.None? ==> HeadingFree(p.description)
    ensures Parsed(Written(p)) == p
  {
    hide Parsed, Written, Shaped, HoldsImage, Bridges, NoImageMark, HeadingFree;
    if p.title.Some? {
      NoMarkNoImage(p.title.value);
    }
    if p.imageUrl.None? {
      NoMarkNoImage(p.description);
    }
    RoundTripIff(p);
  }

  lemma NoGroup()
    ensures Group(None) == None
  {
  }

  /** Parsing, writing and parsing again changes nothing exactly if the first parse left no ambiguity. */
  lemma ReparseIff(content: string)
    ensures Parsed(Written(Parsed(content))) == Parsed(content) <==> Unambiguous(Parsed(content))
  {
    hide Parsed, Written, Shaped, Unambiguous;
    ParsedIsShaped(content);
    RoundTripIff(Parsed(content));
  }

  const EXPOSED: string := "![a](u)# b"

  lemma ExposedText()
    ensures |EXPOSED| == 10 && EXPOSED[0] == '!' && EXPOSED[1] == '[' && EXPOSED[2] == 'a' && EXPOSED[3] == ']'
    ensures EXPOSED[4] == '(' && EXPOSED[5] == 'u' && EXPOSED[6] == ')' && EXPOSED[7..] == "# b"
    ensures EXPOSED[5..6] == "u" && '\n' !in EXPOSED && Trimmed(EXPOSED)
  {
  }

  lemma NoHeadingInOneLine(s: string)
    requires '\n' !in s && Trimmed(s) && s != [] && s[0] != '#'
    ensures FindHeading(s, 0) == None
  {
    hide FindHeading, IsSpace;
    assert forall i :: 0 <= i < |s| ==> s[i] in s;
    NoHeading(s);
  }

  lemma ImageAtStart(s: string)
    requires |s| >= 7 && s[0] == '!' && s[1] == '[' && s[2] == 'a' && s[3] == ']'
    requires s[4] == '(' && s[5] == 'u' && s[6] == ')'
    ensures FindImage(s, 0) == Some(Found(0, 7, s[5..6]))
  {
    hide FindImage, IsSpace, ImageAt;
    LetterIsUrlChar();
    ImageIs(s, 0, 3, 6);
    FindImageFirst(s);
  }

  lemma ExposedMatches()
    ensures FindHeading(EXPOSED, 0) == None && FindImage(EXPOSED, 0) == Some(Found(0, 7, "u"))
  {
    hide FindHeading, FindImage, EXPOSED, Trimmed;
    ExposedText();
    NoHeadingInOneLine(EXPOSED);
    ImageAtStart(EXPOSED);
  }

  lemma LetterIsUrlChar()
    ensures UrlChar('u') && IsSpace(' ') && !IsSpace('#') && !IsSpace('b')
  {
  }

  lemma HeadingStands()
    ensures !HeadingFree("# b") && Tidy("# b")
  {
    LetterIsUrlChar();
    hide IsSpace;
    LineFeedIsBreak();
    BreakIsSpace(' ');
    assert "# b"[0] == '#' && LineStart("# b", 0) && "# b"[1] == ' ';
    BlankIsNoBreak();
  }

  lemma BlankIsNoBreak()
    ensures !IsBreak(' ')
  {
  }

  lemma ExposedDescription(image: Option<Found>)
    requires image == Some(Found(0, 7, "u"))
    ensures Description(Blanked(EXPOSED, None, image)) == "# b"
  {
    hide Description, IsSpace;
    LetterIsUrlChar();
    ExposedText();
    HeadingStands();
    var r := Blanked(EXPOSED, None, image);
    assert r[7..] == "# b";
    TidyDescription(r, 7);
  }

  /** It can change the parts: taking out an image can expose a heading. */
  lemma ReparseCanFail()
    ensures Parsed(EXPOSED) == ParsedReadme(None, Some("u"), "# b")
    ensures Parsed(Written(Parsed(EXPOSED))) != Parsed(EXPOSED)
  {
    hide FindHeading, FindImage, Description, Written, Blanked, HeadingFree, EXPOSED, Trim, Tidy;
    ExposedMatches();
    ExposedDescription(FindImage(EXPOSED, 0));
    TrimOfTrimmed("u");
    HeadingStands();
    ReparseIff(EXPOSED);
  }
}
