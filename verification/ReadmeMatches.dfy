/** Where the two expressions of src/utils/readme_parser.py match in text of a known layout. */
module ReadmeMatches {
  import opened Wrappers
  import opened PythonText
  import opened ReadmeLines
  import opened ReadmeParser

  predicate GoodTitle(t: string) {
    t != [] && Trimmed(t) && '\n' !in t
  }

  predicate GoodUrl(u: string) {
    u != [] && forall c :: c in u ==> UrlChar(c)
  }

  // ---- a heading at the start -----------------------------------------------------------

  /** The text begins with the heading of `t`, and ends there or goes on after one empty line. */
  predicate StartsWithHeading(s: string, t: string) {
    var n := 2 + |t|;
    && OccursAt(s, 0, "# ") && OccursAt(s, 2, t)
    && (|s| == n || (n + 2 < |s| && s[n] == '\n' && s[n + 1] == '\n' && !IsSpace(s[n + 2])))
  }

  lemma LastLineEndIs(s: string, i: nat, e: nat, r: nat)
    requires i <= r <= e <= |s| && LineEnd(s, r) && forall k :: r < k <= e ==> !LineEnd(s, k)
    ensures LastLineEnd(s, i, e) == Some(r)
  {
  }

  /** Before the end of the title no line ends. */
  lemma InsideTitle(s: string, t: string, k: nat)
    requires StartsWithHeading(s, t) && GoodTitle(t) && 2 < k < 2 + |t|
    ensures LastLineEnd(s, k, RunEnd(s, k, |s|, IsSpace)).None?
  {
    hide IsSpace;
    var c := RunEnd(s, k, |s|, IsSpace);
    assert s[1 + |t|] == t[|t| - 1];
    assert c < 2 + |t|;
    forall e | k <= e <= c
      ensures !LineEnd(s, e)
    {
      assert s[e] == t[e - 2] && t[e - 2] in t;
    }
  }

  lemma EndOfTitle(s: string, t: string)
    requires StartsWithHeading(s, t)
    ensures
      var n := 2 + |t|;
      LastLineEnd(s, n, RunEnd(s, n, |s|, IsSpace)) == Some(if |s| == n then n else n + 1)
  {
    var n := 2 + |t|;
    if |s| == n {
      LastLineEndIs(s, n, n, n);
    } else {
      RunEndIs(s, n, n + 2, |s|, IsSpace);
      assert !LineEnd(s, n + 2);
      LastLineEndIs(s, n, n + 2, n + 1);
    }
  }

  lemma {:induction false} TitleIs(s: string, t: string, k: nat)
    requires StartsWithHeading(s, t) && GoodTitle(t) && 2 < k <= 2 + |t|
    ensures TitleFrom(s, 2, k) == Some(Found(2, if |s| == 2 + |t| then |s| else 3 + |t|, t))
    decreases 2 + |t| - k
  {
    hide IsSpace, RunEnd, LastLineEnd, LineEnd;
    assert s[k - 1] == t[k - 3] && t[k - 3] in t;
    if k < 2 + |t| {
      InsideTitle(s, t, k);
      TitleIs(s, t, k + 1);
    } else {
      EndOfTitle(s, t);
      assert s[2..k] == t;
    }
  }

  lemma HeadingFirst(s: string, t: string)
    requires StartsWithHeading(s, t) && GoodTitle(t)
    ensures FindHeading(s, 0) == Some(Found(0, if |s| == 2 + |t| then |s| else 3 + |t|, t))
  {
    hide TitleFrom, LastLineEnd;
    assert s[0] == "# "[0] == '#' && s[1] == "# "[1] == ' ' && s[2] == t[0];
    RunEndIs(s, 0, 0, |s|, IsSpace);
    RunEndIs(s, 1, 2, |s|, IsSpace);
    TitleIs(s, t, 3);
  }

  // ---- no heading ---------------------------------------------------------------------------

  /** No line begins with a hash sign and white space. */
  predicate HeadingFree(s: string) {
    forall a :: 0 <= a && a + 1 < |s| && s[a] == '#' && LineStart(s, a) ==> !IsSpace(s[a + 1])
  }

  /** No white space at either end, and none but line feeds at the start of a line. */
  predicate Flush(s: string) {
    Trimmed(s) && forall i :: 0 <= i && i + 1 < |s| && s[i] == '\n' && IsSpace(s[i + 1]) ==> s[i + 1] == '\n'
  }

  lemma {:induction false} RunOfLineFeeds(s: string, i: nat)
    requires Flush(s) && i <= |s| && LineStart(s, i)
    ensures LineStart(s, RunEnd(s, i, |s|, IsSpace))
    decreases |s| - i
  {
    hide IsSpace;
    if i < |s| && IsSpace(s[i]) {
      assert s[i] == '\n';
      RunOfLineFeeds(s, i + 1);
    }
  }

  lemma NoHeading(s: string)
    requires Flush(s) && HeadingFree(s)
    ensures FindHeading(s, 0).None?
  {
    hide IsSpace, HeadingAfter, FindHeading;
    if FindHeading(s, 0).Some? {
      var i := FindHeading(s, 0).value.start;
      RunOfLineFeeds(s, i);
      var hash := RunEnd(s, i, |s|, IsSpace);
      assert HeadingAt(s, i).Some?;
      RunMoves(s, hash + 1);
    }
  }

  lemma RunMoves(s: string, i: nat)
    requires i <= |s|
    ensures RunEnd(s, i, |s|, IsSpace) > i <==> i < |s| && IsSpace(s[i])
  {
  }

  /** A title that starts with some character can always be completed: its line ends somewhere. */
  lemma {:induction false} TitleExists(s: string, j: nat, k: nat)
    requires j < k <= |s| && s[k - 1] != '\n'
    ensures TitleFrom(s, j, k).Some? && s[j] in TitleFrom(s, j, k).value.text
    decreases |s| - k
  {
    hide IsSpace, RunEnd;
    if LastLineEnd(s, k, RunEnd(s, k, |s|, IsSpace)).None? {
      assert !LineEnd(s, k);
      TitleExists(s, j, k + 1);
    } else {
      assert s[j] == s[j..k][0];
    }
  }

  /** If text remains behind the white space after the hash sign, the title is found in it. */
  lemma HeadingBehind(s: string, lo: nat, b: nat)
    requires lo <= b < |s| && !IsSpace(s[b])
    ensures HeadingAfter(s, lo, b).Some? && s[b] in HeadingAfter(s, lo, b).value.text
  {
    hide TitleFrom;
    TitleExists(s, b, b + 1);
  }

  /** In text without trailing white space a heading always has a title, and a hash sign with white space makes one. */
  lemma HeadingHasTitle(s: string, i: nat)
    requires Trimmed(s) && i <= |s|
    ensures HeadingAt(s, i).Some? ==> Trim(HeadingAt(s, i).value.text) != []
    ensures i + 1 < |s| && LineStart(s, i) && s[i] == '#' && IsSpace(s[i + 1]) ==> HeadingAt(s, i).Some?
  {
    hide IsSpace, HeadingAfter, TitleFrom, Trim, RunEnd;
    var hash := RunEnd(s, i, |s|, IsSpace);
    HashIsNoSpace();
    RunMoves(s, i);
    if LineStart(s, i) && hash < |s| && s[hash] == '#' {
      var b := RunEnd(s, hash + 1, |s|, IsSpace);
      RunMoves(s, hash + 1);
      if b > hash + 1 {
        HeadingBehind(s, hash + 2, b);
        TrimTrims(HeadingAfter(s, hash + 2, b).value.text);
      }
    }
  }

  lemma HashIsNoSpace()
    ensures !IsSpace('#')
  {
  }

  /** In flush text a heading is found exactly if some line begins with a hash sign and white space. */
  lemma HeadingIff(s: string)
    requires Flush(s)
    ensures Group(FindHeading(s, 0)).None? <==> HeadingFree(s)
  {
    hide IsSpace, HeadingAt, Trim;
    if HeadingFree(s) {
      NoHeading(s);
    } else {
      var a :| 0 <= a && a + 1 < |s| && s[a] == '#' && LineStart(s, a) && IsSpace(s[a + 1]);
      HeadingHasTitle(s, a);
      HeadingHasTitle(s, FindHeading(s, 0).value.start);
    }
  }

  /** A heading never has a line feed in its title. */
  lemma {:induction false} TitleHasNoLineFeed(s: string, j: nat, k: nat)
    requires j < k && (k <= |s| ==> '\n' !in s[j..k - 1])
    ensures TitleFrom(s, j, k).Some? ==> '\n' !in TitleFrom(s, j, k).value.text
    decreases |s| + 1 - k
  {
    hide IsSpace, RunEnd, LastLineEnd;
    if k <= |s| && s[k - 1] != '\n' {
      assert s[j..k] == s[j..k - 1] + [s[k - 1]];
      TitleHasNoLineFeed(s, j, k + 1);
    }
  }

  lemma {:induction false} HeadingHasNoLineFeed(s: string, lo: nat, j: nat)
    requires lo <= j <= |s|
    ensures HeadingAfter(s, lo, j).Some? ==> '\n' !in HeadingAfter(s, lo, j).value.text
    decreases j
  {
    hide TitleFrom;
    TitleHasNoLineFeed(s, j, j + 1);
    if j > lo {
      HeadingHasNoLineFeed(s, lo, j - 1);
    }
  }

  // ---- images -----------------------------------------------------------------------------------

  /** The parts of an image at `i`: the bracket that closes its text, and the end of its URL. */
  predicate ImageParts(s: string, i: nat, close: nat, e: nat) {
    && i + 2 <= close && close + 2 < e < |s|
    && s[i] == '!' && s[i + 1] == '[' && (forall j :: i + 2 <= j < close ==> AltChar(s[j]))
    && s[close] == ']' && s[close + 1] == '('
    && (forall j :: close + 2 <= j < e ==> UrlChar(s[j])) && s[e] == ')'
  }

  lemma ImageIs(s: string, i: nat, close: nat, e: nat)
    requires ImageParts(s, i, close, e)
    ensures ImageAt(s, i) == Some(Found(i, e + 1, s[close + 2..e]))
  {
    hide IsSpace;
    RunEndIs(s, i + 2, close, |s|, AltChar);
    RunEndIs(s, close + 2, e, |s|, UrlChar);
  }

  lemma PartsOfImage(s: string, i: nat) returns (close: nat, e: nat)
    requires i <= |s| && ImageAt(s, i).Some?
    ensures ImageParts(s, i, close, e) && ImageAt(s, i) == Some(Found(i, e + 1, s[close + 2..e]))
  {
    hide IsSpace;
    close := RunEnd(s, i + 2, |s|, AltChar);
    e := RunEnd(s, close + 2, |s|, UrlChar);
  }

  /** Some image stands in the text. */
  ghost predicate HoldsImage(s: string) {
    exists i: nat, close: nat, e: nat :: ImageParts(s, i, close, e)
  }

  lemma FindsImageIff(s: string)
    ensures FindImage(s, 0).Some? <==> HoldsImage(s)
  {
    hide FindImage, ImageAt;
    if FindImage(s, 0).Some? {
      var close, e := PartsOfImage(s, FindImage(s, 0).value.start);
      assert ImageParts(s, FindImage(s, 0).value.start, close, e);
    }
    forall i: nat, close: nat, e: nat | ImageParts(s, i, close, e)
      ensures FindImage(s, 0).Some?
    {
      ImageIs(s, i, close, e);
    }
  }

  /** The text begins with the heading of `t` and an empty line. */
  predicate Headed(s: string, t: string) {
    OccursAt(s, 0, "# ") && OccursAt(s, 2, t) && OccursAt(s, 2 + |t|, "\n\n")
  }

  /** The heading of `t`, an empty line, and the image of `u`. */
  predicate HeadingThenImage(s: string, t: string, u: string) {
    var h := 4 + |t|;
    && Headed(s, t)
    && OccursAt(s, h, ALT) && OccursAt(s, h + 7, u) && OccursAt(s, h + 7 + |u|, ")")
  }

  lemma AltText()
    ensures |ALT| == 7 && ALT[0] == '!' && ALT[1] == '[' && ALT[2] == 'a' && ALT[3] == 'l' && ALT[4] == 't'
    ensures ALT[5] == ']' && ALT[6] == '('
  {
  }

  lemma PrintedImage(s: string, h: nat, u: string)
    requires OccursAt(s, h, ALT) && OccursAt(s, h + 7, u) && OccursAt(s, h + 7 + |u|, ")") && GoodUrl(u)
    ensures ImageParts(s, h, h + 5, h + 7 + |u|)
    ensures ImageAt(s, h) == Some(Found(h, h + 8 + |u|, u))
  {
    hide IsSpace;
    AltText();
    assert forall j :: 0 <= j < 7 ==> s[h + j] == ALT[j];
    assert s[h] == ALT[0] && s[h + 1] == ALT[1] && s[h + 5] == ALT[5] && s[h + 6] == ALT[6];
    assert s[h + 2] == ALT[2] && s[h + 3] == ALT[3] && s[h + 4] == ALT[4];
    assert s[h + 7 + |u|] == ")"[0];
    forall j | h + 7 <= j < h + 7 + |u|
      ensures UrlChar(s[j])
    {
      assert s[j] == u[j - h - 7] && u[j - h - 7] in u;
    }
    ImageIs(s, h, h + 5, h + 7 + |u|);
    assert s[h + 7..h + 7 + |u|] == u;
  }

  lemma ImageBeginsInTitle(s: string, t: string, i: nat, close: nat, e: nat)
    requires Headed(s, t) && i < 4 + |t| && ImageParts(s, i, close, e)
    ensures 2 <= i <= |t|
  {
    hide IsSpace;
    HeadingBreaks(s, t);
  }

  lemma ImageBackInTitle(s: string, t: string, i: nat, close: nat, e: nat)
    requires OccursAt(s, 2, t) && ImageParts(s, i, close, e) && 2 <= i && e < 2 + |t|
    ensures ImageParts(t, i - 2, close - 2, e - 2)
  {
    hide IsSpace;
    assert forall j :: 2 <= j < 2 + |t| ==> s[j] == t[j - 2];
  }

  /** An image that begins in the title but does not close there closes where the printed one does. */
  lemma ImageClosesLater(s: string, t: string, u: string, i: nat, close: nat, e: nat)
    requires HeadingThenImage(s, t, u) && GoodUrl(u) && i <= |t| && ImageParts(s, i, close, e) && 2 + |t| <= close
    ensures close == 9 + |t| && e == 11 + |t| + |u| && s[close + 2..e] == u
  {
    hide IsSpace, UrlChar;
    var h := 4 + |t|;
    HeadingBreaks(s, t);
    PrintedImage(s, h, u);
    UrlEnds(s, h + 7, e, h + 7 + |u|);
    assert s[h + 7..h + 7 + |u|] == u;
  }

  /** An image that begins in the heading lies in the title, or ends where the printed image ends. */
  lemma ImageFromHeading(s: string, t: string, u: string, i: nat)
    requires HeadingThenImage(s, t, u) && GoodUrl(u) && i < 4 + |t| && i <= |s| && ImageAt(s, i).Some?
    ensures
      var found := ImageAt(s, i).value;
      || (found.end <= 2 + |t| && 2 <= i <= 2 + |t| && ImageAt(t, i - 2).Some?)
      || (found.text == u && found.end == 12 + |t| + |u|)
  {
    hide IsSpace, OccursAt, ImageAt, GoodUrl, UrlChar, AltChar;
    var close, e := PartsOfImage(s, i);
    ImageBeginsInTitle(s, t, i, close, e);
    if close < 2 + |t| {
      HeadingBreaks(s, t);
      TitleEndsImage(s, t, close, e);
      ImageBackInTitle(s, t, i, close, e);
      ImageIs(t, i - 2, close - 2, e - 2);
    } else {
      ImageClosesLater(s, t, u, i, close, e);
    }
  }

  lemma HeadingBreaks(s: string, t: string)
    requires Headed(s, t)
    ensures 4 + |t| <= |s| && s[0] == '#' && s[1] == ' ' && s[2 + |t|] == '\n' && s[3 + |t|] == '\n'
  {
    assert s[0] == "# "[0] && s[1] == "# "[1] && s[2 + |t|] == "\n\n"[0] && s[3 + |t| ] == s[2 + |t| + 1] == "\n\n"[1];
  }

  /** The URL of an image whose bracket closes in the title ends there as well. */
  lemma TitleEndsImage(s: string, t: string, close: nat, e: nat)
    requires 2 + |t| < |s| && s[2 + |t|] == '\n' && close < 2 + |t| && close + 2 < e < |s| && s[close + 1] == '('
    requires (forall j :: close + 2 <= j < e ==> UrlChar(s[j])) && s[e] == ')'
    ensures e < 2 + |t|
  {
  }

  lemma UrlEnds(s: string, from: nat, e: nat, e': nat)
    requires from <= e < |s| && from <= e' < |s| && s[e] == ')' && s[e'] == ')'
    requires (forall j :: from <= j < e ==> UrlChar(s[j])) && forall j :: from <= j < e' ==> UrlChar(s[j])
    ensures e == e'
  {
  }

  /** If the title holds no image, the image found is the printed one, perhaps begun in the title. */
  lemma ImageAfterHeading(s: string, t: string, u: string)
    requires HeadingThenImage(s, t, u) && GoodUrl(u) && FindImage(t, 0).None?
    ensures
      var found := FindImage(s, 0);
      found.Some? && found.value.start <= 4 + |t| && found.value.end == 12 + |t| + |u| && found.value.text == u
  {
    hide ImageAt, OccursAt;
    var h := 4 + |t|;
    PrintedImageOf(s, t, u);
    if FindImage(s, 0).value.start < h {
      ImageFromHeading(s, t, u, FindImage(s, 0).value.start);
    }
  }

  lemma PrintedImageOf(s: string, t: string, u: string)
    requires HeadingThenImage(s, t, u) && GoodUrl(u)
    ensures 4 + |t| <= |s| && ImageAt(s, 4 + |t|) == Some(Found(4 + |t|, 12 + |t| + |u|, u))
  {
    PrintedImage(s, 4 + |t|, u);
  }

  /** If the title holds an image, that is the one found. */
  lemma ImageInHeading(s: string, t: string, u: string)
    requires HeadingThenImage(s, t, u) && GoodUrl(u) && FindImage(t, 0).Some?
    ensures FindImage(s, 0).Some? && FindImage(s, 0).value.end <= 2 + |t|
  {
    hide IsSpace, ImageAt, FindImage;
    var k := FindImage(t, 0).value.start;
    var close, e := PartsOfImage(t, k);
    ImageMoves(s, t, k, close, e);
    ImageIs(s, k + 2, close + 2, e + 2);
    var i := FindImage(s, 0).value.start;
    assert i <= k + 2;
    var close', e' := PartsOfImage(s, i);
    CloseIsFirst(s, i, close', close + 2);
    HeadingBreaks(s, t);
    TitleEndsImage(s, t, close', e');
  }

  lemma ImageMoves(s: string, t: string, k: nat, close: nat, e: nat)
    requires OccursAt(s, 2, t) && ImageParts(t, k, close, e)
    ensures ImageParts(s, k + 2, close + 2, e + 2)
  {
    hide IsSpace;
    assert forall j :: 2 <= j < 2 + |t| ==> s[j] == t[j - 2];
  }

  lemma CloseIsFirst(s: string, i: nat, close: nat, bracket: nat)
    requires i + 2 <= bracket < |s| && s[bracket] == ']' && forall j :: i + 2 <= j < close && j < |s| ==> AltChar(s[j])
    ensures close <= bracket
  {
  }

  // ---- images of a heading and a description ------------------------------------------------

  /** An image text opens at `i` and is not closed any more. */
  predicate LeftOpen(t: string, i: nat) {
    i + 2 <= |t| && t[i] == '!' && t[i + 1] == '[' && forall j :: i + 2 <= j < |t| ==> t[j] != ']'
  }

  /** The first closing bracket stands at `close`, and a URL in parentheses that ends at `e` follows it. */
  predicate ClosesFirst(d: string, close: nat, e: nat) {
    && close + 2 < e < |d| && (forall j :: 0 <= j < close ==> d[j] != ']') && d[close] == ']' && d[close + 1] == '('
    && (forall j :: close + 2 <= j < e ==> UrlChar(d[j])) && d[e] == ')'
  }

  /** An image that is left open in the title and closed by the description. */
  ghost predicate Bridges(t: string, d: string) {
    (exists i: nat :: LeftOpen(t, i)) && exists close: nat, e: nat :: ClosesFirst(d, close, e)
  }

  lemma ImageInTail(s: string, off: nat, d: string, i: nat, close: nat, e: nat)
    requires OccursAt(s, off, d) && off + |d| == |s|
    ensures off <= i && off <= close && off <= e ==>
      (ImageParts(s, i, close, e) <==> ImageParts(d, i - off, close - off, e - off))
  {
    hide IsSpace, UrlChar, AltChar;
    assert forall j :: off <= j < |s| ==> s[j] == d[j - off];
  }

  lemma BridgeIsImage(s: string, t: string, d: string, i: nat, close: nat, e: nat)
    requires Headed(s, t) && OccursAt(s, 4 + |t|, d) && 4 + |t| + |d| == |s|
    requires LeftOpen(t, i) && ClosesFirst(d, close, e)
    ensures ImageParts(s, i + 2, close + 4 + |t|, e + 4 + |t|)
  {
    hide IsSpace, UrlChar;
    HeadingBreaks(s, t);
    var off := 4 + |t|;
    assert forall j :: 2 <= j < 2 + |t| ==> s[j] == t[j - 2];
    assert forall j :: off <= j < |s| ==> s[j] == d[j - off];
  }

  lemma ImageIsBridge(s: string, t: string, d: string, i: nat, close: nat, e: nat)
    requires Headed(s, t) && OccursAt(s, 4 + |t|, d) && 4 + |t| + |d| == |s|
    requires ImageParts(s, i, close, e) && 2 <= i <= |t| && 2 + |t| <= close
    ensures LeftOpen(t, i - 2) && close >= 4 + |t| && ClosesFirst(d, close - 4 - |t|, e - 4 - |t|)
  {
    hide IsSpace, UrlChar;
    HeadingBreaks(s, t);
    var off := 4 + |t|;
    assert forall j :: 2 <= j < 2 + |t| ==> s[j] == t[j - 2];
    assert forall j :: off <= j < |s| ==> s[j] == d[j - off];
  }

  /** A heading with a description behind it holds an image exactly if the title does, or the description does, or one
      is left open in the title and closed by the description. */
  lemma ImageOfHeaded(s: string, t: string, d: string)
    requires Headed(s, t) && OccursAt(s, 4 + |t|, d) && 4 + |t| + |d| == |s|
    ensures HoldsImage(s) <==> HoldsImage(t) || HoldsImage(d) || Bridges(t, d)
  {
    hide Headed, OccursAt, ImageParts, LeftOpen, ClosesFirst;
    forall i: nat, close: nat, e: nat | ImageParts(s, i, close, e)
      ensures HoldsImage(t) || HoldsImage(d) || Bridges(t, d)
    {
      ImageIsSomewhere(s, t, d, i, close, e);
    }
    forall i: nat, close: nat, e: nat | ImageParts(t, i, close, e)
      ensures HoldsImage(s)
    {
      TitleImageMoves(s, t, i, close, e);
    }
    forall i: nat, close: nat, e: nat | ImageParts(d, i, close, e)
      ensures HoldsImage(s)
    {
      var off := 4 + |t|;
      ImageInTail(s, off, d, i + off, close + off, e + off);
      InOrder(d, i, close, e);
      assert ImageParts(s, i + off, close + off, e + off);
    }
    forall i: nat, close: nat, e: nat | LeftOpen(t, i) && ClosesFirst(d, close, e)
      ensures HoldsImage(s)
    {
      BridgeIsImage(s, t, d, i, close, e);
      assert ImageParts(s, i + 2, close + 4 + |t|, e + 4 + |t|);
    }
  }

  lemma InOrder(s: string, i: nat, close: nat, e: nat)
    requires ImageParts(s, i, close, e)
    ensures i + 2 <= close && close + 2 < e < |s|
  {
  }

  lemma TitleImageMoves(s: string, t: string, i: nat, close: nat, e: nat)
    requires Headed(s, t) && ImageParts(t, i, close, e)
    ensures HoldsImage(s)
  {
    hide ImageParts;
    ImageMoves(s, t, i, close, e);
    assert ImageParts(s, i + 2, close + 2, e + 2);
  }

  lemma ImageIsSomewhere(s: string, t: string, d: string, i: nat, close: nat, e: nat)
    requires Headed(s, t) && OccursAt(s, 4 + |t|, d) && 4 + |t| + |d| == |s| && ImageParts(s, i, close, e)
    ensures HoldsImage(t) || HoldsImage(d) || Bridges(t, d)
  {
    hide OccursAt, ImageParts, LeftOpen, ClosesFirst;
    var off := 4 + |t|;
    InOrder(s, i, close, e);
    if i >= off {
      ImageInTail(s, off, d, i, close, e);
      assert ImageParts(d, i - off, close - off, e - off);
    } else {
      ImageBeginsInTitle(s, t, i, close, e);
      if close < 2 + |t| {
        HeadingBreaks(s, t);
        ImageEndsInTitle(s, t, i, close, e);
        assert ImageParts(t, i - 2, close - 2, e - 2);
      } else {
        ImageIsBridge(s, t, d, i, close, e);
        assert LeftOpen(t, i - 2) && ClosesFirst(d, close - off, e - off);
      }
    }
  }

  lemma ImageEndsInTitle(s: string, t: string, i: nat, close: nat, e: nat)
    requires Headed(s, t) && ImageParts(s, i, close, e) && 2 <= i && close < 2 + |t|
    ensures ImageParts(t, i - 2, close - 2, e - 2)
  {
    hide IsSpace, OccursAt;
    HeadingBreaks(s, t);
    TitleEndsImage(s, t, close, e);
    ImageBackInTitle(s, t, i, close, e);
  }

  /** A heading alone holds an image exactly if its title does. */
  lemma ImageOfHeading(s: string, t: string)
    requires OccursAt(s, 0, "# ") && OccursAt(s, 2, t) && |s| == 2 + |t|
    ensures HoldsImage(s) <==> HoldsImage(t)
  {
    hide ImageParts;
    forall i: nat, close: nat, e: nat | ImageParts(s, i, close, e)
      ensures HoldsImage(t)
    {
      InOrder(s, i, close, e);
      ImageInHeadingAlone(s, t, i, close, e);
      assert ImageParts(t, i - 2, close - 2, e - 2);
    }
    forall i: nat, close: nat, e: nat | ImageParts(t, i, close, e)
      ensures HoldsImage(s)
    {
      ImageMoves(s, t, i, close, e);
      assert ImageParts(s, i + 2, close + 2, e + 2);
    }
  }

  lemma ImageInHeadingAlone(s: string, t: string, i: nat, close: nat, e: nat)
    requires OccursAt(s, 0, "# ") && OccursAt(s, 2, t) && |s| == 2 + |t| && ImageParts(s, i, close, e)
    ensures 2 <= i && ImageParts(t, i - 2, close - 2, e - 2)
  {
    hide IsSpace;
    assert s[0] == "# "[0] && s[1] == "# "[1];
    ImageBackInTitle(s, t, i, close, e);
  }
}
