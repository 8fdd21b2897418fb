/**
 The text the route scrapes from a news page. Downloading and parsing the page
 are outside the model: a page is given as what the scraper reads from it once
 scripts, styles, navigation, headers, footers, frames and adverts are
 removed — the text of the first level-one heading, the texts of the
 paragraphs the selector list picks in document order, and the text of the
 whole body. What follows is modelled as written: the heading becomes a
 sentence, paragraphs of more than thirty UTF-16 code units are kept, the
 body is the fallback, whitespace is collapsed, the result is trimmed and cut
 to a thousand code units, and an empty result is replaced by a fixed
 message.
 */
module Extract {
  import opened Text
  import opened Frames

  datatype Page = Page(heading: string, paragraphs: seq<string>, bodyText: string)

  /** A trimmed paragraph is kept only when it is longer than this. */
  const MinParagraphChars: nat := 30

  /** The extracted content is cut to this many UTF-16 code units. */
  const MaxContentChars: nat := 1000

  /** The content returned when nothing readable was found: "Unable to
      extract meaningful content from the URL.". It is written as the three
      pieces its shape is checked on: comparing a fifty-character literal
      against the joined pieces is a costly proof. */
  const Placeholder: string := "Unable to extract" + " meaningful content" + " from the URL."

  /** The words of a heading once it has become a sentence: the last word
      takes the full stop. */
  function TitleWords(heading: string): seq<string> {
    var ws := Words(heading);
    if ws == [] then [] else GlueLast(ws, '.')
  }

  /** A trimmed paragraph is kept when it is longer than
      `MinParagraphChars` code units. */
  predicate IsLong(p: string) {
    Utf16Length(Trim(p)) > MinParagraphChars
  }

  /** The words of the paragraphs that are kept, in order. */
  function KeptWords(ps: seq<string>): seq<string> {
    if |ps| == 0 then []
    else (if IsLong(ps[0]) then Words(ps[0]) else []) + KeptWords(ps[1..])
  }

  /** The words the collected content holds: the heading as a sentence and
      the kept paragraphs, or the body when those give nothing. */
  function ExpectedWords(page: Page): seq<string> {
    var ws := TitleWords(page.heading) + KeptWords(page.paragraphs);
    if ws == [] then Words(page.bodyText) else ws
  }

  /** The heading, trimmed, as a sentence of its own; nothing when the heading
      is blank. */
  function TitlePart(heading: string): (r: string)
    ensures r == "" <==> Words(heading) == []
    ensures Words(r) == TitleWords(heading)
    ensures r == "" || IsWhitespace(r[|r| - 1])
  {
    var t := Trim(heading);
    TrimKeepsWords(heading);
    if t != "" then
      TitleSentenceWords(t);
      t + ". "
    else ""
  }

  /** A text that ends in a visible character, followed by a full stop and
      a space: the full stop joins the last word. */
  lemma {:induction false} TitleSentenceWords(t: string)
    requires t != [] && !IsWhitespace(t[0]) && !IsWhitespace(t[|t| - 1])
    ensures Words(t + ". ") == GlueLast(Words(t), '.')
  {
    WordsGlue(t, '.');
    assert t + ". " == (t + ".") + " ";
    WordsAppend(t + ".", " ");
    assert Words(" ") == [];
  }

  /** The kept paragraphs, each trimmed and followed by a space, in order. */
  function Paragraphs(ps: seq<string>): (r: string)
    ensures r == "" || IsWhitespace(r[|r| - 1])
  {
    if |ps| == 0 then "" else Kept(ps[0]) + Paragraphs(ps[1..])
  }

  /** The paragraphs hold exactly the words of the kept paragraphs. */
  lemma {:induction false} ParagraphsWords(ps: seq<string>)
    ensures Words(Paragraphs(ps)) == KeptWords(ps)
    ensures Paragraphs(ps) == "" <==> KeptWords(ps) == []
    decreases |ps|
  {
    if |ps| > 0 {
      var head, tail := Kept(ps[0]), Paragraphs(ps[1..]);
      ParagraphsWords(ps[1..]);
      KeptWordsOf(ps[0]);
      WordsAppend(head, tail);
    }
  }

  /** One paragraph's contribution: trimmed and followed by a space when it
      is long enough, nothing otherwise. */
  function Kept(p: string): (r: string)
    ensures r == "" || IsWhitespace(r[|r| - 1])
  {
    var t := Trim(p);
    if Utf16Length(t) > MinParagraphChars then t + " " else ""
  }

  /** A paragraph contributes its words when it is long enough and nothing
      otherwise. */
  lemma {:induction false} KeptWordsOf(p: string)
    ensures Words(Kept(p)) == if IsLong(p) then Words(p) else []
    ensures Kept(p) == "" <==> Words(Kept(p)) == []
  {
    var t := Trim(p);
    if IsLong(p) {
      TrimKeepsWords(p);
      WordsAppend(t, " ");
      assert Words(" ") == [];
      assert t != [];
    }
  }

  /** The collected content before normalisation: heading and kept
      paragraphs, or the trimmed body text when those give nothing. Its
      words are the expected ones. */
  function Collected(page: Page): (c: string)
    ensures Words(c) == ExpectedWords(page)
  {
    var title, paragraphs := TitlePart(page.heading), Paragraphs(page.paragraphs);
    ParagraphsWords(page.paragraphs);
    WordsAppend(title, paragraphs);
    var c := title + paragraphs;
    if c == "" then
      TrimKeepsWords(page.bodyText);
      Trim(page.bodyText)
    else c
  }

  /** Whitespace runs and newline runs replaced by single spaces, then the
      ends trimmed: the words of `c`, joined by single spaces. */
  function Normalize(c: string): (r: string)
    ensures NormalForm(r)
    ensures r == Join(Words(c))
  {
    var collapsed := ReplaceRuns(c, AnyWhitespace);
    Collapse(c);
    var r := Trim(ReplaceRuns(collapsed, Newlines));
    TrimKeepsSpacing(collapsed);
    TrimKeepsWords(collapsed);
    NormalJoin(r);
    r
  }

  /** After whitespace runs have become single spaces, the text is spaced by
      single plain spaces, keeps its words, and has no newline left for the
      second replacement. */
  lemma {:induction false} Collapse(c: string)
    ensures var r := ReplaceRuns(c, AnyWhitespace);
      && NoDoubleWhitespace(r) && WhitespaceIsSpace(r) && Words(r) == Words(c)
      && ReplaceRuns(r, Newlines) == r
  {
    var r := ReplaceRuns(c, AnyWhitespace);
    assert WhitespaceIsSpace(r);
    ReplaceRunsKeepsWords(c, false);
    NewlinesGone(r);
  }

  /** The content `fetchNewsContent` returns for a page it could download:
      the expected words joined by single spaces and cut to
      `MaxContentChars` code units, or the fixed message when there are no
      words. */
  function ExtractContent(page: Page): (r: string)
    ensures r != [] && Utf16Length(r) <= MaxContentChars
    ensures !IsWhitespace(r[0]) && NoDoubleWhitespace(r) && WhitespaceIsSpace(r)
    ensures ExpectedWords(page) == [] ==> r == Placeholder
    ensures ExpectedWords(page) != [] ==> r == UnitPrefix(Join(ExpectedWords(page)), MaxContentChars)
  {
    Finish(Collected(page))
  }

  /** Normalisation, the cut to `MaxContentChars` and the fallback message.
      The result is never empty, fits the limit, does not start with
      whitespace, and its whitespace is single plain spaces. */
  function Finish(c: string): (r: string)
    ensures r != [] && Utf16Length(r) <= MaxContentChars
    ensures !IsWhitespace(r[0]) && NoDoubleWhitespace(r) && WhitespaceIsSpace(r)
    ensures Words(c) == [] ==> r == Placeholder
    ensures Words(c) != [] ==> r == UnitPrefix(Join(Words(c)), MaxContentChars)
  {
    var n := Normalize(c);
    var cut := UnitPrefix(n, MaxContentChars);
    NonEmptyCut(c);
    if cut == "" then
      PlaceholderShape();
      Placeholder
    else
      SliceKeepsSpacing(n, 0, |cut|);
      assert cut == n[0..|cut|];
      cut
  }

  /** The cut is empty, and so the placeholder is used, exactly when there
      are no words, that is when the collected content is all whitespace. */
  lemma {:induction false} NonEmptyCut(c: string)
    ensures UnitPrefix(Normalize(c), MaxContentChars) == "" <==> Words(c) == []
    ensures UnitPrefix(Normalize(c), MaxContentChars) == "" <==> AllWhitespace(c)
  {
    var n := Normalize(c);
    var cut := UnitPrefix(n, MaxContentChars);
    NoWordsAllWhitespace(c);
    WordsShape(c);
    WordsJoin(Words(c));
    UnitPrefixLength(n, MaxContentChars);
    if Words(c) == [] {
      assert n == "";
    } else {
      assert n != "";
      assert cut != "";
    }
  }

  /** Paragraphs are taken one by one: the kept text of a list is that of
      its first part followed by that of the rest. */
  lemma {:induction false} ParagraphsAppend(a: seq<string>, b: seq<string>)
    ensures Paragraphs(a + b) == Paragraphs(a) + Paragraphs(b)
    decreases |a|
  {
    if a == [] {
      assert a + b == b;
    } else {
      assert a == [a[0]] + a[1..];
      assert a + b == [a[0]] + (a[1..] + b);
      ParagraphsCons(a[0], a[1..] + b);
      ParagraphsCons(a[0], a[1..]);
      ParagraphsAppend(a[1..], b);
      var h, x, y := Kept(a[0]), Paragraphs(a[1..]), Paragraphs(b);
      ConcatAssoc(h, x, y);
    }
  }

  lemma {:induction false} ParagraphsCons(p: string, ps: seq<string>)
    ensures Paragraphs([p] + ps) == Kept(p) + Paragraphs(ps)
  {
    assert ([p] + ps)[0] == p && ([p] + ps)[1..] == ps;
  }

  /** A paragraph of at most `MinParagraphChars` code units once trimmed,
      wherever it stands, makes no difference to the content. */
  lemma {:induction false} ShortParagraphIgnored(page: Page, i: nat, p: string)
    requires i <= |page.paragraphs| && !IsLong(p)
    ensures var ps := page.paragraphs;
      ExtractContent(page.(paragraphs := ps[..i] + [p] + ps[i..])) == ExtractContent(page)
  {
    var ps := page.paragraphs;
    var longer := page.(paragraphs := ps[..i] + [p] + ps[i..]);
    InsertShortParagraph(ps, i, p);
    SameKeptText(longer, page);
  }

  /** Pages with the same heading, body and kept paragraph text collect the
      same content. */
  lemma SameKeptText(p1: Page, p2: Page)
    requires p1.heading == p2.heading && p1.bodyText == p2.bodyText
    requires Paragraphs(p1.paragraphs) == Paragraphs(p2.paragraphs)
    ensures Collected(p1) == Collected(p2)
  {
  }

  lemma {:induction false} InsertShortParagraph(ps: seq<string>, i: nat, p: string)
    requires i <= |ps| && !IsLong(p)
    ensures Paragraphs(ps[..i] + [p] + ps[i..]) == Paragraphs(ps)
  {
    var x, y := ps[..i], ps[i..];
    assert x + y == ps;
    ParagraphsAppend(x + [p], y);
    ParagraphsAppend(x, [p]);
    ParagraphsAppend(x, y);
    ShortParagraphAlone(p);
    calc {
      Paragraphs(x + [p] + y);
      Paragraphs(x + [p]) + Paragraphs(y);
      Paragraphs(x) + Paragraphs([p]) + Paragraphs(y);
      { assert Paragraphs(x) + "" == Paragraphs(x); }
      Paragraphs(x) + Paragraphs(y);
    }
  }

  lemma {:induction false} ShortParagraphAlone(p: string)
    requires !IsLong(p)
    ensures Paragraphs([p]) == ""
  {
    assert [p][0] == p && [p][1..] == [];
  }

  /** A heading with words opens the content as a sentence of its own. */
  lemma HeadingLeads(page: Page)
    requires Words(page.heading) != []
    ensures Trim(page.heading) + ". " <= Collected(page)
  {
  }

  /** Without a heading with words or a long enough paragraph, the content
      is collected from the body text. */
  lemma {:induction false} BodyFallback(page: Page)
    requires Words(page.heading) == []
    requires forall k :: 0 <= k < |page.paragraphs| ==> !IsLong(page.paragraphs[k])
    ensures Collected(page) == Trim(page.bodyText)
  {
    assert TitlePart(page.heading) == "";
    NothingKept(page.paragraphs);
    assert TitlePart(page.heading) + Paragraphs(page.paragraphs) == "";
  }

  lemma {:induction false} NothingKept(ps: seq<string>)
    requires forall k :: 0 <= k < |ps| ==> !IsLong(ps[k])
    ensures Paragraphs(ps) == ""
    decreases |ps|
  {
    if |ps| > 0 {
      NothingKept(ps[1..]);
    }
  }

  /** Content that fits the limit is exactly the expected words joined by
      single spaces, and splitting it at whitespace gives those words back. */
  lemma {:induction false} ContentWhole(page: Page)
    requires ExpectedWords(page) != []
    requires Utf16Length(Join(ExpectedWords(page))) <= MaxContentChars
    ensures ExtractContent(page) == Join(ExpectedWords(page))
    ensures Words(ExtractContent(page)) == ExpectedWords(page)
  {
    var ws := ExpectedWords(page);
    UnitPrefixLength(Join(ws), MaxContentChars);
    assert Words(Collected(page)) == ws;
    WordsShape(Collected(page));
    WordsJoin(ws);
  }

  /** Every frame cut from extracted content is single-spaced, so its
      display lines join back to it. */
  lemma {:induction false} ExtractedFramesSingleSpaced(page: Page)
    ensures forall k :: 0 <= k < |CreateFrames(ExtractContent(page))| ==>
      SingleSpaced(CreateFrames(ExtractContent(page))[k].text)
  {
    var r := ExtractContent(page);
    CleanTextFrames(r);
  }

  /** After every whitespace run has become a space, there is no newline
      left to replace. */
  lemma {:induction false} NewlinesGone(collapsed: string)
    requires WhitespaceIsSpace(collapsed)
    ensures ReplaceRuns(collapsed, Newlines) == collapsed
  {
    assert forall k :: 0 <= k < |collapsed| ==> !InClass(collapsed[k], Newlines);
  }

  lemma FirstPieceSpaced()
    ensures var a := "Unable to extract";
      NoDoubleWhitespace(a) && WhitespaceIsSpace(a) && !IsWhitespace(a[|a| - 1])
  {
    var a0 := "Unable";
    var a1 := a0 + " " + "to";
    SpaceThenWord(a0, "to");
    SpaceThenWord(a1, "extract");
    assert "Unable to extract" == a1 + " " + "extract";
  }

  lemma SecondPieceSpaced()
    ensures var b := " meaningful content";
      NoDoubleWhitespace(b) && WhitespaceIsSpace(b) && !IsWhitespace(b[|b| - 1])
  {
    var a1 := "" + " " + "meaningful";
    SpaceThenWord("", "meaningful");
    SpaceThenWord(a1, "content");
    assert " meaningful content" == a1 + " " + "content";
  }

  lemma ThirdPieceSpaced()
    ensures NoDoubleWhitespace(" from the URL.") && WhitespaceIsSpace(" from the URL.")
  {
    var a1 := "" + " " + "from";
    var a2 := a1 + " " + "the";
    SpaceThenWord("", "from");
    SpaceThenWord(a1, "the");
    SpaceThenWord(a2, "URL.");
    assert " from the URL." == a2 + " " + "URL.";
  }

  lemma PiecesShape()
    ensures NoTerminator("Unable to extract") && NoTerminator(" meaningful content")
    ensures IsSentence(" from the URL.")
  {
  }

  /** The placeholder fits the limit, starts with a letter and is spaced by
      single plain spaces. */
  lemma PlaceholderShape()
    ensures Utf16Length(Placeholder) <= MaxContentChars && !IsWhitespace(Placeholder[0])
    ensures NoDoubleWhitespace(Placeholder) && WhitespaceIsSpace(Placeholder)
  {
    var a, b, c := "Unable to extract", " meaningful content", " from the URL.";
    FirstPieceSpaced();
    SecondPieceSpaced();
    ThirdPieceSpaced();
    SpacingAppend(a, b);
    assert (a + b)[|a + b| - 1] == b[|b| - 1];
    SpacingAppend(a + b, c);
    assert (a + b + c)[0] == a[0];
    Utf16Bound(Placeholder);
  }

  /** The placeholder is a single sentence: it ends with a full stop. */
  lemma PlaceholderIsSentence()
    ensures IsSentence(Placeholder) && !IsWhitespace(Placeholder[0])
  {
    var a, b, c := "Unable to extract", " meaningful content", " from the URL.";
    PlaceholderShape();
    PiecesShape();
    PlainThenSentence(b, c);
    PlainThenSentence(a, b + c);
    assert a + (b + c) == a + b + c;
  }

  /** When nothing could be extracted, the video is one three-second frame
      holding the whole message. */
  lemma PlaceholderOneFrame()
    ensures CreateFrames(Placeholder) == [Frame(Placeholder, SentenceSeconds)]
  {
    PlaceholderIsSentence();
    OneSentenceOneFrame(Placeholder);
  }

}
