/**
 The POST handler of the video route: it reads `newsUrl` and `customText` from
 the JSON body, takes its text from the article when a URL is given and from
 the custom text otherwise, refuses a request with neither, and answers with
 the video made from that text. Downloading the article is a parameter of the
 handler, so that what the handler does with each possible outcome is stated
 for every outcome.
 */
module Handler {
  import opened Text
  import opened Frames
  import opened Timing
  import opened Wrap
  import opened Render
  import opened Extract

  /** A string member of the JSON body, or its absence. */
  datatype Field = Missing | Given(value: string)

  /** JavaScript truthiness of the member: present and not the empty string. */
  predicate Truthy(f: Field) {
    f.Given? && f.value != ""
  }

  /** The parsed request body, or the message of the error parsing it raised. */
  datatype Body = Json(newsUrl: Field, customText: Field) | Malformed(message: string)

  /** What a failed download threw: an `Error` with its message, or some
      other value. */
  datatype Thrown = ErrorObject(message: string) | OtherValue

  /** The outcome of downloading and parsing the article at a URL. */
  datatype Fetch = Fetched(page: Page) | FetchFailed(thrown: Thrown)

  /** The JSON reply: the video, or an error message with its HTTP status. */
  datatype Response = Ok(video: Video) | Failure(status: nat, message: string)

  /** Where the text of the video comes from. */
  datatype Source = Article(url: string) | Custom(text: string) | NoSource

  const BadRequest: nat := 400
  const ServerError: nat := 500
  const MissingInputMessage: string := "Please provide either newsUrl or customText"
  const FetchErrorPrefix: string := "Failed to fetch news content: "
  const UnknownError: string := "Unknown error"

  /** The choice of text: a truthy URL wins, a truthy custom text comes
      next, and neither gives no source. */
  function SelectSource(newsUrl: Field, customText: Field): (s: Source)
    ensures s.Article? <==> Truthy(newsUrl)
    ensures s.Custom? <==> !Truthy(newsUrl) && Truthy(customText)
    ensures s.Article? ==> s.url == newsUrl.value
    ensures s.Custom? ==> s.text == customText.value && s.text != ""
  {
    if Truthy(newsUrl) then Article(newsUrl.value)
    else if Truthy(customText) then Custom(customText.value)
    else NoSource
  }

  /** The message of the error `fetchNewsContent` rethrows. */
  function FetchErrorMessage(t: Thrown): (m: string)
    ensures FetchErrorPrefix <= m
  {
    FetchErrorPrefix + match t
      case ErrorObject(message) => message
      case OtherValue => UnknownError
  }

  /** The video for a text: its frames, rendered. */
  function VideoOf(text: string): (v: Video)
    ensures 1 <= |v.blocks| <= MaxFrames && |v.animations| == |v.blocks|
    ensures forall k :: 0 <= k < |v.animations| ==> v.animations[k].loopSeconds == SentenceSeconds * |v.blocks|
  {
    var frames := CreateFrames(text);
    UniformTotal(frames, SentenceSeconds);
    GenerateVideo(frames)
  }

  /** `POST(request)`, with the download as `fetch`. A request is refused
      with 400 exactly when its body is JSON without a truthy `newsUrl` or
      `customText`; every other failure is a 500; a video has one to ten
      frames of three seconds each. */
  function Handle(body: Body, fetch: string -> Fetch): (resp: Response)
    ensures resp.Failure? ==> resp.status == BadRequest || resp.status == ServerError
    ensures (resp.Failure? && resp.status == BadRequest) <==>
      body.Json? && !Truthy(body.newsUrl) && !Truthy(body.customText)
    ensures resp.Ok? ==> 1 <= |resp.video.blocks| <= MaxFrames
  {
    match body
    case Malformed(message) => Failure(ServerError, message)
    case Json(newsUrl, customText) =>
      match SelectSource(newsUrl, customText)
      case NoSource => Failure(BadRequest, MissingInputMessage)
      case Custom(text) => Ok(VideoOf(text))
      case Article(url) =>
        match fetch(url)
        case FetchFailed(thrown) => Failure(ServerError, FetchErrorMessage(thrown))
        case Fetched(page) => Ok(VideoOf(ExtractContent(page)))
  }

  /** A truthy `newsUrl` takes precedence: `customText` makes no difference. */
  lemma UrlWins(newsUrl: Field, t1: Field, t2: Field, fetch: string -> Fetch)
    requires Truthy(newsUrl)
    ensures Handle(Json(newsUrl, t1), fetch) == Handle(Json(newsUrl, t2), fetch)
  {
  }

  /** Without a truthy `newsUrl` nothing is downloaded: the answer does not
      depend on the downloader. */
  lemma NoFetchWithoutUrl(newsUrl: Field, customText: Field, f: string -> Fetch, g: string -> Fetch)
    requires !Truthy(newsUrl)
    ensures Handle(Json(newsUrl, customText), f) == Handle(Json(newsUrl, customText), g)
  {
  }

  /** An empty string counts as no value at all, in either member. */
  lemma EmptyIsMissing(newsUrl: Field, customText: Field, fetch: string -> Fetch)
    ensures Handle(Json(Given(""), customText), fetch) == Handle(Json(Missing, customText), fetch)
    ensures Handle(Json(newsUrl, Given("")), fetch) == Handle(Json(newsUrl, Missing), fetch)
  {
  }

  /** Neither member truthy: 400 with the fixed message. */
  lemma MissingInput(newsUrl: Field, customText: Field, fetch: string -> Fetch)
    requires !Truthy(newsUrl) && !Truthy(customText)
    ensures Handle(Json(newsUrl, customText), fetch) == Failure(BadRequest, MissingInputMessage)
  {
  }

  /** A failed download is a 500 whose message names the download and carries
      the thrown message, or "Unknown error" for a thrown non-error. */
  lemma FetchFailure(url: string, customText: Field, fetch: string -> Fetch)
    requires url != "" && fetch(url).FetchFailed?
    ensures var resp := Handle(Json(Given(url), customText), fetch);
      && resp.Failure? && resp.status == ServerError
      && resp.message == FetchErrorPrefix +
           (if fetch(url).thrown.ErrorObject? then fetch(url).thrown.message else UnknownError)
  {
  }

  /** A custom text alone is made into the video of its frames. */
  lemma CustomHandled(text: string, fetch: string -> Fetch)
    requires text != ""
    ensures Handle(Json(Missing, Given(text)), fetch) == Ok(GenerateVideo(CreateFrames(text)))
  {
  }

  /** A downloaded article alone is made into the video of the frames of its
      extracted content. */
  lemma ArticleHandled(url: string, page: Page, fetch: string -> Fetch)
    requires url != "" && fetch(url) == Fetched(page)
    ensures Handle(Json(Given(url), Missing), fetch) == Ok(GenerateVideo(CreateFrames(ExtractContent(page))))
  {
  }

  /** A custom text becomes a video of `n` frames of one to ten, looping
      every `3n` seconds, where frame `k` is shown from second `3k` to second
      `3k + 3`, that is from `k/n` to `(k+1)/n` of the loop, and shows its
      frame's text wrapped to `LineWidth`. */
  lemma {:induction false} CustomTextVideo(text: string, k: nat, fetch: string -> Fetch)
    requires text != ""
    requires k < |CreateFrames(text)|
    ensures var resp := Handle(Json(Missing, Given(text)), fetch);
      var n := |CreateFrames(text)|;
      && resp == Ok(GenerateVideo(CreateFrames(text)))
      && resp.video.animations[k].loopSeconds == SentenceSeconds * n
      && resp.video.animations[k].window == Slot(SentenceSeconds, k)
      && StartPercent(resp.video.animations[k]) == Percent(k, n)
      && EndPercent(resp.video.animations[k]) == Percent(k + 1, n)
      && resp.video.blocks[k].lines == WrapText(CreateFrames(text)[k].text, LineWidth)
  {
    CustomHandled(text, fetch);
    EvenSlots(CreateFrames(text), SentenceSeconds, k);
  }

  /** For a downloaded article, frame `k` shows the extracted content's k-th
      frame, and its display lines joined with spaces give back that frame's
      text: nothing of the article text is lost on screen. */
  lemma {:induction false} ArticleLinesRoundTrip(url: string, page: Page, k: nat, fetch: string -> Fetch)
    requires url != "" && fetch(url) == Fetched(page)
    requires k < |CreateFrames(ExtractContent(page))|
    ensures var resp := Handle(Json(Given(url), Missing), fetch);
      var frames := CreateFrames(ExtractContent(page));
      && resp == Ok(GenerateVideo(frames))
      && Join(resp.video.blocks[k].lines) == frames[k].text
  {
    var frames := CreateFrames(ExtractContent(page));
    ArticleHandled(url, page, fetch);
    ExtractedFramesSingleSpaced(page);
    DisplayedLinesRoundTrip(frames, k);
  }

  /** An article that shows nothing becomes a one-frame video of the fixed
      message. */
  lemma {:induction false} EmptyArticleVideo(url: string, page: Page, fetch: string -> Fetch)
    requires url != "" && fetch(url) == Fetched(page) && ExpectedWords(page) == []
    ensures Handle(Json(Given(url), Missing), fetch) == Ok(GenerateVideo([Frame(Placeholder, SentenceSeconds)]))
  {
    ArticleHandled(url, page, fetch);
    PlaceholderOneFrame();
  }
}
