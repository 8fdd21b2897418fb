/**
 The page the route renders for a list of frames, kept as the two things that
 matter about it: per frame, one looping fade animation with the window of the
 loop during which the frame is visible, and one block of display lines.
 Styling that does not depend on the frames is fixed text and is not modelled.
 */
module Render {
  import opened Text
  import opened Wrap
  import opened Frames
  import opened Timing

  /** Frame texts are wrapped to lines of at most this many UTF-16 code
      units. */
  const LineWidth := 50

  /** The `.frame-k` rule with its `fadeInOut-k` keyframes: an animation of
      `loopSeconds` seconds, repeated forever, that shows frame `index` during
      `window`, measured in seconds from the start of the loop. */
  datatype Animation = Animation(index: nat, loopSeconds: nat, window: Window)

  /** The `startPercent` of the keyframes: where, in percent of the loop, the
      frame appears. */
  function StartPercent(a: Animation): real
    requires a.loopSeconds > 0
  {
    Percent(a.window.start, a.loopSeconds)
  }

  /** The `endPercent` of the keyframes: where, in percent of the loop, the
      frame disappears. */
  function EndPercent(a: Animation): real
    requires a.loopSeconds > 0
  {
    Percent(a.window.end, a.loopSeconds)
  }

  /** The `frame-k` block of the page body, one line element per entry of
      `lines`. */
  datatype FrameBlock = FrameBlock(index: nat, lines: seq<string>)

  /** The generated page: the animations in the style sheet and the frame
      blocks in the body, both in frame order. */
  datatype Video = Video(animations: seq<Animation>, blocks: seq<FrameBlock>)

  /** The animation rules for consecutive windows, numbered from `first`. */
  function AnimationsFrom(ws: seq<Window>, loopSeconds: nat, first: nat): (anims: seq<Animation>)
    ensures |anims| == |ws|
    ensures forall k {:trigger anims[k]} :: 0 <= k < |ws| ==> anims[k] == Animation(first + k, loopSeconds, ws[k])
    decreases |ws|
  {
    if |ws| == 0 then []
    else [Animation(first, loopSeconds, ws[0])] + AnimationsFrom(ws[1..], loopSeconds, first + 1)
  }

  /** The frame blocks for consecutive frames, numbered from `first`, each
      holding its frame's text wrapped to `LineWidth`. */
  function BlocksFrom(frames: seq<Frame>, first: nat): (blocks: seq<FrameBlock>)
    ensures |blocks| == |frames|
    ensures forall k {:trigger blocks[k]} :: 0 <= k < |frames| ==> blocks[k] == FrameBlock(first + k, WrapText(frames[k].text, LineWidth))
    decreases |frames|
  {
    if |frames| == 0 then []
    else [FrameBlock(first, WrapText(frames[0].text, LineWidth))] + BlocksFrom(frames[1..], first + 1)
  }

  /** `generateVideoHTML(frames)`. Frame `k` gets animation `k` and block
      `k`; every animation loops over the summed durations; the first window
      opens when the loop starts, the last closes when it ends, each lasts as
      long as its frame and closes where the next opens; every displayed line
      is non-empty and at most `LineWidth` code units long unless it is one
      unbroken word. */
  function GenerateVideo(frames: seq<Frame>): (v: Video)
    ensures |v.animations| == |frames| && |v.blocks| == |frames|
    ensures forall k :: 0 <= k < |frames| ==>
      && v.animations[k].index == k
      && v.animations[k].loopSeconds == Total(frames)
      && v.animations[k].window.end == v.animations[k].window.start + frames[k].duration
    ensures forall k :: 0 <= k < |frames| ==>
      && v.blocks[k].index == k
      && v.blocks[k].lines == WrapText(frames[k].text, LineWidth)
      && GoodLines(v.blocks[k].lines, LineWidth)
    ensures |frames| > 0 ==>
      v.animations[0].window.start == 0 && v.animations[|frames| - 1].window.end == Total(frames)
    ensures forall i, j :: 0 <= i < j < |frames| && j == i + 1 ==> v.animations[i].window.end == v.animations[j].window.start
  {
    var ws := FrameWindows(frames);
    var anims := AnimationsFrom(ws, Total(frames), 0);
    AnimationsHandOver(ws, Total(frames), anims);
    Video(anims, BlocksFrom(frames, 0))
  }

  /** Animations over contiguous windows close where the next one opens. */
  lemma {:induction false} AnimationsHandOver(ws: seq<Window>, loopSeconds: nat, anims: seq<Animation>)
    requires Contiguous(ws) && anims == AnimationsFrom(ws, loopSeconds, 0)
    ensures forall i, j :: 0 <= i < j < |anims| && j == i + 1 ==> anims[i].window.end == anims[j].window.start
  {
    forall i, j | 0 <= i < j < |anims| && j == i + 1
      ensures anims[i].window.end == anims[j].window.start
    {
      assert anims[i].window == ws[i] && anims[j].window == ws[j];
    }
  }

  /** The keyframes of the first frame start at 0% of the loop and those of
      the last frame end at 100%. */
  lemma {:induction false} KeyframesSpanLoop(frames: seq<Frame>)
    requires |frames| > 0
    ensures var v := GenerateVideo(frames);
      && StartPercent(v.animations[0]) == 0.0
      && EndPercent(v.animations[|frames| - 1]) == 100.0
  {
    PercentEnds(Total(frames));
  }

  /** Frame `k` is visible from the moment the frames before it have had
      their time to the moment its own duration has passed. */
  lemma {:induction false} FrameShownInItsShare(frames: seq<Frame>, k: nat)
    requires k < |frames|
    ensures var before := Total(frames[..k]);
      && GenerateVideo(frames).animations[k].window == Window(before, before + frames[k].duration)
      && StartPercent(GenerateVideo(frames).animations[k]) == Percent(before, Total(frames))
  {
    WindowAt(frames, k);
  }

  /** Frame `k` is visible for its duration's share of the loop. */
  lemma {:induction false} FrameShare(frames: seq<Frame>, k: nat)
    requires k < |frames|
    ensures var a := GenerateVideo(frames).animations[k];
      EndPercent(a) - StartPercent(a) == Percent(frames[k].duration, Total(frames))
  {
    var v := GenerateVideo(frames);
    var a := v.animations[k];
    var start, d, total := a.window.start, frames[k].duration, Total(frames);
    assert a.loopSeconds == total && a.window.end == start + d;
    PercentAdd(start, d, total);
    assert EndPercent(a) == Percent(start + d, total);
    assert StartPercent(a) == Percent(start, total);
  }

  /** How much of the loop, in percent, the animations show their frames,
      added up. */
  function ShownPercent(anims: seq<Animation>): real
    requires forall k :: 0 <= k < |anims| ==> anims[k].loopSeconds > 0
  {
    if |anims| == 0 then 0.0
    else (EndPercent(anims[0]) - StartPercent(anims[0])) + ShownPercent(anims[1..])
  }

  /** Animations that hand over one to the next show, added up, the stretch
      from the first one's start to the last one's end. */
  lemma {:induction false} HandOver(anims: seq<Animation>)
    requires |anims| > 0 && forall k :: 0 <= k < |anims| ==> anims[k].loopSeconds > 0
    requires forall i, j :: 0 <= i < j < |anims| && j == i + 1 ==> EndPercent(anims[i]) == StartPercent(anims[j])
    ensures ShownPercent(anims) == EndPercent(anims[|anims| - 1]) - StartPercent(anims[0])
    decreases |anims|
  {
    var rest := anims[1..];
    if |anims| == 1 {
      assert rest == [];
    } else {
      assert forall i :: 0 <= i < |rest| ==> rest[i] == anims[i + 1];
      HandOver(rest);
      assert EndPercent(anims[0]) == StartPercent(anims[1]);
    }
  }

  /** Together the frames are shown for exactly the whole loop: their shares
      add up to 100%. */
  lemma {:induction false} SharesFillLoop(frames: seq<Frame>)
    requires |frames| > 0
    ensures ShownPercent(GenerateVideo(frames).animations) == 100.0
  {
    var anims := GenerateVideo(frames).animations;
    KeyframesSpanLoop(frames);
    HandOver(anims);
  }

  /** No word of a single-spaced frame text is lost, reordered or split on
      screen: its lines, joined with spaces, are the text. */
  lemma {:induction false} DisplayedLinesRoundTrip(frames: seq<Frame>, k: nat)
    requires k < |frames| && SingleSpaced(frames[k].text)
    ensures Join(GenerateVideo(frames).blocks[k].lines) == frames[k].text
  {
    WrapRoundTrip(frames[k].text, LineWidth);
  }

  /** A single-spaced frame text of at most `LineWidth` code units is shown
      on one line. */
  lemma {:induction false} ShortFrameOneLine(frames: seq<Frame>, k: nat)
    requires k < |frames| && SingleSpaced(frames[k].text) && Utf16Length(frames[k].text) <= LineWidth
    ensures GenerateVideo(frames).blocks[k].lines == [frames[k].text]
  {
    ShortTextOneLine(frames[k].text, LineWidth);
  }

  /** With every frame lasting `d` seconds, the loop lasts `d` seconds per
      frame and frame `k` of `n` owns exactly the k-th of `n` equal slots,
      from `k/n` to `(k+1)/n` of the loop. */
  lemma {:induction false} EvenSlots(frames: seq<Frame>, d: Seconds, k: nat)
    requires k < |frames|
    requires forall i :: 0 <= i < |frames| ==> frames[i].duration == d
    ensures var a := GenerateVideo(frames).animations[k];
      && a.loopSeconds == d * |frames|
      && a.window == Slot(d, k)
      && StartPercent(a) == Percent(k, |frames|)
      && EndPercent(a) == Percent(k + 1, |frames|)
  {
    var a := GenerateVideo(frames).animations[k];
    UniformTotal(frames, d);
    EvenWindow(frames, d, k);
    SlotPercents(a, d, k, |frames|);
  }

  lemma {:induction false} EvenWindow(frames: seq<Frame>, d: Seconds, k: nat)
    requires k < |frames|
    requires forall i :: 0 <= i < |frames| ==> frames[i].duration == d
    ensures FrameWindows(frames)[k] == Slot(d, k)
  {
    var before := frames[..k];
    assert forall i :: 0 <= i < |before| ==> before[i].duration == d;
    UniformTotal(before, d);
    WindowAt(frames, k);
  }

  /** Slot `k` of a loop cut into slots of `d` seconds. */
  function Slot(d: Seconds, k: nat): Window {
    Window(d * k, d * k + d)
  }

  /** An animation of `n` slots of `d` seconds that is shown during slot `k`
      runs from `k/n` to `(k+1)/n` of the loop. */
  lemma {:induction false} SlotPercents(a: Animation, d: Seconds, k: nat, n: nat)
    requires n > 0 && a.loopSeconds == d * n && a.window == Slot(d, k)
    ensures StartPercent(a) == Percent(k, n) && EndPercent(a) == Percent(k + 1, n)
  {
    PercentCancel(k, n, d);
    PercentCancel(k + 1, n, d);
  }
}
