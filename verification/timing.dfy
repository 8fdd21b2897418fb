/**
 Keyframe timing of the generated animation: one loop lasts the sum of the
 frame durations, and a running clock gives each frame the stretch of the
 loop during which it is shown. Stretches are kept in whole seconds from the
 start of the loop; the percentages written into the keyframes are derived
 from them by `Percent`.
 */
module Timing {
  import opened Frames

  /** The length of one loop: the sum of the frame durations, at least one
      second per frame. */
  function Total(frames: seq<Frame>): (t: nat)
    ensures t >= |frames|
  {
    if |frames| == 0 then 0 else frames[0].duration + Total(frames[1..])
  }

  lemma {:induction false} TotalAppend(a: seq<Frame>, b: seq<Frame>)
    ensures Total(a + b) == Total(a) + Total(b)
    decreases |a|
  {
    if |a| == 0 {
      assert a + b == b;
    } else {
      assert (a + b)[1..] == a[1..] + b;
      TotalAppend(a[1..], b);
    }
  }

  /** Frames that all last `d` seconds take `d` seconds each. */
  lemma {:induction false} UniformTotal(frames: seq<Frame>, d: Seconds)
    requires forall i :: 0 <= i < |frames| ==> frames[i].duration == d
    ensures Total(frames) == d * |frames|
    decreases |frames|
  {
    if |frames| > 0 {
      UniformTotal(frames[1..], d);
    }
  }

  /** The stretch of the loop during which a frame is visible: from `start`
      seconds after the loop begins up to `end` seconds. */
  datatype Window = Window(start: nat, end: nat)

  /** Each window closes exactly where the next one opens (neighbours named
      by two positions, as in `NoDoubleWhitespace`). */
  ghost predicate Contiguous(ws: seq<Window>) {
    forall i, j :: 0 <= i < j < |ws| && j == i + 1 ==> ws[i].end == ws[j].start
  }

  /** The `forEach` over the frames with the running `currentTime` as
      `elapsed`: each frame is given the stretch from the current time to the
      current time plus its duration, and the clock advances by the
      duration. */
  function WindowsFrom(rest: seq<Frame>, elapsed: nat): (ws: seq<Window>)
    ensures |ws| == |rest|
    decreases |rest|
  {
    if |rest| == 0 then []
    else
      var d := rest[0].duration;
      [Window(elapsed, elapsed + d)] + WindowsFrom(rest[1..], elapsed + d)
  }

  /** The windows of all frames: the first opens when the loop starts, the
      last closes when it ends, each lasts as long as its frame, and each
      closes where the next opens. */
  function FrameWindows(frames: seq<Frame>): (ws: seq<Window>)
    ensures |ws| == |frames|
    ensures |ws| > 0 ==> ws[0].start == 0 && ws[|ws| - 1].end == Total(frames)
    ensures forall k {:trigger ws[k]} :: 0 <= k < |ws| ==> ws[k].end == ws[k].start + frames[k].duration
    ensures Contiguous(ws)
  {
    FrameWindowsShape(frames);
    WindowsFrom(frames, 0)
  }

  /** The running clock at frame `k` is `elapsed` plus the sum of the
      durations before it. */
  lemma {:induction false} WindowsFromAt(rest: seq<Frame>, elapsed: nat, k: nat)
    requires k < |rest|
    ensures var before := elapsed + Total(rest[..k]);
      WindowsFrom(rest, elapsed)[k] == Window(before, before + rest[k].duration)
    decreases k
  {
    var d := rest[0].duration;
    if k == 0 {
      assert rest[..k] == [];
    } else {
      WindowsFromShift(rest, elapsed, k);
      WindowsFromAt(rest[1..], elapsed + d, k - 1);
      TotalOfPrefix(rest, k);
    }
  }

  /** Past the first frame, the windows are those of the remaining frames
      with the clock advanced by the first duration. */
  lemma {:induction false} WindowsFromShift(rest: seq<Frame>, elapsed: nat, k: nat)
    requires 0 < k < |rest|
    ensures WindowsFrom(rest, elapsed)[k] == WindowsFrom(rest[1..], elapsed + rest[0].duration)[k - 1]
  {
    var d := rest[0].duration;
    assert WindowsFrom(rest, elapsed) == [Window(elapsed, elapsed + d)] + WindowsFrom(rest[1..], elapsed + d);
  }

  lemma {:induction false} TotalOfPrefix(frames: seq<Frame>, k: nat)
    requires 0 < k <= |frames|
    ensures Total(frames[..k]) == frames[0].duration + Total(frames[1..][..k - 1])
  {
    assert frames[..k][1..] == frames[1..][..k - 1];
  }

  /** The time before frame `k + 1` is the time before frame `k` plus its
      duration. */
  lemma {:induction false} TotalStep(frames: seq<Frame>, k: nat)
    requires k < |frames|
    ensures Total(frames[..k + 1]) == Total(frames[..k]) + frames[k].duration
  {
    assert frames[..k + 1] == frames[..k] + [frames[k]];
    TotalAppend(frames[..k], [frames[k]]);
    assert [frames[k]][1..] == [];
  }

  /** Frame `k` is shown from the time taken by the frames before it to that
      time plus its own duration. */
  lemma {:induction false} WindowAt(frames: seq<Frame>, k: nat)
    requires k < |frames|
    ensures FrameWindows(frames)[k] == Window(Total(frames[..k]), Total(frames[..k]) + frames[k].duration)
  {
    WindowsFromAt(frames, 0, k);
  }

  lemma {:induction false} FrameWindowsShape(frames: seq<Frame>)
    ensures var ws := WindowsFrom(frames, 0);
      && (|ws| > 0 ==> ws[0].start == 0 && ws[|ws| - 1].end == Total(frames))
      && (forall k {:trigger ws[k]} :: 0 <= k < |ws| ==> ws[k].end == ws[k].start + frames[k].duration)
      && Contiguous(ws)
  {
    var ws := WindowsFrom(frames, 0);
    var n := |frames|;
    forall k | 0 <= k < n
      ensures ws[k].end == ws[k].start + frames[k].duration
    {
      WindowsFromAt(frames, 0, k);
    }
    forall i, j | 0 <= i < j < n && j == i + 1
      ensures ws[i].end == ws[j].start
    {
      WindowsFromAt(frames, 0, i);
      WindowsFromAt(frames, 0, j);
      TotalStep(frames, i);
    }
    if n > 0 {
      WindowsFromAt(frames, 0, 0);
      assert frames[..0] == [];
      WindowsFromAt(frames, 0, n - 1);
      TotalStep(frames, n - 1);
      assert frames[..n] == frames;
    }
  }

  /** `elapsed / total * 100`, exactly: the share of the loop, in percent,
      that `elapsed` seconds stand for. */
  function Percent(elapsed: nat, total: nat): real
    requires total > 0
  {
    (elapsed as real / total as real) * 100.0
  }

  /** The start of the loop is 0% and its end 100%. */
  lemma {:induction false} PercentEnds(total: nat)
    requires total > 0
    ensures Percent(0, total) == 0.0 && Percent(total, total) == 100.0
  {
    assert total as real / total as real == 1.0;
  }

  /** Percentages add up like the times they stand for. */
  lemma {:induction false} PercentAdd(a: nat, b: nat, total: nat)
    requires total > 0
    ensures Percent(a + b, total) == Percent(a, total) + Percent(b, total)
  {
    assert (a + b) as real / total as real == a as real / total as real + b as real / total as real;
  }

  /** A share does not change when both times are scaled by the same
      factor. */
  lemma {:induction false} PercentCancel(elapsed: nat, total: nat, d: nat)
    requires total > 0 && d > 0
    ensures Percent(d * elapsed, d * total) == Percent(elapsed, total)
  {
    var q := elapsed as real / total as real;
    assert (d * elapsed) as real == d as real * elapsed as real;
    assert (d * total) as real == d as real * total as real;
    assert q * (d as real * total as real) == d as real * elapsed as real;
  }
}
