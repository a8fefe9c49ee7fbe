/**
 The aggregate energy of one audio frame and the emblem scale derived from it
 (`draw` in src/canvas.js, the `showCircles` branch).
 */
module Energy {
  import opened JsNumbers

  /** Sum of the samples, accumulated front to back as the source loop does. */
  function Sum(s: seq<byte>): (total: int)
    ensures 0 <= total <= 255 * |s|
  {
    if |s| == 0 then 0 else Sum(s[..|s| - 1]) + s[|s| - 1]
  }

  /** `percent`: the mean sample, normalised by the full-scale value 255. */
  function Percent(frame: seq<byte>): (p: real)
    requires |frame| > 0
    ensures 0.0 <= p <= 1.0
  {
    var total := Sum(frame);
    var d := (255 * |frame|) as real;
    DivideMonotone(total as real, d, d);
    DivideMonotone(0.0, total as real, d);
    total as real / d
  }

  /** The uniform scale applied to the emblem image. */
  function EmblemScale(percent: real): real {
    1.0 + percent * 1.2
  }

  /** The loop of the source: add every sample into `percent`, then divide
      once by `length * 255`. */
  method AccumulatePercent(frame: seq<byte>) returns (percent: real)
    requires |frame| > 0
    ensures percent == Percent(frame)
  {
    percent := 0.0;
    var i := 0;
    while i < |frame|
      invariant 0 <= i <= |frame|
      invariant percent == Sum(frame[..i]) as real
    {
      assert frame[..i + 1][..i] == frame[..i];
      percent := percent + frame[i] as real;
      i := i + 1;
    }
    assert frame[..|frame|] == frame;
    percent := percent / (255 * |frame|) as real;
  }

  /** The sum is zero exactly when every sample is zero. */
  lemma {:induction false} SumZeroIff(s: seq<byte>)
    ensures Sum(s) == 0 <==> forall k :: 0 <= k < |s| ==> s[k] == 0
  {
    if |s| > 0 {
      var init := s[..|s| - 1];
      SumZeroIff(init);
      assert forall k :: 0 <= k < |init| ==> init[k] == s[k];
      if Sum(s) == 0 {
        forall k | 0 <= k < |s| ensures s[k] == 0 {
          if k < |s| - 1 {
            assert s[k] == init[k];
          }
        }
      }
    }
  }

  /** The sum reaches `255 * |s|` exactly when every sample is 255. */
  lemma {:induction false} SumFullIff(s: seq<byte>)
    ensures Sum(s) == 255 * |s| <==> forall k :: 0 <= k < |s| ==> s[k] == 255
  {
    if |s| > 0 {
      var init := s[..|s| - 1];
      SumFullIff(init);
      assert forall k :: 0 <= k < |init| ==> init[k] == s[k];
      if Sum(s) == 255 * |s| {
        forall k | 0 <= k < |s| ensures s[k] == 255 {
          if k < |s| - 1 {
            assert s[k] == init[k];
          }
        }
      }
    }
  }

  /** Louder samples never lower the sum. */
  lemma {:induction false} SumMonotone(a: seq<byte>, b: seq<byte>)
    requires |a| == |b|
    requires forall k :: 0 <= k < |a| ==> a[k] <= b[k]
    ensures Sum(a) <= Sum(b)
  {
    if |a| > 0 {
      var n := |a| - 1;
      assert forall k :: 0 <= k < n ==> a[..n][k] == a[k] && b[..n][k] == b[k];
      SumMonotone(a[..n], b[..n]);
    }
  }

  /** A silent frame has energy 0 and a frame at full scale has energy 1;
      no other frame reaches either end. */
  lemma PercentExtremes(frame: seq<byte>)
    requires |frame| > 0
    ensures Percent(frame) == 0.0 <==> forall k :: 0 <= k < |frame| ==> frame[k] == 0
    ensures Percent(frame) == 1.0 <==> forall k :: 0 <= k < |frame| ==> frame[k] == 255
  {
    SumZeroIff(frame);
    SumFullIff(frame);
    DivideExtremes(Sum(frame) as real, (255 * |frame|) as real);
  }

  lemma DivideExtremes(x: real, d: real)
    requires d > 0.0
    ensures x / d == 0.0 <==> x == 0.0
    ensures x / d == 1.0 <==> x == d
  {
    assert (x / d) * d == x;
  }

  /** Energy is monotone in every sample. */
  lemma PercentMonotone(a: seq<byte>, b: seq<byte>)
    requires |a| == |b| > 0
    requires forall k :: 0 <= k < |a| ==> a[k] <= b[k]
    ensures Percent(a) <= Percent(b)
  {
    SumMonotone(a, b);
    DivideMonotone(Sum(a) as real, Sum(b) as real, (255 * |a|) as real);
  }

  lemma DivideMonotone(x: real, y: real, d: real)
    requires d > 0.0 && x <= y
    ensures x / d <= y / d
  {
    assert y / d - x / d == (y - x) / d;
  }

  /** The emblem is drawn between its natural size and 2.2 times it: exactly
      1 for a silent frame and exactly 2.2 for a full-scale frame. */
  lemma EmblemScaleRange(frame: seq<byte>)
    requires |frame| > 0
    ensures 1.0 <= EmblemScale(Percent(frame)) <= 2.2
    ensures EmblemScale(Percent(frame)) == 1.0 <==> forall k :: 0 <= k < |frame| ==> frame[k] == 0
    ensures EmblemScale(Percent(frame)) == 2.2 <==> forall k :: 0 <= k < |frame| ==> frame[k] == 255
  {
    PercentExtremes(frame);
  }
}
