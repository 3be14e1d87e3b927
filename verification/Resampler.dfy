/** The fixed-point resampler in front of the audio queue. Positions in the source are 32.32
    fixed point; the part of an output frame that is left over is carried to the next call. */
module Resampler {

  import opened Basics

  type int16 = n: int | -0x8000 <= n < 0x8000

  // ------------------------------------------------------------------ rates

  /** Output frames, in units of one over the source rate, due for a call. */
  function Scaled(frames: nat, outputRate: nat, carried: nat): nat { frames * outputRate + carried }

  function Whole(scaled: nat, sourceRate: nat): nat
    requires sourceRate > 0
  {
    scaled / sourceRate
  }

  /** Frames produced by calls with so many frames each, and what is carried after them. */
  function Produced(calls: seq<nat>, sourceRate: nat, outputRate: nat): (r: (nat, nat))
    requires sourceRate > 0
    ensures r.1 < sourceRate
  {
    if calls == [] then (0, 0)
    else
      var before := Produced(calls[..|calls| - 1], sourceRate, outputRate);
      var scaled := Scaled(calls[|calls| - 1], outputRate, before.1);
      (before.0 + Whole(scaled, sourceRate), scaled % sourceRate)
  }

  lemma ProducedNext(calls: seq<nat>, frames: nat, sourceRate: nat, outputRate: nat)
    requires sourceRate > 0
    ensures Produced(calls + [frames], sourceRate, outputRate).1
         == Scaled(frames, outputRate, Produced(calls, sourceRate, outputRate).1) % sourceRate
  {
  }

  function Sum(calls: seq<nat>): nat {
    if calls == [] then 0 else Sum(calls[..|calls| - 1]) + calls[|calls| - 1]
  }

  lemma SumNext(calls: seq<nat>, frames: nat)
    ensures Sum(calls + [frames]) == Sum(calls) + frames
  {
    assert (calls + [frames])[..|calls|] == calls;
  }

  /** No frame is gained or lost over any run of calls. */
  lemma {:induction false} NoDrift(calls: seq<nat>, sourceRate: nat, outputRate: nat)
    requires sourceRate > 0
    ensures var r := Produced(calls, sourceRate, outputRate);
      r.0 * sourceRate + r.1 == Sum(calls) * outputRate
  {
    if calls != [] {
      var before := Produced(calls[..|calls| - 1], sourceRate, outputRate);
      NoDrift(calls[..|calls| - 1], sourceRate, outputRate);
      CountsOn(before.0, before.1, calls[|calls| - 1], Sum(calls[..|calls| - 1]), sourceRate, outputRate);
    }
  }

  /** One call keeps the count right. */
  lemma CountsOn(handed: nat, carried: nat, frames: nat, before: nat, sourceRate: nat, outputRate: nat)
    requires sourceRate > 0 && handed * sourceRate + carried == before * outputRate
    ensures var scaled := Scaled(frames, outputRate, carried);
      (handed + Whole(scaled, sourceRate)) * sourceRate + scaled % sourceRate == (before + frames) * outputRate
  {
    var scaled := Scaled(frames, outputRate, carried);
    Distribute(handed, scaled / sourceRate, sourceRate);
    Distribute(before, frames, outputRate);
    Divided(scaled, sourceRate);
  }

  lemma Distribute(a: int, b: int, n: int)
    ensures (a + b) * n == a * n + b * n
  {
  }

  lemma Divided(a: nat, n: nat)
    requires n > 0
    ensures a / n * n + a % n == a
  {
  }

  /** So how the frames were split into calls makes no difference to how many come out. */
  lemma SplitDoesNotMatter(calls: seq<nat>, sourceRate: nat, outputRate: nat)
    requires sourceRate > 0
    ensures Produced(calls, sourceRate, outputRate).0 == Sum(calls) * outputRate / sourceRate
  {
    NoDrift(calls, sourceRate, outputRate);
    var r := Produced(calls, sourceRate, outputRate);
    QuotientIs(Sum(calls) * outputRate, sourceRate, r.0, r.1);
  }

  lemma QuotientIs(a: nat, n: nat, q: nat, r: nat)
    requires n > 0 && a == q * n + r && r < n
    ensures a / n == q
  {
    var p := a / n;
    Divided(a, n);
    if p < q {
      MulUp(n, p + 1, q);
    } else if q < p {
      MulUp(n, q + 1, p);
    }
  }

  // ---------------------------------------------------------- interpolation

  const ONE := 0x1_0000_0000

  /** Two's complement arithmetic in 32 and 16 bits. */
  function Wrap32(x: int): int { (x + 0x8000_0000) % 0x1_0000_0000 - 0x8000_0000 }
  function Wrap16(x: int): int16 { (x + 0x8000) % 0x1_0000 - 0x8000 }

  /** a + ((b - a) * fraction >> 16), multiplied in 32 bits and narrowed to 16. */
  function Interpolate(a: int16, b: int16, fraction: nat): int16 {
    Wrap16(a + Wrap32((b - a) * fraction) / 0x1_0000)
  }

  /** The product may not fit in 32 bits, but narrowing undoes the wrap-around: the result is
      the exact interpolation, rounded down, and lies between its two samples. */
  lemma InterpolateExact(a: int16, b: int16, fraction: nat)
    requires fraction < 0x1_0000
    ensures Interpolate(a, b, fraction) == a + (b - a) * fraction / 0x1_0000
    ensures a <= b ==> a <= Interpolate(a, b, fraction) <= b
    ensures b <= a ==> b <= Interpolate(a, b, fraction) <= a
  {
    var product := (b - a) * fraction;
    if a <= b {
      MulUp(fraction, 0, b - a);
      MulUp(b - a, fraction, 0xffff);
    } else {
      MulUp(fraction, b - a, 0);
      MulUp(a - b, fraction, 0xffff);
      assert (a - b) * fraction == -product;
    }
    NarrowedExact(a, product);
  }

  lemma NarrowedExact(a: int16, product: int)
    requires -0xffff * 0xffff <= product <= 0xffff * 0xffff
    requires -0x8000 <= a + product / 0x1_0000 < 0x8000
    ensures Wrap16(a + Wrap32(product) / 0x1_0000) == a + product / 0x1_0000
  {
    if product >= 0x8000_0000 {
      assert Wrap32(product) == product - 0x1_0000_0000;
      assert Wrap32(product) / 0x1_0000 == product / 0x1_0000 - 0x1_0000;
    } else if product < -0x8000_0000 {
      assert Wrap32(product) == product + 0x1_0000_0000;
      assert Wrap32(product) / 0x1_0000 == product / 0x1_0000 + 0x1_0000;
    }
  }

  function SampleAt(samples: seq<int16>, position: nat): int16
    requires samples != []
  {
    var first := position / ONE;
    if first >= |samples| - 1 then samples[|samples| - 1]
    else Interpolate(samples[first], samples[first + 1], position / 0x1_0000 % 0x1_0000)
  }

  /** Source position per output frame. */
  function Stride(frames: nat, output: nat): nat
    requires frames >= 1 && output >= 2
  {
    (frames - 1) * ONE / (output - 1)
  }

  function Position(i: nat, step: nat): nat { i * step }

  function Resampled(samples: seq<int16>, output: nat): (r: seq<int16>)
    requires samples != []
    ensures |r| == output
  {
    if |samples| == 1 || output <= 1 then seq(output, _ => samples[0])
    else seq(output, i requires 0 <= i < output => SampleAt(samples, Position(i, Stride(|samples|, output))))
  }

  /** Positions never pass the last sample, and fall short of the ideal one by less than one
      unit of the last place for each frame. */
  lemma PositionInRange(frames: nat, output: nat, i: nat)
    requires frames >= 1 && output >= 2 && i < output
    ensures Position(i, Stride(frames, output)) <= (frames - 1) * ONE
    ensures var ideal, at := i * ((frames - 1) * ONE), Position(i, Stride(frames, output)) * (output - 1);
      at <= ideal <= at + i * (output - 2)
  {
    var whole, step, n := (frames - 1) * ONE, Stride(frames, output), output - 1;
    Divided(whole, n);
    MulUp(step, i, n);
    var rest := whole % n;
    assert i * whole == i * (step * n) + i * rest;
    assert i * (step * n) == i * step * n;
    MulUp(i, 0, rest);
    MulUp(i, rest, n - 1);
  }

  /** Every output frame lies between the two source samples around its position. */
  lemma BetweenNeighbours(samples: seq<int16>, position: nat)
    requires samples != [] && position <= (|samples| - 1) * ONE
    ensures var first := position / ONE; var next := if first + 1 < |samples| then first + 1 else first;
      && 0 <= first < |samples|
      && (samples[first] <= samples[next] ==> samples[first] <= SampleAt(samples, position) <= samples[next])
      && (samples[next] <= samples[first] ==> samples[next] <= SampleAt(samples, position) <= samples[first])
  {
    var first := position / ONE;
    if first < |samples| - 1 {
      InterpolateExact(samples[first], samples[first + 1], position / 0x1_0000 % 0x1_0000);
    }
  }

  /** Output frame i is the interpolation, rounded down, between the samples around position
      i * step, with the upper sixteen bits of its fraction; past the last but one sample it is the last. */
  lemma SamplesInterpolated(samples: seq<int16>, output: nat, i: nat)
    requires |samples| >= 2 && output >= 2 && i < output
    ensures var at := i * ((|samples| - 1) * 0x1_0000_0000 / (output - 1));
      var first, fraction := at / 0x1_0000_0000, at % 0x1_0000_0000 / 0x1_0000;
      && 0 <= at && 0 <= first < |samples|
      && Resampled(samples, output)[i] ==
           if first + 1 == |samples| then samples[first]
           else samples[first] + (samples[first + 1] - samples[first]) * fraction / 0x1_0000
  {
    var at := Position(i, Stride(|samples|, output));
    PositionInRange(|samples|, output, i);
    UpperFraction(at);
    var first := at / ONE;
    if first + 1 < |samples| {
      InterpolateExact(samples[first], samples[first + 1], at / 0x1_0000 % 0x1_0000);
    }
    hide Interpolate;
  }

  lemma UpperFraction(p: nat)
    ensures p % 0x1_0000_0000 / 0x1_0000 == p / 0x1_0000 % 0x1_0000
  {
  }

  /** A single frame on either side is the first sample, held. */
  lemma OneIsHeld(samples: seq<int16>, output: nat, i: nat)
    requires samples != [] && (|samples| == 1 || output == 1) && i < output
    ensures Resampled(samples, output)[i] == samples[0]
  {
  }

  /** As many frames as there are samples are the samples. */
  lemma SameCountIsSame(samples: seq<int16>)
    requires samples != []
    ensures Resampled(samples, |samples|) == samples
  {
    var n := |samples|;
    if n > 1 {
      QuotientIs((n - 1) * ONE, n - 1, ONE, 0);
      assert Stride(n, n) == ONE;
      forall i | 0 <= i < n
        ensures SampleAt(samples, Position(i, ONE)) == samples[i]
      {
        AtSample(samples, i);
      }
    }
    hide SampleAt, Stride, Position;
  }

  lemma AtSample(samples: seq<int16>, i: nat)
    requires i < |samples|
    ensures SampleAt(samples, Position(i, ONE)) == samples[i]
  {
    assert i * ONE / ONE == i && i * ONE / 0x1_0000 == i * 0x1_0000 && i * 0x1_0000 % 0x1_0000 == 0;
    if i + 1 < |samples| {
      InterpolateExact(samples[i], samples[i + 1], 0);
    }
    hide Interpolate;
  }

  predicate Ascending(s: seq<int16>) {
    forall i, j :: 0 <= i <= j < |s| ==> s[i] <= s[j]
  }

  /** Resampling keeps a rising signal rising. */
  lemma KeepsAscending(samples: seq<int16>, output: nat)
    requires samples != [] && Ascending(samples)
    ensures Ascending(Resampled(samples, output))
  {
    if |samples| > 1 && output > 1 {
      var step := Stride(|samples|, output);
      forall i, j | 0 <= i <= j < output
        ensures SampleAt(samples, Position(i, step)) <= SampleAt(samples, Position(j, step))
      {
        PositionInRange(|samples|, output, i);
        PositionInRange(|samples|, output, j);
        MulUp(step, i, j);
        LaterIsHigher(samples, i * step, j * step);
      }
    }
  }

  lemma LaterIsHigher(samples: seq<int16>, p: nat, q: nat)
    requires samples != [] && Ascending(samples) && p <= q <= (|samples| - 1) * ONE
    ensures SampleAt(samples, p) <= SampleAt(samples, q)
  {
    if p / ONE == q / ONE {
      if p / ONE < |samples| - 1 {
        SameCell(p, q);
        HigherFraction(samples[p / ONE], samples[p / ONE + 1],
                       p / 0x1_0000 % 0x1_0000, q / 0x1_0000 % 0x1_0000);
      }
    } else {
      BetweenNeighbours(samples, p);
      BetweenNeighbours(samples, q);
    }
  }

  lemma HigherFraction(a: int16, b: int16, f: nat, g: nat)
    requires a <= b && f <= g < 0x1_0000
    ensures Interpolate(a, b, f) <= Interpolate(a, b, g)
  {
    InterpolateExact(a, b, f);
    InterpolateExact(a, b, g);
    MulUp(b - a, f, g);
  }

  lemma SameCell(p: nat, q: nat)
    requires p <= q && p / ONE == q / ONE
    ensures p / 0x1_0000 % 0x1_0000 <= q / 0x1_0000 % 0x1_0000
  {
  }

  /** The loop of write_mono, which adds the step to its position once a frame. */
  method Resample(samples: seq<int16>, output: nat) returns (buffer: array<int16>)
    requires samples != []
    ensures fresh(buffer) && buffer[..] == Resampled(samples, output)
  {
    if |samples| == 1 || output <= 1 {
      buffer := new int16[output](_ => samples[0]);
      return;
    }
    buffer := new int16[output](_ => 0);
    Fill(samples, buffer, Stride(|samples|, output));
  }

  method Fill(samples: seq<int16>, buffer: array<int16>, step: nat)
    requires |samples| > 1
    modifies buffer
    ensures forall k :: 0 <= k < buffer.Length ==> buffer[k] == SampleAt(samples, Position(k, step))
  {
    var position := 0;
    for i := 0 to buffer.Length
      invariant position == Position(i, step)
      invariant forall k :: 0 <= k < i ==> buffer[k] == SampleAt(samples, Position(k, step))
    {
      buffer[i] := InterpolateAt(samples, position);
      position := position + step;
      NextPosition(i, step);
    }
  }

  lemma NextPosition(i: nat, step: nat)
    ensures Position(i + 1, step) == Position(i, step) + step
  {
  }

  method InterpolateAt(samples: seq<int16>, position: nat) returns (sample: int16)
    requires |samples| > 1
    ensures sample == SampleAt(samples, position)
  {
    var first := position / ONE;
    var fraction := position / 0x1_0000 % 0x1_0000;
    if first >= |samples| - 1 {
      sample := samples[|samples| - 1];
    } else {
      sample := Interpolate(samples[first], samples[first + 1], fraction);
    }
  }
}
