/**
 The export check: after the palette has been drawn to the hidden photo
 canvas and written to a file, the file's size is read back. The export is
 accepted when its aspect ratio matches the canvas's within 1%; otherwise
 the palette is painted again and read back again, until the attempt
 counter passes its bound and the export fails for good.
 */
module Export {
  import opened Base

  /** The bound on the attempt counter. */
  const MaxPaintCount: nat := 5

  /** What reading the exported file's size gave: its width and height, or
      a failure of the read itself. */
  datatype Readback = Info(width: real, height: real) | ReadFailed

  /** What the component does with a readback: report the file as good,
      paint again, or report an error (the counter is exhausted, or the
      read failed). */
  datatype Verdict = Accept | Repaint | GiveUp | ReadError

  datatype Check = Check(verdict: Verdict, count: nat)

  /** The relative aspect-ratio error |(w·H − W·h) / (h·H)| is below 1%,
      for a file of w×h and a canvas of W×H. A zero denominator makes the
      quotient infinite or NaN, and neither compares below 0.01. */
  predicate AspectMatches(w: real, h: real, canvasW: real, canvasH: real) {
    h * canvasH != 0.0 && Abs((w * canvasH - canvasW * h) / (h * canvasH)) < 0.01
  }

  /** `getImageInfo`'s decision on one readback, with the attempt counter
      `count`. A failed read is an error and leaves the counter alone. Past
      the bound the export gives up, also leaving the counter alone.
      Otherwise a matching aspect ratio is accepted and any other is painted
      again, and either way the counter goes up by one. */
  function Verify(count: nat, r: Readback, canvasW: real, canvasH: real): (c: Check)
    ensures r.ReadFailed? ==> c == Check(ReadError, count)
    ensures r.Info? && count > MaxPaintCount ==> c == Check(GiveUp, count)
    ensures r.Info? && count <= MaxPaintCount ==>
              && c.count == count + 1
              && (c.verdict == Accept <==> AspectMatches(r.width, r.height, canvasW, canvasH))
              && (c.verdict == Repaint <==> !AspectMatches(r.width, r.height, canvasW, canvasH))
  {
    match r
    case ReadFailed => Check(ReadError, count)
    case Info(w, h) =>
      if count > MaxPaintCount then Check(GiveUp, count)
      else if AspectMatches(w, h, canvasW, canvasH) then Check(Accept, count + 1)
      else Check(Repaint, count + 1)
  }

  /** The export as a whole: each repaint is followed by the next readback,
      until a verdict other than repaint. `None` if the readbacks run out
      while still repainting. */
  function Run(count: nat, rs: seq<Readback>, canvasW: real, canvasH: real): Option<Check>
    decreases |rs|
  {
    if |rs| == 0 then None
    else
      var c := Verify(count, rs[0], canvasW, canvasH);
      if c.verdict == Repaint then Run(c.count, rs[1..], canvasW, canvasH) else Some(c)
  }

  /** A readback of the same shape as the canvas, scaled by any positive
      factor, is accepted. */
  lemma ScaledCopyMatches(canvasW: real, canvasH: real, k: real)
    requires canvasH != 0.0 && k > 0.0
    ensures AspectMatches(k * canvasW, k * canvasH, canvasW, canvasH)
  {
    assert k * canvasW * canvasH - canvasW * (k * canvasH) == 0.0;
  }

  /** Matching is a bound on the cross-multiplied difference: a file
      matches exactly when |w·H − W·h| is below 1% of |h·H|. */
  lemma MatchesIffCrossBound(w: real, h: real, canvasW: real, canvasH: real)
    ensures AspectMatches(w, h, canvasW, canvasH)
        <==> h * canvasH != 0.0 && Abs(w * canvasH - canvasW * h) < 0.01 * Abs(h * canvasH)
  {
    var d := h * canvasH;
    if d != 0.0 {
      var n := w * canvasH - canvasW * h;
      var q := n / d;
      assert q * d == n;
      AbsOfProduct(q, d);
      ScaleBound(Abs(q), Abs(d), Abs(n));
    }
  }

  /** For a positive d, a·d < 0.01·d exactly when a < 0.01. */
  lemma ScaleBound(a: real, d: real, n: real)
    requires d > 0.0 && a * d == n
    ensures a < 0.01 <==> n < 0.01 * d
  {
    if a < 0.01 {
      assert a * d < 0.01 * d;
    } else {
      assert a * d >= 0.01 * d;
    }
  }

  lemma AbsOfProduct(a: real, b: real)
    ensures Abs(a * b) == Abs(a) * Abs(b)
  {
    if a < 0.0 && b >= 0.0 {
      assert a * b <= 0.0;
    } else if a >= 0.0 && b < 0.0 {
      assert a * b <= 0.0;
    } else if a < 0.0 && b < 0.0 {
      assert a * b > 0.0;
    } else {
      assert a * b >= 0.0;
    }
  }

  /** A 750×1334 canvas exported as 750×1334 is accepted; exported as
      750×1000 it is painted again. */
  lemma ExportExamples()
    ensures Verify(0, Info(750.0, 1334.0), 750.0, 1334.0) == Check(Accept, 1)
    ensures Verify(0, Info(750.0, 1000.0), 750.0, 1334.0) == Check(Repaint, 1)
  {
    assert (750.0 * 1334.0 - 750.0 * 1000.0) / (1000.0 * 1334.0) == 250500.0 / 1334000.0;
  }

  /** A readback whose size never matches. */
  predicate AllMismatch(rs: seq<Readback>, canvasW: real, canvasH: real) {
    forall i :: 0 <= i < |rs| ==> rs[i].Info? && !AspectMatches(rs[i].width, rs[i].height, canvasW, canvasH)
  }

  /** When every readback mismatches, the run started with counter `count`
      (at most the bound plus one) repaints until the counter passes the
      bound and then gives up, on the readback after the last permitted
      one. */
  lemma {:induction false} MismatchesGiveUp(count: nat, rs: seq<Readback>, canvasW: real, canvasH: real)
    requires count <= MaxPaintCount + 1
    requires |rs| >= MaxPaintCount + 2 - count
    requires AllMismatch(rs, canvasW, canvasH)
    ensures Run(count, rs, canvasW, canvasH) == Some(Check(GiveUp, MaxPaintCount + 1))
    decreases |rs|
  {
    if count <= MaxPaintCount {
      assert Verify(count, rs[0], canvasW, canvasH) == Check(Repaint, count + 1);
      assert AllMismatch(rs[1..], canvasW, canvasH) by {
        forall i | 0 <= i < |rs[1..]|
          ensures rs[1..][i].Info? && !AspectMatches(rs[1..][i].width, rs[1..][i].height, canvasW, canvasH)
        {
          assert rs[1..][i] == rs[i + 1];
        }
      }
      MismatchesGiveUp(count + 1, rs[1..], canvasW, canvasH);
    }
  }

  /** From a fresh counter, readbacks that never match give up on the
      seventh: six verified attempts, each followed by a repaint. */
  lemma FreshExportGivesUpOnSeventh(rs: seq<Readback>, canvasW: real, canvasH: real)
    requires |rs| >= 7 && AllMismatch(rs, canvasW, canvasH)
    ensures Run(0, rs, canvasW, canvasH) == Some(Check(GiveUp, 6))
    ensures Run(0, rs[..6], canvasW, canvasH) == None
  {
    MismatchesGiveUp(0, rs, canvasW, canvasH);
    var six := rs[..6];
    assert AllMismatch(six, canvasW, canvasH) by {
      forall i | 0 <= i < |six|
        ensures six[i].Info? && !AspectMatches(six[i].width, six[i].height, canvasW, canvasH)
      {
        assert six[i] == rs[i];
      }
    }
    MismatchesExhaust(0, six, canvasW, canvasH);
  }

  /** Readbacks that never match, all within the bound, only ever ask for
      another paint. */
  lemma {:induction false} MismatchesExhaust(count: nat, rs: seq<Readback>, canvasW: real, canvasH: real)
    requires count + |rs| <= MaxPaintCount + 1
    requires AllMismatch(rs, canvasW, canvasH)
    ensures Run(count, rs, canvasW, canvasH) == None
    decreases |rs|
  {
    if |rs| > 0 {
      assert Verify(count, rs[0], canvasW, canvasH) == Check(Repaint, count + 1);
      assert AllMismatch(rs[1..], canvasW, canvasH) by {
        forall i | 0 <= i < |rs[1..]|
          ensures rs[1..][i].Info? && !AspectMatches(rs[1..][i].width, rs[1..][i].height, canvasW, canvasH)
        {
          assert rs[1..][i] == rs[i + 1];
        }
      }
      MismatchesExhaust(count + 1, rs[1..], canvasW, canvasH);
    }
  }

  /** Every export ends, one way or another, by the readback after the
      last permitted attempt: from counter `count`, at most
      `MaxPaintCount + 2 - count` readbacks are needed. */
  lemma {:induction false} RunIsBounded(count: nat, rs: seq<Readback>, canvasW: real, canvasH: real)
    requires count <= MaxPaintCount + 1
    requires |rs| >= MaxPaintCount + 2 - count
    ensures Run(count, rs, canvasW, canvasH).Some?
    ensures Run(count, rs, canvasW, canvasH).value.verdict != Repaint
    decreases |rs|
  {
    var c := Verify(count, rs[0], canvasW, canvasH);
    if c.verdict == Repaint {
      RunIsBounded(c.count, rs[1..], canvasW, canvasH);
    }
  }

  /** An accepted export read back a matching file, and the counter tells
      which readback it was. */
  lemma {:induction false} AcceptedMeansMatched(count: nat, rs: seq<Readback>, canvasW: real, canvasH: real)
    requires Run(count, rs, canvasW, canvasH).Some? && Run(count, rs, canvasW, canvasH).value.verdict == Accept
    ensures var k := Run(count, rs, canvasW, canvasH).value.count - count - 1;
            && 0 <= k < |rs| && rs[k].Info? && AspectMatches(rs[k].width, rs[k].height, canvasW, canvasH)
            && forall j :: 0 <= j < k ==> rs[j].Info? && !AspectMatches(rs[j].width, rs[j].height, canvasW, canvasH)
    decreases |rs|
  {
    var c := Verify(count, rs[0], canvasW, canvasH);
    if c.verdict == Repaint {
      AcceptedMeansMatched(c.count, rs[1..], canvasW, canvasH);
      var k := Run(count, rs, canvasW, canvasH).value.count - count - 1;
      assert rs[k] == rs[1..][k - 1];
      forall j | 0 <= j < k
        ensures rs[j].Info? && !AspectMatches(rs[j].width, rs[j].height, canvasW, canvasH)
      {
        if j > 0 {
          assert rs[j] == rs[1..][j - 1];
        }
      }
    }
  }
}
