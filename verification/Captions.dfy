/** The captions of the synchronization test source: TICK and TOCK on the pips, which fall on the
    positive multiples of the pip interval. Times are running times in nanoseconds. */
module Captions {
  import opened Wrappers
  import Modular

  datatype Caption = Tick | Tock

  /** The smallest k with k * p >= a. */
  function CeilingDivision(a: nat, p: nat): (k: nat)
    requires p > 0
  {
    if a == 0 then 0 else if a <= p then 1 else 1 + CeilingDivision(a - p, p)
  }

  /** k * p. */
  function Multiple(k: nat, p: nat): (m: nat) {
    if k == 0 then 0 else Multiple(k - 1, p) + p
  }

  lemma {:induction false} MultipleIsProduct(k: nat, p: nat)
    ensures Multiple(k, p) == k * p
  {
    if k > 0 {
      MultipleIsProduct(k - 1, p);
      assert k * p == (k - 1) * p + p;
    }
  }

  lemma {:induction false} CeilingIsQuotient(a: nat, p: nat)
    requires p > 0
    ensures CeilingDivision(a, p) == (a + p - 1) / p
    decreases a
  {
    if a == 0 {
      Modular.Unique(p - 1, p, 0, p - 1);
    } else if a <= p {
      Modular.Unique(a + p - 1, p, 1, a - 1);
    } else {
      CeilingIsQuotient(a - p, p);
      var q := (a - 1) / p;
      assert a - 1 == p * q + (a - 1) % p;
      assert p * (q + 1) == p * q + p;
      Modular.Unique(a + p - 1, p, q + 1, (a - 1) % p);
    }
  }

  /** The caption of the frame that spans pts up to nextPts, and the number of its pip. */
  function CaptionFor(pts: nat, nextPts: nat, pipInterval: nat): Option<Caption>
    requires pipInterval > 0
  {
    var k := CeilingDivision(pts, pipInterval);
    if k >= 1 && Multiple(k, pipInterval) < nextPts then Some(CaptionOf(k)) else None
  }

  function CaptionOf(k: nat): Caption {
    if k % 2 == 1 then Tick else Tock
  }

  // ---- a whole stream ----------------------------------------------------------------------------

  /** The number of pips before time t. */
  function Pips(t: nat, p: nat): (n: nat)
    requires p > 0
  {
    if t <= p then 0 else 1 + Pips(t - p, p)
  }

  /** Pip k has happened before t exactly if it is among the first Pips(t). */
  lemma {:induction false} PipBefore(k: nat, t: nat, p: nat)
    requires p > 0 && k >= 1
    ensures Multiple(k, p) < t <==> k <= Pips(t, p)
    decreases k
  {
    if k > 1 && t > p {
      PipBefore(k - 1, t - p, p);
    } else if k > 1 {
      MultipleGrows(k, p);
    }
  }

  lemma {:induction false} MultipleGrows(k: nat, p: nat)
    requires k >= 1
    ensures Multiple(k, p) >= p
  {
    if k > 1 {
      MultipleGrows(k - 1, p);
    }
  }

  lemma {:induction false} NextPip(t: nat, p: nat)
    requires p > 0 && t > 0
    ensures CeilingDivision(t, p) == Pips(t, p) + 1
    decreases t
  {
    if t > p {
      NextPip(t - p, p);
    }
  }

  /** One interval holds at most one pip. */
  lemma {:induction false} PipsGrow(a: nat, b: nat, p: nat)
    requires p > 0 && a <= b <= a + p
    ensures Pips(a, p) <= Pips(b, p) <= Pips(a, p) + 1
    decreases a
  {
    if a > p {
      PipsGrow(a - p, b - p, p);
    }
  }

  /** Frames that follow each other without a gap, none longer than the pip interval. */
  predicate Contiguous(times: seq<nat>, p: nat) {
    && times != [] && times[0] == 0
    && forall i :: 0 <= i < |times| - 1 ==> times[i] <= times[i + 1] <= times[i] + p
  }

  /** The captions of the frames between consecutive times, without the empty ones. */
  function Shown(times: seq<nat>, p: nat): (captions: seq<Caption>)
    requires p > 0
  {
    if |times| < 2 then []
    else
      var n := |times| - 1;
      match CaptionFor(times[n - 1], times[n], p)
      case None => Shown(times[..n], p)
      case Some(caption) => Shown(times[..n], p) + [caption]
  }

  function Alternating(n: nat): (captions: seq<Caption>)
    ensures |captions| == n
  {
    if n == 0 then [] else Alternating(n - 1) + [CaptionOf(n)]
  }

  lemma {:induction false} AlternatingAt(n: nat)
    ensures forall i :: 0 <= i < n ==> Alternating(n)[i] == if i % 2 == 0 then Tick else Tock
  {
    if n > 0 {
      AlternatingAt(n - 1);
    }
  }

  /** A frame shows the caption of the one pip it contains, if any. */
  lemma FrameCaption(a: nat, b: nat, p: nat)
    requires p > 0 && a <= b <= a + p
    ensures Pips(a, p) <= Pips(b, p) <= Pips(a, p) + 1
    ensures CaptionFor(a, b, p) == if Pips(b, p) > Pips(a, p) then Some(CaptionOf(Pips(b, p))) else None
  {
    PipsGrow(a, b, p);
    if a > 0 {
      NextPip(a, p);
      PipBefore(CeilingDivision(a, p), b, p);
    }
  }

  /** Over contiguous frames the captions shown are TICK, TOCK, TICK, ..., one for every pip. */
  lemma {:induction false} OneCaptionPerPip(times: seq<nat>, p: nat)
    requires p > 0 && Contiguous(times, p)
    ensures Shown(times, p) == Alternating(Pips(times[|times| - 1], p))
    ensures forall i :: 0 <= i < |Shown(times, p)| ==> Shown(times, p)[i] == if i % 2 == 0 then Tick else Tock
    decreases |times|
  {
    var n := |times| - 1;
    AlternatingAt(Pips(times[n], p));
    if n > 0 {
      OneCaptionPerPip(times[..n], p);
      FrameCaption(times[n - 1], times[n], p);
    }
  }

  /** Pip k falls into the frame. */
  predicate Holds(a: nat, b: nat, p: nat, k: nat) {
    k >= 1 && a <= Multiple(k, p) < b
  }

  lemma HoldsIff(a: nat, b: nat, p: nat, k: nat)
    requires p > 0
    ensures Holds(a, b, p, k) <==> Pips(a, p) < k <= Pips(b, p)
  {
    if k >= 1 {
      PipBefore(k, a, p);
      PipBefore(k, b, p);
    }
  }

  /** Every pip in the frame is the one whose caption it shows. */
  ghost predicate ShowsItsPips(a: nat, b: nat, p: nat)
    requires p > 0
  {
    forall k: nat :: Holds(a, b, p, k) ==> CaptionFor(a, b, p) == Some(CaptionOf(k))
  }

  /** The caption shown is that of the first pip in the frame, if it does not start at zero. */
  lemma ShownCaption(a: nat, b: nat, p: nat)
    requires p > 0
    ensures CaptionFor(a, b, p) == if a > 0 && Pips(a, p) < Pips(b, p) then Some(CaptionOf(Pips(a, p) + 1)) else None
  {
    if a > 0 {
      NextPip(a, p);
      PipBefore(Pips(a, p) + 1, b, p);
    }
  }

  /** A frame of any length does so exactly if it holds at most one pip, or none if it starts at
      zero: pips beyond the first are swallowed, and so is one in a frame from zero on. */
  lemma ShowsItsPipsIff(a: nat, b: nat, p: nat)
    requires p > 0
    ensures ShowsItsPips(a, b, p) <==> if a == 0 then b <= p else Pips(b, p) <= Pips(a, p) + 1
  {
    if if a == 0 then b <= p else Pips(b, p) <= Pips(a, p) + 1 {
      AllShown(a, b, p);
    } else {
      PipSwallowed(a, b, p);
    }
  }

  lemma AllShown(a: nat, b: nat, p: nat)
    requires p > 0 && if a == 0 then b <= p else Pips(b, p) <= Pips(a, p) + 1
    ensures ShowsItsPips(a, b, p)
  {
    ShownCaption(a, b, p);
    forall k: nat | Holds(a, b, p, k) ensures CaptionFor(a, b, p) == Some(CaptionOf(k)) {
      HoldsIff(a, b, p, k);
    }
  }

  lemma PipSwallowed(a: nat, b: nat, p: nat)
    requires p > 0 && !(if a == 0 then b <= p else Pips(b, p) <= Pips(a, p) + 1)
    ensures !ShowsItsPips(a, b, p)
  {
    var first := Pips(a, p) + 1;
    ShownCaption(a, b, p);
    HoldsIff(a, b, p, first);
    HoldsIff(a, b, p, first + 1);
  }
}
