/** The payload check of the video probe: matching received frames against a cyclic
    reference whose starting position is unknown and whose frames may repeat. */
module VideoProbe {
  import Modular

  type Frame = seq<int>

  /** A grain as the matcher sees it: rejected before any comparison, or a complete frame. */
  datatype Item = Rejected | Received(frame: Frame)

  datatype Tally = Tally(expected: seq<nat>, byteErrors: nat, orderErrors: nat, grainErrors: nat)

  function After(position: nat, R: nat): (next: nat)
    requires R > 0
    ensures next < R
  {
    Modular.Wrap(position + 1, R)
  }

  predicate Within(positions: seq<nat>, R: nat) {
    forall i :: 0 <= i < |positions| ==> positions[i] < R
  }

  /** Successors of those `candidates` whose reference frame equals the received one. */
  function Matches(reference: seq<Frame>, candidates: seq<nat>, frame: Frame): (next: seq<nat>)
    requires Within(candidates, |reference|)
    ensures Within(next, |reference|)
  {
    if candidates == [] then []
    else
      var n := |candidates| - 1;
      Matches(reference, candidates[..n], frame)
        + if frame == reference[candidates[n]] then [After(candidates[n], |reference|)] else []
  }

  function Positions(R: nat): (ps: seq<nat>)
    ensures |ps| == R && forall i :: 0 <= i < R ==> ps[i] == i
  {
    if R == 0 then [] else Positions(R - 1) + [R - 1]
  }

  predicate Sound(reference: seq<Frame>, t: Tally) {
    Within(t.expected, |reference|)
  }

  /** One turn of the probe's loop. */
  function Step(reference: seq<Frame>, t: Tally, item: Item): (u: Tally)
    requires reference != [] && Sound(reference, t)
    ensures Sound(reference, u)
  {
    match item
    case Rejected => t.(expected := [], grainErrors := t.grainErrors + 1)
    case Received(frame) =>
      var next := Matches(reference, t.expected, frame);
      if next != [] then t.(expected := next)
      else
        var all := Matches(reference, Positions(|reference|), frame);
        if all == [] then t.(expected := [], byteErrors := t.byteErrors + 1)
        else if t.expected != [] then t.(expected := all, orderErrors := t.orderErrors + 1)
        else t.(expected := all)
  }

  function Probe(reference: seq<Frame>, items: seq<Item>): (t: Tally)
    requires reference != []
    ensures Sound(reference, t)
  {
    if items == [] then Tally([], 0, 0, 0)
    else Step(reference, Probe(reference, items[..|items| - 1]), items[|items| - 1])
  }

  lemma {:induction false} MatchesExact(reference: seq<Frame>, candidates: seq<nat>, frame: Frame, next: nat)
    requires Within(candidates, |reference|)
    ensures next in Matches(reference, candidates, frame) <==>
      exists c :: c in candidates && frame == reference[c] && next == After(c, |reference|)
  {
    if candidates != [] {
      var n := |candidates| - 1;
      MatchesExact(reference, candidates[..n], frame, next);
      assert candidates == candidates[..n] + [candidates[n]];
    }
  }

  // ---- what the counters mean -----------------------------------------------------------

  /** The item is a frame that occurs somewhere in the reference. */
  predicate Known(reference: seq<Frame>, item: Item) {
    item.Received? && item.frame in reference
  }

  /** An interpretation of the received items: every known frame is placed at some position
      of the reference that holds this frame; the other items have no place. */
  predicate Placement(reference: seq<Frame>, items: seq<Item>, places: seq<int>) {
    && |places| == |items|
    && forall n :: 0 <= n < |items| ==>
        if Known(reference, items[n]) then 0 <= places[n] < |reference| && reference[places[n]] == items[n].frame
        else places[n] == -1
  }

  /** Neighbouring frames that are not placed one after the other. */
  predicate Break(R: nat, before: int, after: int) {
    0 <= before < R && 0 <= after && after != After(before, R)
  }

  function Breaks(R: nat, places: seq<int>): nat {
    if |places| < 2 then 0
    else
      var n := |places| - 1;
      Breaks(R, places[..n]) + if Break(R, places[n - 1], places[n]) then 1 else 0
  }

  lemma PlacementPrefix(reference: seq<Frame>, items: seq<Item>, places: seq<int>)
    requires Placement(reference, items, places) && items != []
    ensures Placement(reference, items[..|items| - 1], places[..|items| - 1])
  {}

  lemma AllPositionsMatch(reference: seq<Frame>, frame: Frame)
    ensures Matches(reference, Positions(|reference|), frame) == [] <==> frame !in reference
  {
    var all := Matches(reference, Positions(|reference|), frame);
    if frame in reference {
      var c :| 0 <= c < |reference| && reference[c] == frame;
      assert Positions(|reference|)[c] == c;
      MatchesExact(reference, Positions(|reference|), frame, After(c, |reference|));
    } else if all != [] {
      MatchesExact(reference, Positions(|reference|), frame, all[0]);
    }
  }

  /** Candidates exist exactly after a frame that occurs in the reference. */
  lemma {:induction false} CandidatesExist(reference: seq<Frame>, items: seq<Item>)
    requires reference != []
    ensures Probe(reference, items).expected != [] <==> items != [] && Known(reference, items[|items| - 1])
  {
    if items != [] {
      var n := |items| - 1;
      var item, t := items[n], Probe(reference, items[..n]);
      if item.Received? {
        AllPositionsMatch(reference, item.frame);
        var next := Matches(reference, t.expected, item.frame);
        if next != [] {
          MatchesExact(reference, t.expected, item.frame, next[0]);
        }
      }
    }
  }

  /** One more item: its place `a` comes after the place `before`, or -1 stands for no place. */
  lemma OneMorePlace(reference: seq<Frame>, t: Tally, item: Item, breaks: nat, before: int, a: int)
    requires reference != [] && Sound(reference, t) && before < |reference|
    requires t.expected != [] <==> before >= 0
    requires t.orderErrors <= breaks && (t.orderErrors == breaks && before >= 0 ==> After(before, |reference|) in t.expected)
    requires if Known(reference, item) then 0 <= a < |reference| && reference[a] == item.frame else a == -1
    ensures var u, more := Step(reference, t, item), breaks + if Break(|reference|, before, a) then 1 else 0;
      u.orderErrors <= more && (u.orderErrors == more && a >= 0 ==> After(a, |reference|) in u.expected)
  {
    if Known(reference, item) {
      MatchesPlace(reference, t.expected, item.frame, a);
      MatchesPlace(reference, Positions(|reference|), item.frame, a);
      assert Positions(|reference|)[a] == a;
    } else if item.Received? {
      AllPositionsMatch(reference, item.frame);
    }
  }

  lemma MatchesPlace(reference: seq<Frame>, candidates: seq<nat>, frame: Frame, a: nat)
    requires Within(candidates, |reference|) && a < |reference| && reference[a] == frame
    ensures a in candidates ==> After(a, |reference|) in Matches(reference, candidates, frame)
  {
    MatchesExact(reference, candidates, frame, After(a, |reference|));
  }

  function LastOf(places: seq<int>): int {
    if places == [] then -1 else places[|places| - 1]
  }

  /** No interpretation has fewer breaks than the probe counted, and one that attains the
      count ends at one of the probe's candidates. */
  lemma {:induction false} NoFewerBreaks(reference: seq<Frame>, items: seq<Item>, places: seq<int>)
    requires reference != [] && Placement(reference, items, places)
    ensures Probe(reference, items).orderErrors <= Breaks(|reference|, places)
    ensures Probe(reference, items).orderErrors == Breaks(|reference|, places) && LastOf(places) >= 0
      ==> After(LastOf(places), |reference|) in Probe(reference, items).expected
    decreases |items|
  {
    if items != [] {
      var n := |items| - 1;
      PlacementPrefix(reference, items, places);
      NoFewerBreaks(reference, items[..n], places[..n]);
      LastPlaced(reference, items[..n], places[..n]);
      OneMorePlace(reference, Probe(reference, items[..n]), items[n], Breaks(|reference|, places[..n]), LastOf(places[..n]), places[n]);
    }
  }

  /** Candidates exist exactly if the last item has a place. */
  lemma LastPlaced(reference: seq<Frame>, items: seq<Item>, places: seq<int>)
    requires reference != [] && Placement(reference, items, places)
    ensures LastOf(places) < |reference|
    ensures Probe(reference, items).expected != [] <==> LastOf(places) >= 0
  {
    CandidatesExist(reference, items);
  }

  /** The position of the last frame that leads to candidate `next`, and the candidate that
      an optimal interpretation of the earlier items has to leave behind. */
  lemma LastPlace(reference: seq<Frame>, t: Tally, item: Item, next: nat) returns (a: nat, from: nat)
    requires reference != [] && Sound(reference, t) && Known(reference, item)
    requires next in Step(reference, t, item).expected
    ensures a < |reference| && reference[a] == item.frame && After(a, |reference|) == next
    ensures t.expected != [] ==> from in t.expected
    ensures Step(reference, t, item).orderErrors == t.orderErrors + if t.expected != [] && from != a then 1 else 0
  {
    var matching := Matches(reference, t.expected, item.frame);
    var candidates := if matching != [] then t.expected else Positions(|reference|);
    AllPositionsMatch(reference, item.frame);
    MatchesExact(reference, candidates, item.frame, next);
    a :| a in candidates && item.frame == reference[a] && next == After(a, |reference|);
    MatchesExact(reference, t.expected, item.frame, next);
    from := if t.expected == [] || a in t.expected then a else t.expected[0];
  }

  /** Appending one place to an interpretation of all but the last item. */
  lemma Appended(reference: seq<Frame>, items: seq<Item>, earlier: seq<int>, a: int)
    requires items != [] && Placement(reference, items[..|items| - 1], earlier)
    requires if Known(reference, items[|items| - 1]) then 0 <= a < |reference| && reference[a] == items[|items| - 1].frame else a == -1
    ensures Placement(reference, items, earlier + [a])
    ensures Breaks(|reference|, earlier + [a])
      == Breaks(|reference|, earlier) + if earlier != [] && Break(|reference|, earlier[|earlier| - 1], a) then 1 else 0
  {
    var places := earlier + [a];
    assert places[..|items| - 1] == earlier;
    forall n | 0 <= n < |items| - 1
      ensures if Known(reference, items[n]) then 0 <= places[n] < |reference| && reference[places[n]] == items[n].frame else places[n] == -1
    {
      assert items[..|items| - 1][n] == items[n] && places[n] == earlier[n];
    }
  }

  /** Whether appending a known frame breaks, in terms of the probe's candidates. */
  lemma BreakIff(reference: seq<Frame>, items: seq<Item>, earlier: seq<int>, from: nat, a: nat)
    requires reference != [] && Placement(reference, items, earlier)
    requires Probe(reference, items).expected != [] ==>
      items != [] && 0 <= earlier[|items| - 1] < |reference| && After(earlier[|items| - 1], |reference|) == from
    ensures earlier != [] && Break(|reference|, earlier[|earlier| - 1], a)
      <==> Probe(reference, items).expected != [] && from != a
  {
    CandidatesExist(reference, items);
  }

  /** Each candidate is the continuation of an interpretation with exactly the counted
      number of breaks; without candidates there is such an interpretation as well. */
  lemma {:induction false} CountAttained(reference: seq<Frame>, items: seq<Item>, next: nat) returns (places: seq<int>)
    requires reference != []
    requires Probe(reference, items).expected != [] ==> next in Probe(reference, items).expected
    ensures Placement(reference, items, places)
    ensures Breaks(|reference|, places) == Probe(reference, items).orderErrors
    ensures Probe(reference, items).expected != [] ==>
      items != [] && 0 <= places[|items| - 1] < |reference| && After(places[|items| - 1], |reference|) == next
    decreases |items|
  {
    if items == [] {
      return [];
    }
    var n := |items| - 1;
    var t := Probe(reference, items[..n]);
    CandidatesExist(reference, items);
    if Known(reference, items[n]) {
      var a, from := LastPlace(reference, t, items[n], next);
      var earlier := CountAttained(reference, items[..n], from);
      BreakIff(reference, items[..n], earlier, from, a);
      Appended(reference, items, earlier, a);
      places := earlier + [a];
    } else {
      UnplacedStep(reference, t, items[n]);
      var earlier := CountAttained(reference, items[..n], if t.expected == [] then 0 else t.expected[0]);
      Appended(reference, items, earlier, -1);
      places := earlier + [-1];
    }
  }

  /** Items without a place never count as order errors. */
  lemma UnplacedStep(reference: seq<Frame>, t: Tally, item: Item)
    requires reference != [] && Sound(reference, t) && !Known(reference, item)
    ensures Step(reference, t, item).orderErrors == t.orderErrors
  {
    if item.Received? {
      AllPositionsMatch(reference, item.frame);
      NothingMatches(reference, t, item.frame);
    }
  }

  lemma NothingMatches(reference: seq<Frame>, t: Tally, frame: Frame)
    requires Sound(reference, t) && frame !in reference
    ensures Matches(reference, t.expected, frame) == []
  {
    var next := Matches(reference, t.expected, frame);
    if next != [] {
      MatchesExact(reference, t.expected, frame, next[0]);
    }
  }

  // ---- counting errors ---------------------------------------------------------------------

  function Unknown(reference: seq<Frame>, items: seq<Item>): nat {
    if items == [] then 0
    else
      var last := items[|items| - 1];
      Unknown(reference, items[..|items| - 1]) + if last.Received? && last.frame !in reference then 1 else 0
  }

  function Rejections(items: seq<Item>): nat {
    if items == [] then 0
    else Rejections(items[..|items| - 1]) + if items[|items| - 1].Rejected? then 1 else 0
  }

  /** Byte errors are exactly the frames that occur nowhere in the reference. */
  lemma {:induction false} ErrorsCounted(reference: seq<Frame>, items: seq<Item>)
    requires reference != []
    ensures Probe(reference, items).byteErrors == Unknown(reference, items)
    ensures Probe(reference, items).grainErrors == Rejections(items)
  {
    if items != [] {
      var n := |items| - 1;
      var item, t := items[n], Probe(reference, items[..n]);
      ErrorsCounted(reference, items[..n]);
      if item.Received? {
        AllPositionsMatch(reference, item.frame);
        if item.frame !in reference {
          NothingMatches(reference, t, item.frame);
        }
      }
    }
  }

  // ---- cutting the payload into pieces of the cyclic reference --------------------------------

  function Items(frames: seq<Frame>): seq<Item> {
    seq(|frames|, i requires 0 <= i < |frames| => Received(frames[i]))
  }

  /** `piece` is what a reader sees that starts at position `start` of the endlessly
      repeated reference. */
  predicate FitsAt(reference: seq<Frame>, piece: seq<Frame>, start: nat)
    requires reference != []
  {
    forall k :: 0 <= k < |piece| ==> piece[k] == reference[Modular.Wrap(start + k, |reference|)]
  }

  predicate Occurs(reference: seq<Frame>, piece: seq<Frame>)
    requires reference != []
  {
    exists start :: 0 <= start < |reference| && FitsAt(reference, piece, start)
  }

  function Join(pieces: seq<seq<Frame>>): seq<Frame> {
    if pieces == [] then [] else Join(pieces[..|pieces| - 1]) + pieces[|pieces| - 1]
  }

  predicate Segmentation(reference: seq<Frame>, frames: seq<Frame>, pieces: seq<seq<Frame>>)
    requires reference != []
  {
    && Join(pieces) == frames
    && forall p :: 0 <= p < |pieces| ==> pieces[p] != [] && Occurs(reference, pieces[p])
  }

  lemma AfterWrap(i: nat, R: nat)
    requires R > 0
    ensures After(Modular.Wrap(i, R), R) == Modular.Wrap(i + 1, R)
  {
    Modular.Offset(i, 1, R);
    Modular.Offset(Modular.Wrap(i, R), 1, R);
  }

  lemma ItemsAppend(frames: seq<Frame>, f: Frame)
    ensures Items(frames + [f]) == Items(frames) + [Received(f)]
  {}

  /** Every frame is placed at a position of the reference that holds it. */
  predicate Placed(reference: seq<Frame>, frames: seq<Frame>, places: seq<int>) {
    && |places| == |frames|
    && forall n :: 0 <= n < |places| ==> 0 <= places[n] < |reference| && reference[places[n]] == frames[n]
  }

  lemma KnownArePlaced(reference: seq<Frame>, frames: seq<Frame>, places: seq<int>)
    requires Placement(reference, Items(frames), places)
    requires forall n :: 0 <= n < |frames| ==> frames[n] in reference
    ensures Placed(reference, frames, places)
  {
    forall n | 0 <= n < |places| ensures 0 <= places[n] < |reference| && reference[places[n]] == frames[n] {
      assert Known(reference, Items(frames)[n]);
    }
  }

  lemma PlacedIsPlacement(reference: seq<Frame>, frames: seq<Frame>, places: seq<int>)
    requires Placed(reference, frames, places)
    ensures Placement(reference, Items(frames), places)
  {
    forall n | 0 <= n < |places| ensures Known(reference, Items(frames)[n]) {
      assert reference[places[n]] in reference;
    }
  }

  lemma MoreBreaks(R: nat, places: seq<int>, a: int)
    ensures Breaks(R, places + [a]) == Breaks(R, places) + if places != [] && Break(R, places[|places| - 1], a) then 1 else 0
  {
    assert (places + [a])[..|places|] == places;
  }

  lemma PlaceOne(reference: seq<Frame>, frames: seq<Frame>, places: seq<int>, f: Frame, a: nat)
    requires Placed(reference, frames, places) && a < |reference| && reference[a] == f
    ensures Placed(reference, frames + [f], places + [a])
  {}

  /** A frame placed right after the last one adds no break. */
  lemma PlaceNext(reference: seq<Frame>, frames: seq<Frame>, places: seq<int>, f: Frame, position: nat)
    requires reference != [] && Placed(reference, frames, places) && places != []
    requires places[|places| - 1] == Modular.Wrap(position, |reference|)
    requires reference[Modular.Wrap(position + 1, |reference|)] == f
    ensures var more := places + [Modular.Wrap(position + 1, |reference|)];
      Placed(reference, frames + [f], more) && Breaks(|reference|, more) == Breaks(|reference|, places)
  {
    AfterWrap(position, |reference|);
    PlaceOne(reference, frames, places, f, Modular.Wrap(position + 1, |reference|));
    MoreBreaks(|reference|, places, Modular.Wrap(position + 1, |reference|));
  }

  /** Frames placed with few enough breaks, the last one at the given place. */
  predicate PlacedUpTo(reference: seq<Frame>, frames: seq<Frame>, places: seq<int>, breaks: nat, position: nat)
    requires reference != []
  {
    && Placed(reference, frames, places) && Breaks(|reference|, places) <= breaks
    && places != [] && places[|places| - 1] == Modular.Wrap(position, |reference|)
  }

  lemma PlacedOneMore(reference: seq<Frame>, frames: seq<Frame>, places: seq<int>, breaks: nat, position: nat, f: Frame) returns (more: seq<int>)
    requires reference != [] && PlacedUpTo(reference, frames, places, breaks, position)
    requires reference[Modular.Wrap(position + 1, |reference|)] == f
    ensures PlacedUpTo(reference, frames + [f], more, breaks, position + 1)
  {
    more := places + [Modular.Wrap(position + 1, |reference|)];
    PlaceNext(reference, frames, places, f, position);
  }

  /** Placing the first n frames of a piece costs at most the break at its beginning. */
  lemma {:induction false} PlacePiece(reference: seq<Frame>, frames: seq<Frame>, places: seq<int>, piece: seq<Frame>, start: nat, n: nat)
      returns (more: seq<int>)
    requires reference != [] && FitsAt(reference, piece, start) && 1 <= n <= |piece|
    requires Placed(reference, frames, places)
    ensures PlacedUpTo(reference, frames + piece[..n], more, Breaks(|reference|, places) + if frames == [] then 0 else 1, start + n - 1)
    decreases n
  {
    FitsLast(reference, piece, start, n - 1);
    LongerPrefix(frames, piece, n);
    if n == 1 {
      more := PlacedFirst(reference, frames, places, start, piece[0]);
    } else {
      more := PlacePiece(reference, frames, places, piece, start, n - 1);
      more := PlacedOneMore(reference, frames + piece[..n - 1], more, Breaks(|reference|, places) + (if frames == [] then 0 else 1), start + n - 2, piece[n - 1]);
    }
  }

  lemma FitsLast(reference: seq<Frame>, piece: seq<Frame>, start: nat, k: nat)
    requires reference != [] && FitsAt(reference, piece, start) && k < |piece|
    ensures reference[Modular.Wrap(start + k, |reference|)] == piece[k]
  {}

  lemma PlacedFirst(reference: seq<Frame>, frames: seq<Frame>, places: seq<int>, position: nat, f: Frame) returns (more: seq<int>)
    requires reference != [] && Placed(reference, frames, places) && reference[Modular.Wrap(position, |reference|)] == f
    ensures PlacedUpTo(reference, frames + [f], more, Breaks(|reference|, places) + if frames == [] then 0 else 1, position)
  {
    more := places + [Modular.Wrap(position, |reference|)];
    PlaceOne(reference, frames, places, f, Modular.Wrap(position, |reference|));
    MoreBreaks(|reference|, places, Modular.Wrap(position, |reference|));
  }

  lemma LongerPrefix(frames: seq<Frame>, piece: seq<Frame>, n: nat)
    requires 1 <= n <= |piece|
    ensures frames + piece[..n] == frames + piece[..n - 1] + [piece[n - 1]]
  {}

  lemma {:induction false} PlacePieces(reference: seq<Frame>, frames: seq<Frame>, pieces: seq<seq<Frame>>) returns (places: seq<int>)
    requires reference != [] && Segmentation(reference, frames, pieces)
    ensures Placed(reference, frames, places)
    ensures Breaks(|reference|, places) <= if pieces == [] then 0 else |pieces| - 1
    decreases |pieces|
  {
    if pieces == [] {
      return [];
    }
    var n := |pieces| - 1;
    var earlier, piece := Join(pieces[..n]), pieces[n];
    places := PlacePieces(reference, earlier, pieces[..n]);
    var start :| 0 <= start < |reference| && FitsAt(reference, piece, start);
    places := PlacePiece(reference, earlier, places, piece, start, |piece|);
    assert piece[..|piece|] == piece;
    NoEmptyJoin(pieces[..n]);
  }

  lemma NoEmptyJoin(pieces: seq<seq<Frame>>)
    requires forall p :: 0 <= p < |pieces| ==> pieces[p] != []
    ensures Join(pieces) == [] <==> pieces == []
  {}

  lemma NewPiece(reference: seq<Frame>, frames: seq<Frame>, pieces: seq<seq<Frame>>, f: Frame, a: nat)
    requires reference != [] && Segmentation(reference, frames, pieces)
    requires a < |reference| && FitsAt(reference, [f], a)
    ensures Segmentation(reference, frames + [f], pieces + [[f]])
  {
    assert (pieces + [[f]])[..|pieces|] == pieces;
  }

  lemma LongerPiece(reference: seq<Frame>, frames: seq<Frame>, pieces: seq<seq<Frame>>, f: Frame, start: nat)
    requires reference != [] && Segmentation(reference, frames, pieces) && pieces != []
    requires var last := pieces[|pieces| - 1];
      start < |reference| && FitsAt(reference, last, start) && f == reference[Modular.Wrap(start + |last|, |reference|)]
    ensures var m := |pieces| - 1;
      && Segmentation(reference, frames + [f], pieces[..m] + [pieces[m] + [f]])
      && FitsAt(reference, pieces[m] + [f], start)
  {
    var m := |pieces| - 1;
    var longer := pieces[..m] + [pieces[m] + [f]];
    assert longer[..m] == pieces[..m];
    assert FitsAt(reference, pieces[m] + [f], start);
    assert Join(longer) == Join(pieces[..m]) + (pieces[m] + [f]) == frames + [f];
  }

  /** The pieces cut exactly at the breaks of a placement, and where the last one starts. */
  predicate CutInto(reference: seq<Frame>, frames: seq<Frame>, places: seq<int>, pieces: seq<seq<Frame>>, start: nat)
    requires reference != []
  {
    && Segmentation(reference, frames, pieces) && |pieces| == Breaks(|reference|, places) + 1
    && start < |reference| && FitsAt(reference, pieces[|pieces| - 1], start)
    && pieces[|pieces| - 1] != [] && places != []
    && Modular.Wrap(start + |pieces[|pieces| - 1]| - 1, |reference|) == places[|places| - 1]
  }

  lemma CutHere(reference: seq<Frame>, frames: seq<Frame>, places: seq<int>, pieces: seq<seq<Frame>>, from: nat, f: Frame, a: nat)
    requires reference != [] && CutInto(reference, frames, places, pieces, from)
    requires a < |reference| && FitsAt(reference, [f], a) && Break(|reference|, places[|places| - 1], a)
    ensures CutInto(reference, frames + [f], places + [a], pieces + [[f]], a)
  {
    NewPiece(reference, frames, pieces, f, a);
    assert (places + [a])[..|places|] == places;
  }

  lemma GoOn(reference: seq<Frame>, frames: seq<Frame>, places: seq<int>, pieces: seq<seq<Frame>>, from: nat, f: Frame, a: nat)
    requires reference != [] && CutInto(reference, frames, places, pieces, from)
    requires a < |reference| && FitsAt(reference, [f], a) && !Break(|reference|, places[|places| - 1], a)
    ensures CutInto(reference, frames + [f], places + [a], pieces[..|pieces| - 1] + [pieces[|pieces| - 1] + [f]], from)
  {
    var last := pieces[|pieces| - 1];
    AfterWrap(from + |last| - 1, |reference|);
    assert a == Modular.Wrap(from + |last|, |reference|);
    assert reference[a] == [f][0];
    LongerPiece(reference, frames, pieces, f, from);
    assert (places + [a])[..|places|] == places;
  }

  lemma FitsAlone(reference: seq<Frame>, f: Frame, a: nat)
    requires a < |reference| && reference[a] == f
    ensures FitsAt(reference, [f], a)
  {}

  /** The first frame is a piece of its own. */
  lemma CutFirst(reference: seq<Frame>, f: Frame, a: nat)
    requires reference != [] && a < |reference| && FitsAt(reference, [f], a)
    ensures CutInto(reference, [f], [a], [[f]], a)
  {
    assert Join([]) == [];
    assert [[f]][..0] == [] && [] + [f] == [f];
    assert Join([[f]]) == [f];
  }

  /** One more frame opens a new piece at a break, and extends the last piece elsewhere. */
  lemma CutNext(reference: seq<Frame>, frames: seq<Frame>, places: seq<int>, earlier: seq<seq<Frame>>, from: nat, f: Frame, a: nat)
    returns (pieces: seq<seq<Frame>>, start: nat)
    requires reference != [] && CutInto(reference, frames, places, earlier, from)
    requires a < |reference| && FitsAt(reference, [f], a)
    ensures CutInto(reference, frames + [f], places + [a], pieces, start)
  {
    if Break(|reference|, places[|places| - 1], a) {
      CutHere(reference, frames, places, earlier, from, f, a);
      pieces, start := earlier + [[f]], a;
    } else {
      GoOn(reference, frames, places, earlier, from, f, a);
      pieces, start := earlier[..|earlier| - 1] + [earlier[|earlier| - 1] + [f]], from;
    }
  }

  lemma {:induction false} CutAtBreaks(reference: seq<Frame>, frames: seq<Frame>, places: seq<int>)
    returns (pieces: seq<seq<Frame>>, start: nat)
    requires reference != [] && frames != [] && Placed(reference, frames, places)
    ensures CutInto(reference, frames, places, pieces, start)
    decreases |frames|
  {
    var n := |frames| - 1;
    var f, a := frames[n], places[n];
    FitsAlone(reference, f, a);
    if n == 0 {
      assert frames == [f] && places == [a];
      CutFirst(reference, f, a);
      pieces, start := [[f]], a;
    } else {
      pieces, start := CutAtBreaks(reference, frames[..n], places[..n]);
      pieces, start := CutNext(reference, frames[..n], places[..n], pieces, start, f, a);
      assert frames == frames[..n] + [f] && places == places[..n] + [a];
    }
  }

  /** In a run without byte errors the probe's order errors are the smallest number of cuts
      that splits the received frames into pieces of the cyclic reference. */
  lemma OrderErrorsAreFewestCuts(reference: seq<Frame>, frames: seq<Frame>, pieces: seq<seq<Frame>>) returns (best: seq<seq<Frame>>)
    requires reference != [] && frames != []
    requires Probe(reference, Items(frames)).byteErrors == 0
    ensures Segmentation(reference, frames, best) && |best| == Probe(reference, Items(frames)).orderErrors + 1
    ensures Segmentation(reference, frames, pieces) ==> |best| <= |pieces|
  {
    var t := Probe(reference, Items(frames));
    AllKnown(reference, frames);
    var places := CountAttained(reference, Items(frames), if t.expected == [] then 0 else t.expected[0]);
    KnownArePlaced(reference, frames, places);
    var start;
    best, start := CutAtBreaks(reference, frames, places);
    if Segmentation(reference, frames, pieces) {
      var other := PlacePieces(reference, frames, pieces);
      PlacedIsPlacement(reference, frames, other);
      NoFewerBreaks(reference, Items(frames), other);
    }
  }

  lemma {:induction false} AllKnown(reference: seq<Frame>, frames: seq<Frame>)
    requires reference != []
    ensures Probe(reference, Items(frames)).byteErrors == 0 <==> forall n :: 0 <= n < |frames| ==> frames[n] in reference
    decreases |frames|
  {
    ErrorsCounted(reference, Items(frames));
    if frames != [] {
      var n := |frames| - 1;
      assert frames == frames[..n] + [frames[n]];
      ItemsAppend(frames[..n], frames[n]);
      AllKnown(reference, frames[..n]);
      ErrorsCounted(reference, Items(frames[..n]));
      assert Items(frames)[..n] == Items(frames[..n]);
    }
  }

  /** The probe finds nothing wrong exactly when the frames are the reference, repeated, from
      some starting position on. */
  lemma CleanIffCyclic(reference: seq<Frame>, frames: seq<Frame>)
    requires reference != [] && frames != []
    ensures Probe(reference, Items(frames)).byteErrors == 0 && Probe(reference, Items(frames)).orderErrors == 0
      <==> Occurs(reference, frames)
  {
    if Occurs(reference, frames) {
      AllKnown(reference, frames);
      assert Join([frames][..0]) == [];
      assert Segmentation(reference, frames, [frames]);
      var places := PlacePieces(reference, frames, [frames]);
      PlacedIsPlacement(reference, frames, places);
      NoFewerBreaks(reference, Items(frames), places);
    }
    if Probe(reference, Items(frames)).byteErrors == 0 && Probe(reference, Items(frames)).orderErrors == 0 {
      var best := OrderErrorsAreFewestCuts(reference, frames, []);
      assert best[..0] == [] && Join(best[..0]) == [];
      assert best[0] == frames;
    }
  }

  // ---- an all-equal reference ------------------------------------------------------------------

  predicate AllEqual(reference: seq<Frame>) {
    forall k :: 0 <= k < |reference| ==> reference[k] == reference[0]
  }

  lemma SameMembers(reference: seq<Frame>, f: Frame)
    requires reference != [] && AllEqual(reference)
    ensures f in reference <==> f in [reference[0]]
  {
    assert reference[0] in reference;
  }

  /** Collapsing a reference of equal frames to one frame changes no counter. */
  lemma {:induction false} CollapseKeepsCounts(reference: seq<Frame>, items: seq<Item>)
    requires reference != [] && AllEqual(reference)
    ensures var t, u := Probe(reference, items), Probe([reference[0]], items);
      && t.byteErrors == u.byteErrors && t.orderErrors == u.orderErrors && t.grainErrors == u.grainErrors
    decreases |items|
  {
    if items != [] {
      var n, one := |items| - 1, [reference[0]];
      CollapseKeepsCounts(reference, items[..n]);
      match items[n]
      case Rejected =>
      case Received(frame) =>
        SameMembers(reference, frame);
        EqualStep(reference, Probe(reference, items[..n]), frame);
        EqualStep(one, Probe(one, items[..n]), frame);
    }
  }

  /** With equal frames a step never counts an order error. */
  lemma EqualStep(reference: seq<Frame>, t: Tally, frame: Frame)
    requires reference != [] && AllEqual(reference) && Sound(reference, t)
    ensures var u := Step(reference, t, Received(frame));
      && u.orderErrors == t.orderErrors && u.grainErrors == t.grainErrors
      && u.byteErrors == t.byteErrors + if frame in reference then 0 else 1
  {
    AllPositionsMatch(reference, frame);
    if frame in reference {
      if t.expected != [] {
        var c := t.expected[0];
        MatchesExact(reference, t.expected, frame, After(c, |reference|));
      }
    } else {
      NothingMatches(reference, t, frame);
    }
  }

  // ---- the probe's loop over flat memory ---------------------------------------------------------

  /** A grain as read: `intact` if its index, flags and slice counts are those of a complete
      grain at the expected index. */
  datatype Grain = Grain(intact: bool, payload: Frame)

  datatype Outcome = SizeMismatch | Checked(byteErrors: nat, orderErrors: nat, grainErrors: nat)

  /** The frames of a reference file. */
  function Split(reference: seq<int>, size: nat): seq<Frame>
    requires size > 0
  {
    if |reference| < size then [] else [reference[..size]] + Split(reference[size..], size)
  }

  /** The frame size is that of the first usable grain; zero if there is none. */
  function FrameSize(grains: seq<Grain>): nat {
    if grains == [] then 0
    else
      var earlier, last := FrameSize(grains[..|grains| - 1]), grains[|grains| - 1];
      if earlier != 0 then earlier else if last.intact then |last.payload| else 0
  }

  function Classify(grain: Grain, size: nat): Item {
    if grain.intact && |grain.payload| == size then Received(grain.payload) else Rejected
  }

  function ClassifyAll(grains: seq<Grain>, size: nat): (items: seq<Item>)
    ensures |items| == |grains| && forall i :: 0 <= i < |grains| ==> items[i] == Classify(grains[i], size)
  {
    seq(|grains|, i requires 0 <= i < |grains| => Classify(grains[i], size))
  }

  /** What the probe should report: the tally over the frames of the whole reference. */
  function Verdict(reference: seq<int>, grains: seq<Grain>): Outcome
    requires reference != []
  {
    var size := FrameSize(grains);
    if size == 0 then Checked(0, 0, |grains|)
    else if |reference| % size != 0 then SizeMismatch
    else
      var t := Probe(Split(reference, size), ClassifyAll(grains, size));
      Checked(t.byteErrors, t.orderErrors, t.grainErrors)
  }

  /** What the frame size and the grain errors mean: the size is that of the first intact grain with
      a payload, and every grain that is not intact or not of this size is an error. */
  predicate Usable(grain: Grain) {
    grain.intact && grain.payload != []
  }

  lemma {:induction false} FrameSizeIs(grains: seq<Grain>)
    ensures FrameSize(grains) == 0 <==> forall i :: 0 <= i < |grains| ==> !Usable(grains[i])
    ensures forall i :: 0 <= i < |grains| && Usable(grains[i]) && (forall j :: 0 <= j < i ==> !Usable(grains[j])) ==>
              FrameSize(grains) == |grains[i].payload|
    decreases |grains|
  {
    if grains != [] {
      var n := |grains| - 1;
      FrameSizeIs(grains[..n]);
      assert forall j :: 0 <= j < n ==> grains[..n][j] == grains[j];
    }
  }

  ghost function Bad(grains: seq<Grain>, size: nat): set<nat> {
    set i: nat | i < |grains| && !(grains[i].intact && |grains[i].payload| == size)
  }

  lemma {:induction false} RejectionsAreBad(grains: seq<Grain>, size: nat)
    ensures Rejections(ClassifyAll(grains, size)) == |Bad(grains, size)|
    decreases |grains|
  {
    if grains != [] {
      var n := |grains| - 1;
      RejectionsAreBad(grains[..n], size);
      assert ClassifyAll(grains, size)[..n] == ClassifyAll(grains[..n], size);
      if grains[n].intact && |grains[n].payload| == size {
        assert Bad(grains, size) == Bad(grains[..n], size);
      } else {
        assert Bad(grains, size) == Bad(grains[..n], size) + {n};
      }
    } else {
      assert Bad(grains, size) == {};
    }
  }

  /** The verdict in terms of the grains: a mismatch exactly if a size is known that does not divide
      the reference; otherwise the grain errors are the grains that are not intact or not of that
      size, or all of them. */
  lemma VerdictMeans(reference: seq<int>, grains: seq<Grain>)
    requires reference != []
    ensures var size := FrameSize(grains);
      && (Verdict(reference, grains) == SizeMismatch <==> size != 0 && |reference| % size != 0)
      && (Verdict(reference, grains).Checked? ==>
            Verdict(reference, grains).grainErrors == if size == 0 then |grains| else |Bad(grains, size)|)
  {
    var size := FrameSize(grains);
    if size != 0 && |reference| % size == 0 {
      SplitCount(reference, size);
      Divides(|reference|, size);
      ErrorsCounted(Split(reference, size), ClassifyAll(grains, size));
      RejectionsAreBad(grains, size);
    }
  }

  lemma Divides(n: nat, size: nat)
    requires n > 0 && size > 0 && n % size == 0
    ensures n / size >= 1
  {
    assert n == size * (n / size);
  }

  /** Where frame k starts. */
  function StartOf(k: nat, size: nat): nat {
    if k == 0 then 0 else StartOf(k - 1, size) + size
  }

  lemma {:induction false} StartIsProduct(k: nat, size: nat)
    ensures StartOf(k, size) == k * size
  {
    if k > 0 {
      StartIsProduct(k - 1, size);
      assert k * size == (k - 1) * size + size;
    }
  }

  /** Frame k of the reference file. */
  predicate FrameAt(reference: seq<int>, size: nat, k: nat, frame: Frame) {
    StartOf(k, size) + size <= |reference| && frame == reference[StartOf(k, size)..StartOf(k, size) + size]
  }

  predicate FramesOf(reference: seq<int>, size: nat, frames: seq<Frame>) {
    forall k :: 0 <= k < |frames| ==> FrameAt(reference, size, k, frames[k])
  }

  lemma {:induction false} SplitAt(reference: seq<int>, size: nat, k: nat)
    requires size > 0 && k < |Split(reference, size)|
    ensures FrameAt(reference, size, k, Split(reference, size)[k])
    decreases k
  {
    if k > 0 {
      SplitAt(reference[size..], size, k - 1);
      SliceOfTail(reference, size, StartOf(k - 1, size), size);
    }
  }

  lemma SliceOfTail(s: seq<int>, skip: nat, at: nat, n: nat)
    requires skip + at + n <= |s|
    ensures s[skip..][at..at + n] == s[at + skip..at + skip + n]
  {}

  lemma SplitFrames(reference: seq<int>, size: nat)
    requires size > 0
    ensures FramesOf(reference, size, Split(reference, size))
  {
    forall k | 0 <= k < |Split(reference, size)| ensures FrameAt(reference, size, k, Split(reference, size)[k]) {
      SplitAt(reference, size, k);
    }
  }

  lemma {:induction false} SplitCount(reference: seq<int>, size: nat)
    requires size > 0 && |reference| % size == 0
    ensures |Split(reference, size)| == |reference| / size
    decreases |reference|
  {
    if |reference| >= size {
      Modular.Remainder(|reference|, size);
      SplitCount(reference[size..], size);
      QuotientStep(|reference|, size);
    } else if |reference| > 0 {
      Modular.Unique(|reference|, size, 0, |reference|);
    }
  }

  lemma QuotientStep(n: nat, d: nat)
    requires 0 < d <= n
    ensures n / d == (n - d) / d + 1
  {
    var q := (n - d) / d;
    assert n - d == d * q + (n - d) % d;
    assert d * (q + 1) == d * q + d;
    Modular.Unique(n, d, q + 1, (n - d) % d);
  }

  /** Comparing the reference with itself shifted by one frame detects equal frames. */
  lemma {:induction false} ShiftDetectsEqual(reference: seq<int>, size: nat)
    requires size > 0 && |reference| % size == 0 && size <= |reference|
    ensures reference[..|reference| - size] == reference[size..] <==> AllEqual(Split(reference, size))
    decreases |reference|
  {
    var rest, frames := reference[size..], Split(reference, size);
    Modular.Remainder(|reference|, size);
    if |rest| < size {
      if |rest| > 0 { Modular.Unique(|rest|, size, 0, |rest|); }
      assert rest == [];
    } else {
      ShiftDetectsEqual(rest, size);
      assert frames == [reference[..size]] + Split(rest, size);
      assert Split(rest, size)[0] == rest[..size] == reference[size..2 * size];
      ShiftOfFirst(reference, size);
      ConsAllEqual(reference[..size], Split(rest, size));
    }
  }

  lemma ConsAllEqual(first: Frame, frames: seq<Frame>)
    requires frames != []
    ensures AllEqual([first] + frames) <==> first == frames[0] && AllEqual(frames)
  {
    var all := [first] + frames;
    if AllEqual(all) {
      assert all[1] == frames[0];
      forall k | 0 <= k < |frames| ensures frames[k] == frames[0] {
        assert all[k + 1] == frames[k];
      }
    }
  }

  lemma ShiftOfFirst(reference: seq<int>, size: nat)
    requires size > 0 && 2 * size <= |reference|
    ensures reference[..|reference| - size] == reference[size..]
      <==> reference[..size] == reference[size..2 * size]
           && reference[size..][..|reference| - 2 * size] == reference[size..][size..]
  {
    var n := |reference| - size;
    var a, b := reference[..n], reference[size..];
    assert a == reference[..size] + reference[size..][..n - size];
    assert b == reference[size..2 * size] + reference[size..][size..];
    if a == b {
      assert a[..size] == b[..size] && a[size..] == b[size..];
    }
  }

  lemma {:induction false} NothingUsable(reference: seq<Frame>, grains: seq<Grain>, size: nat)
    requires reference != [] && size > 0 && FrameSize(grains) == 0
    ensures Probe(reference, ClassifyAll(grains, size)) == Tally([], 0, 0, |grains|)
    decreases |grains|
  {
    if grains != [] {
      var n := |grains| - 1;
      NothingUsable(reference, grains[..n], size);
      assert ClassifyAll(grains, size)[..n] == ClassifyAll(grains[..n], size);
    }
  }

  /** The frames the probe compares with: the first `count` of the reference, all of them
      unless they are equal. */
  ghost predicate Effective(reference: seq<int>, size: nat, count: nat, frames: seq<Frame>) {
    && size > 0 && 0 < |frames| == count <= |Split(reference, size)|
    && frames == Split(reference, size)[..count]
    && (count == |Split(reference, size)| || (count == 1 && AllEqual(Split(reference, size))))
  }

  lemma EffectiveFrames(reference: seq<int>, size: nat, count: nat, frames: seq<Frame>)
    requires Effective(reference, size, count, frames)
    ensures FramesOf(reference, size, frames)
  {
    SplitFrames(reference, size);
    forall k | 0 <= k < |frames| ensures FrameAt(reference, size, k, frames[k]) {
      assert FrameAt(reference, size, k, Split(reference, size)[k]);
    }
  }

  /** The tally over the compared frames has the counters of the tally over all frames. */
  lemma EffectiveKeepsCounts(reference: seq<int>, size: nat, count: nat, frames: seq<Frame>, items: seq<Item>)
    requires Effective(reference, size, count, frames)
    ensures var t, u := Probe(Split(reference, size), items), Probe(frames, items);
      && t.byteErrors == u.byteErrors && t.orderErrors == u.orderErrors && t.grainErrors == u.grainErrors
  {
    var all := Split(reference, size);
    if count == |all| {
      assert frames == all;
    } else {
      CollapseKeepsCounts(all, items);
      assert frames == [all[0]];
    }
  }

  /** When the frame size becomes known: how many frames to compare with. */
  method CountFrames(reference: seq<int>, size: nat) returns (count: nat, ghost frames: seq<Frame>)
    requires size > 0 && reference != [] && |reference| % size == 0
    ensures Effective(reference, size, count, frames)
  {
    SplitCount(reference, size);
    if |reference| < size { Modular.Unique(|reference|, size, 0, |reference|); }
    assert |Split(reference, size)| >= 1;
    count := |reference| / size;
    if count > 1 && reference[..|reference| - size] == reference[size..] {
      ShiftDetectsEqual(reference, size);
      count := 1;
    }
    frames := Split(reference, size)[..count];
  }

  /** The comparison of one received frame with one frame of the reference. */
  method SameFrame(reference: seq<int>, size: nat, k: nat, payload: Frame, ghost frame: Frame) returns (same: bool)
    requires |payload| == size && FrameAt(reference, size, k, frame)
    ensures same == (payload == frame)
  {
    StartIsProduct(k, size);
    same := payload == reference[k * size..k * size + size];
  }

  lemma MatchesOneMore(frames: seq<Frame>, candidates: seq<nat>, next: nat, payload: Frame)
    requires Within(candidates + [next], |frames|)
    ensures next < |frames| && Within(candidates, |frames|)
    ensures Matches(frames, candidates + [next], payload)
      == Matches(frames, candidates, payload) + if payload == frames[next] then [Modular.Wrap(next + 1, |frames|)] else []
  {
    var more := candidates + [next];
    assert more[..|more| - 1] == candidates && more[|more| - 1] == next;
    assert forall i :: 0 <= i < |candidates| ==> candidates[i] == more[i];
  }

  /** One inner loop of the probe: continue those positions whose frame is the payload. */
  method Continue(reference: seq<int>, size: nat, count: nat, ghost frames: seq<Frame>, candidates: seq<nat>, payload: Frame)
    returns (next: seq<nat>)
    requires FramesOf(reference, size, frames) && |frames| == count && |payload| == size
    requires Within(candidates, count)
    ensures next == Matches(frames, candidates, payload)
  {
    next := [];
    for i := 0 to |candidates|
      invariant Within(candidates[..i], count) && next == Matches(frames, candidates[..i], payload)
    {
      var expected := candidates[i];
      assert candidates[..i + 1] == candidates[..i] + [expected];
      MatchesOneMore(frames, candidates[..i], expected, payload);
      var same := SameFrame(reference, size, expected, payload, frames[expected]);
      if same {
        next := next + [Modular.Wrap(expected + 1, count)];
      }
    }
    assert candidates[..|candidates|] == candidates;
  }

  lemma PositionsGrow(n: nat)
    ensures Positions(n + 1) == Positions(n) + [n]
  {}

  /** The search over every position of the reference. */
  method ContinueAnywhere(reference: seq<int>, size: nat, count: nat, ghost frames: seq<Frame>, payload: Frame)
    returns (next: seq<nat>)
    requires FramesOf(reference, size, frames) && |frames| == count && |payload| == size
    ensures next == Matches(frames, Positions(count), payload)
  {
    next := [];
    for frame := 0 to count
      invariant Within(Positions(frame), count) && next == Matches(frames, Positions(frame), payload)
    {
      PositionsGrow(frame);
      MatchesOneMore(frames, Positions(frame), frame, payload);
      var same := SameFrame(reference, size, frame, payload, frames[frame]);
      if same {
        next := next + [Modular.Wrap(frame + 1, count)];
      }
    }
  }

  /** A received frame: the candidate set and the two counters it may change. */
  method Examine(reference: seq<int>, size: nat, count: nat, ghost frames: seq<Frame>, payload: Frame, expected: seq<nat>,
                 byteErrors: nat, orderErrors: nat, ghost grainErrors: nat)
    returns (next: seq<nat>, bytes: nat, orders: nat)
    requires FramesOf(reference, size, frames) && |frames| == count > 0 && |payload| == size
    requires Within(expected, count)
    ensures Tally(next, bytes, orders, grainErrors)
      == Step(frames, Tally(expected, byteErrors, orderErrors, grainErrors), Received(payload))
  {
    bytes, orders := byteErrors, orderErrors;
    next := Continue(reference, size, count, frames, expected, payload);
    if next == [] {
      next := ContinueAnywhere(reference, size, count, frames, payload);
      if next == [] {
        bytes := bytes + 1;
      } else if expected != [] {
        orders := orders + 1;
      }
    }
  }

  /** What the probe has computed after the first grains. */
  ghost predicate Accounted(reference: seq<int>, grains: seq<Grain>, size: nat, count: nat, frames: seq<Frame>, t: Tally) {
    && FrameSize(grains) == size
    && if size == 0 then t == Tally([], 0, 0, |grains|)
       else Effective(reference, size, count, frames) && t == Probe(frames, ClassifyAll(grains, size))
  }

  lemma OneMoreSize(grains: seq<Grain>, grain: Grain)
    ensures FrameSize(grains + [grain])
      == if FrameSize(grains) != 0 then FrameSize(grains) else if grain.intact then |grain.payload| else 0
  {
    var more := grains + [grain];
    assert more[..|more| - 1] == grains && more[|more| - 1] == grain;
  }

  lemma OneMoreItem(grains: seq<Grain>, grain: Grain, size: nat)
    ensures ClassifyAll(grains + [grain], size) == ClassifyAll(grains, size) + [Classify(grain, size)]
  {}

  lemma OneMoreGrain(grains: seq<Grain>, grain: Grain, size: nat)
    ensures ClassifyAll(grains + [grain], size)[..|grains|] == ClassifyAll(grains, size)
    ensures ClassifyAll(grains + [grain], size)[|grains|] == Classify(grain, size)
    ensures FrameSize(grains + [grain])
      == if FrameSize(grains) != 0 then FrameSize(grains) else if grain.intact then |grain.payload| else 0
  {
    OneMoreSize(grains, grain);
    OneMoreItem(grains, grain, size);
    var items := ClassifyAll(grains, size);
    assert (items + [Classify(grain, size)])[..|items|] == items;
  }

  /** A grain that is rejected leaves no candidates. */
  lemma RejectedGrain(reference: seq<int>, grains: seq<Grain>, size: nat, count: nat, frames: seq<Frame>, t: Tally, grain: Grain)
    requires Accounted(reference, grains, size, count, frames, t)
    requires !grain.intact || grain.payload == [] || (size != 0 && |grain.payload| != size)
    ensures Accounted(reference, grains + [grain], size, count, frames, Tally([], t.byteErrors, t.orderErrors, t.grainErrors + 1))
  {
    OneMoreGrain(grains, grain, size);
  }

  /** The first usable grain fixes what is compared; so far there were only grain errors. */
  lemma FirstUsable(reference: seq<int>, grains: seq<Grain>, frames: seq<Frame>, count: nat, t: Tally, grain: Grain)
    requires Accounted(reference, grains, 0, 0, [], t)
    requires grain.intact && grain.payload != [] && Effective(reference, |grain.payload|, count, frames)
    ensures Compared(reference, grains, |grain.payload|, count, frames, t)
    ensures FrameSize(grains + [grain]) == |grain.payload|
  {
    NothingUsable(frames, grains, |grain.payload|);
    OneMoreSize(grains, grain);
  }

  /** The tally over the first grains, once the frame size is known. */
  ghost predicate Compared(reference: seq<int>, grains: seq<Grain>, size: nat, count: nat, frames: seq<Frame>, t: Tally) {
    Effective(reference, size, count, frames) && t == Probe(frames, ClassifyAll(grains, size))
  }

  lemma LaterGrain(reference: seq<int>, grains: seq<Grain>, size: nat, count: nat, frames: seq<Frame>, t: Tally, grain: Grain)
    requires Accounted(reference, grains, size, count, frames, t) && size != 0
    ensures Compared(reference, grains, size, count, frames, t)
    ensures FrameSize(grains + [grain]) == size
  {
    OneMoreSize(grains, grain);
  }

  lemma ComparedFrames(reference: seq<int>, grains: seq<Grain>, size: nat, count: nat, frames: seq<Frame>, t: Tally)
    requires Compared(reference, grains, size, count, frames, t)
    ensures FramesOf(reference, size, frames) && |frames| == count > 0 && size > 0 && Within(t.expected, count)
  {
    EffectiveFrames(reference, size, count, frames);
  }

  lemma AcceptedGrain(reference: seq<int>, grains: seq<Grain>, size: nat, count: nat, frames: seq<Frame>, t: Tally, u: Tally, grain: Grain)
    requires Compared(reference, grains, size, count, frames, t) && FrameSize(grains + [grain]) == size
    requires grain.intact && |grain.payload| == size && u == Step(frames, t, Received(grain.payload))
    ensures Accounted(reference, grains + [grain], size, count, frames, u)
  {
    OneMoreGrain(grains, grain, size);
  }

  /** The frame size never changes once it is known. */
  lemma {:induction false} SizeStays(grains: seq<Grain>, n: nat)
    requires n <= |grains| && FrameSize(grains[..n]) != 0
    ensures FrameSize(grains) == FrameSize(grains[..n])
    decreases |grains| - n
  {
    if n < |grains| {
      assert grains[..n + 1][..n] == grains[..n];
      SizeStays(grains, n + 1);
    } else {
      assert grains[..n] == grains;
    }
  }

  /** The frame size is known, but the reference does not consist of whole frames. */
  lemma MismatchFound(reference: seq<int>, grains: seq<Grain>, n: nat)
    requires reference != [] && n < |grains|
    requires var size := FrameSize(grains[..n + 1]); size != 0 && |reference| % size != 0
    ensures Verdict(reference, grains) == SizeMismatch
  {
    SizeStays(grains, n + 1);
  }

  lemma AllAccounted(reference: seq<int>, grains: seq<Grain>, size: nat, count: nat, frames: seq<Frame>, t: Tally)
    requires reference != [] && Accounted(reference, grains, size, count, frames, t)
    requires size != 0 ==> |reference| % size == 0
    ensures Verdict(reference, grains) == Checked(t.byteErrors, t.orderErrors, t.grainErrors)
  {
    if size != 0 {
      EffectiveKeepsCounts(reference, size, count, frames, ClassifyAll(grains, size));
    }
  }

  /** The whole payload check. The candidate sets, the late discovery of the frame size and the
      collapsed reference compute the verdict over the frames of the whole reference. */
  method VerifyPayload(reference: seq<int>, grains: seq<Grain>) returns (result: Outcome)
    requires reference != []
    ensures result == Verdict(reference, grains)
  {
    var byteErrors: nat, orderErrors: nat, grainErrors: nat := 0, 0, 0;
    var frameSize: nat, referenceCount: nat := 0, 0;
    var expectedFrames: seq<nat> := [];
    ghost var frames: seq<Frame> := [];
    for n := 0 to |grains|
      invariant Accounted(reference, grains[..n], frameSize, referenceCount, frames,
                          Tally(expectedFrames, byteErrors, orderErrors, grainErrors))
      invariant frameSize == 0 ==> referenceCount == 0 && frames == []
      invariant frameSize != 0 ==> |reference| % frameSize == 0
    {
      var grain := grains[n];
      ghost var earlier, before := grains[..n], Tally(expectedFrames, byteErrors, orderErrors, grainErrors);
      assert grains[..n + 1] == earlier + [grain];
      if !grain.intact || grain.payload == [] || (frameSize != 0 && |grain.payload| != frameSize) {
        RejectedGrain(reference, earlier, frameSize, referenceCount, frames, before, grain);
        grainErrors := grainErrors + 1;
        expectedFrames := [];
      } else {
        if frameSize == 0 {
          frameSize := |grain.payload|;
          if |reference| % frameSize != 0 {
            OneMoreSize(earlier, grain);
            MismatchFound(reference, grains, n);
            return SizeMismatch;
          }
          referenceCount, frames := CountFrames(reference, frameSize);
          FirstUsable(reference, earlier, frames, referenceCount, before, grain);
        } else {
          LaterGrain(reference, earlier, frameSize, referenceCount, frames, before, grain);
        }
        ComparedFrames(reference, earlier, frameSize, referenceCount, frames, before);
        expectedFrames, byteErrors, orderErrors := Examine(reference, frameSize, referenceCount, frames, grain.payload,
                                                           expectedFrames, byteErrors, orderErrors, grainErrors);
        AcceptedGrain(reference, earlier, frameSize, referenceCount, frames, before,
                      Tally(expectedFrames, byteErrors, orderErrors, grainErrors), grain);
      }
    }
    assert grains[..|grains|] == grains;
    AllAccounted(reference, grains, frameSize, referenceCount, frames, Tally(expectedFrames, byteErrors, orderErrors, grainErrors));
    result := Checked(byteErrors, orderErrors, grainErrors);
  }
}
