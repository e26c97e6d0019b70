/** Opening and committing grains one store at a time, and what a reader can see between two
    stores. */
module DiscreteTail {
  import opened MachineWords
  import opened DiscreteRing
  import opened DiscreteGaps
  import Modular

  /** The fields of a header, copied in an unspecified order. */
  datatype Field = IndexField | FlagsField | RestField | TotalField | ValidField

  const ALL_FIELDS: set<Field> := {IndexField, FlagsField, RestField, TotalField, ValidField}

  /** Between two stores of the writer. An open marks the skipped grains below m, storing the
      index, the slice count and the flag of each; then it resets the header of its own grain,
      storing the index, the flag and the slice count. A commit copies its header, with the
      fields `missing` still to follow. */
  datatype Phase =
    | Closed
    | Skipping(index: nat, m: nat)
    | Emptying(index: nat, m: nat)
    | Invalidating(index: nat, m: nat)
    | Flagging(index: nat)
    | Counting(index: nat)
    | Opened(index: nat)
    | Copying(info: Grain, missing: set<Field>)

  /** `last` is the last complete commit of the present writer; `first` is the first committed
      index once `started`; `log` has the header last committed for each index, unless it was
      marked as skipped since; `torn` has the indices whose writer died while it copied the
      header, and that nobody committed since. */
  datatype Tail = Tail(slots: seq<Grain>, head: nat, started: bool, last: nat, phase: Phase, first: nat, log: map<nat, Grain>, torn: set<nat>)

  /** Restart: the writer is replaced, in an orderly way or because it died between two stores. */
  datatype Store = OpenStart(index: nat) | Proceed | Abandon | StoreHead(info: Grain) | CopyField(field: Field) | Finish | Restart

  function CopyInto(g: Grain, info: Grain, field: Field): Grain {
    match field
    case IndexField => g.(index := info.index)
    case FlagsField => g.(invalid := info.invalid)
    case RestField => g.(rest := info.rest)
    case TotalField => g.(totalSlices := info.totalSlices)
    case ValidField => g.(validSlices := info.validSlices)
  }

  predicate Opening(phase: Phase) {
    phase.Skipping? || phase.Emptying? || phase.Invalidating? || phase.Flagging? || phase.Counting?
  }

  /** The opens the code accepts, and commits of the open grain. */
  predicate Enabled(t: Tail, store: Store) {
    match store
    case OpenStart(index) => (t.phase.Closed? || t.phase.Opened?) && index < UNDEFINED && (t.last == UNDEFINED || t.last < index)
    case Proceed => Opening(t.phase)
    case Abandon => t.phase.Opened?
    case StoreHead(info) => t.phase.Opened? && info.index == t.phase.index && info.totalSlices >= 1
    case CopyField(field) => t.phase.Copying? && field in t.phase.missing
    case Finish => t.phase.Copying? && t.phase.missing == {}
    case Restart => true
  }

  /** One store into the header of position i. */
  function Write(t: Tail, i: nat, g: Grain, phase: Phase): (u: Tail)
    requires t.slots != []
    ensures |u.slots| == |t.slots|
  {
    t.(slots := Put(t.slots, i, g), phase := phase)
  }

  /** The next store of an open. */
  function Proceeding(t: Tail): (u: Tail)
    requires t.slots != [] && Opening(t.phase)
    ensures |u.slots| == |t.slots|
  {
    match t.phase
    case Skipping(index, m) =>
      if m < index then Write(t, m, Slot(t.slots, m).(index := m), Emptying(index, m))
      else if Slot(t.slots, index).index == index then t.(phase := Opened(index))
      else Write(t, index, Slot(t.slots, index).(index := index), Flagging(index))
    case Emptying(index, m) => Write(t, m, Slot(t.slots, m).(validSlices := 0), Invalidating(index, m))
    case Invalidating(index, m) => Write(t, m, Slot(t.slots, m).(invalid := true), Skipping(index, m + 1))
    case Flagging(index) => Write(t, index, Slot(t.slots, index).(invalid := false), Counting(index))
    case Counting(index) => Write(t, index, Slot(t.slots, index).(validSlices := 0), Opened(index))
  }

  function Next(t: Tail, store: Store): (u: Tail)
    requires t.slots != [] && Enabled(t, store)
    ensures |u.slots| == |t.slots|
  {
    match store
    case OpenStart(index) => t.(phase := Skipping(index, FirstInvalidated(t.last, index, |t.slots|)))
    case Proceed => Forgetting(Proceeding(t), t.phase)
    case Abandon => t.(phase := Closed)
    case StoreHead(info) =>
      t.(head := info.index, first := if t.started then t.first else info.index, started := true,
         phase := Copying(info, ALL_FIELDS))
    case CopyField(field) =>
      var info := t.phase.info;
      Write(t, info.index, CopyInto(Slot(t.slots, info.index), info, field), Copying(info, t.phase.missing - {field}))
    case Finish =>
      var info := t.phase.info;
      t.(log := t.log[info.index := info], torn := t.torn - {info.index},
         last := if info.Complete() then info.index else t.last,
         phase := if info.Complete() then Closed else Opened(info.index))
    case Restart =>
      t.(last := UNDEFINED, phase := Closed, torn := if t.phase.Copying? then t.torn + {t.head} else t.torn)
  }

  /** A grain whose slices are taken away is no longer a committed one. */
  function Forgetting(u: Tail, phase: Phase): Tail {
    if phase.Emptying? then u.(log := u.log - {phase.m}, torn := u.torn - {phase.m}) else u
  }

  // ---- the stores of one open ------------------------------------------------------------------------

  /** The open of `index` after k of its stores. */
  function During(t: Tail, index: nat, k: nat): (u: Tail)
    requires t.slots != [] && Enabled(t, OpenStart(index))
    ensures |u.slots| == |t.slots|
  {
    if k == 0 then Next(t, OpenStart(index)) else Advance(During(t, index, k - 1))
  }

  function Advance(u: Tail): (v: Tail)
    requires u.slots != []
    ensures |v.slots| == |u.slots|
  {
    if Opening(u.phase) then Proceeding(u) else u
  }

  /** Three stores mark one skipped grain. */
  lemma ThreeMark(u: Tail, v: Tail, w: Tail, x: Tail)
    requires u.slots != [] && u.phase.Skipping? && u.phase.m < u.phase.index
    requires v == Advance(u) && w == Advance(v) && x == Advance(w)
    ensures var m := u.phase.m;
      x == u.(slots := Put(u.slots, m, Slot(u.slots, m).(index := m, validSlices := 0, invalid := true)), phase := Skipping(u.phase.index, m + 1))
  {
    var m := u.phase.m;
    assert x.slots == Put(u.slots, m, Slot(u.slots, m).(index := m, validSlices := 0, invalid := true));
  }

  /** Three more reset the header of the opened grain, unless it is there already. */
  lemma ThreeReset(u: Tail, v: Tail, w: Tail, x: Tail)
    requires u.slots != [] && u.phase.Skipping? && u.phase.m == u.phase.index
    requires v == Advance(u) && w == Advance(v) && x == Advance(w)
    ensures var index := u.phase.index;
      x == u.(slots := Put(u.slots, index, Reset(Slot(u.slots, index), index)), phase := Opened(index))
  {
    var index := u.phase.index;
    assert x.slots == Put(u.slots, index, Reset(Slot(u.slots, index), index));
  }

  lemma DuringNext(t: Tail, index: nat, k: nat)
    requires t.slots != [] && Enabled(t, OpenStart(index))
    ensures During(t, index, k + 1) == Advance(During(t, index, k))
  {}

  /** The open with its marks below m in place. */
  function WithMarks(t: Tail, index: nat, m: nat): (u: Tail)
    requires t.slots != [] && Enabled(t, OpenStart(index))
    ensures |u.slots| == |t.slots|
  {
    t.(slots := Invalidate(t.slots, FirstInvalidated(t.last, index, |t.slots|), m), phase := Skipping(index, m))
  }

  /** After three stores for each of the marks below m, exactly these marks are in place. */
  lemma {:induction false} DuringMarks(t: Tail, index: nat, m: nat, k: nat)
    requires t.slots != [] && Enabled(t, OpenStart(index))
    requires var from := FirstInvalidated(t.last, index, |t.slots|); from <= m <= index && k == 3 * (m - from)
    ensures During(t, index, k) == WithMarks(t, index, m)
    decreases m
  {
    if m > FirstInvalidated(t.last, index, |t.slots|) {
      var j: nat := k - 3;
      DuringMarks(t, index, m - 1, j);
      DuringMark(t, index, m, j);
      assert k == j + 3;
    } else {
      NoMark(t, index);
    }
  }

  lemma NoMark(t: Tail, index: nat)
    requires t.slots != [] && Enabled(t, OpenStart(index))
    ensures During(t, index, 0) == WithMarks(t, index, FirstInvalidated(t.last, index, |t.slots|))
  {}

  lemma DuringMark(t: Tail, index: nat, m: nat, k: nat)
    requires t.slots != [] && Enabled(t, OpenStart(index)) && FirstInvalidated(t.last, index, |t.slots|) < m <= index
    requires During(t, index, k) == WithMarks(t, index, m - 1)
    ensures During(t, index, k + 3) == WithMarks(t, index, m)
  {
    DuringThree(t, index, k);
    OneMoreMark(t, index, m, During(t, index, k), During(t, index, k + 1), During(t, index, k + 2), During(t, index, k + 3));
  }

  lemma OneMoreMark(t: Tail, index: nat, m: nat, u: Tail, v: Tail, w: Tail, x: Tail)
    requires t.slots != [] && Enabled(t, OpenStart(index)) && FirstInvalidated(t.last, index, |t.slots|) < m <= index
    requires u == WithMarks(t, index, m - 1) && v == Advance(u) && w == Advance(v) && x == Advance(w)
    ensures x == WithMarks(t, index, m)
  {
    ThreeMark(u, v, w, x);
  }

  lemma DuringThree(t: Tail, index: nat, k: nat)
    requires t.slots != [] && Enabled(t, OpenStart(index))
    ensures During(t, index, k + 1) == Advance(During(t, index, k))
    ensures During(t, index, k + 2) == Advance(During(t, index, k + 1))
    ensures During(t, index, k + 3) == Advance(During(t, index, k + 2))
  {
    DuringNext(t, index, k);
    DuringNext(t, index, k + 1);
    DuringNext(t, index, k + 2);
  }

  /** Without interruption the stores of an open have the effect of the operation. */
  lemma StoresOpen(t: Tail, index: nat, counter: nat, current: nat, k: nat)
    requires t.slots != [] && Enabled(t, OpenStart(index)) && k == 3 * (index - FirstInvalidated(t.last, index, |t.slots|))
    ensures var r := Open(Flow(t.slots, t.head, counter, current, t.last), index);
      r.0 == Ok && During(t, index, k + 3) == t.(slots := r.1.slots, phase := Opened(index))
  {
    DuringMarks(t, index, index, k);
    DuringThree(t, index, k);
    ThreeReset(During(t, index, k), During(t, index, k + 1), During(t, index, k + 2), During(t, index, k + 3));
  }

  // ---- which opens a reader can notice -------------------------------------------------------------

  /** Reads stay honest between any two stores of this open. */
  ghost predicate Unnoticed(t: Tail, index: nat)
    requires t.slots != [] && Enabled(t, OpenStart(index))
  {
    forall k: nat :: Honest(During(t, index, k).slots, t.head)
  }

  /** The grain is less than a full turn after the oldest readable position; or exactly a full
      turn, and no read for a slice succeeds on that position. */
  predicate Harmless(slots: seq<Grain>, head: nat, index: nat)
    requires slots != []
  {
    var least := Least(head, |slots|);
    index < least + |slots| || (index == least + |slots| && Read(slots, head, least, 1) != Ok)
  }

  /** During a harmless open, the slot of a readable position keeps its header, or stays quiet. */
  predicate Undisturbed(t: Tail, u: Tail, i: nat)
    requires t.slots != [] && |u.slots| == |t.slots|
  {
    || Slot(u.slots, i) == Slot(t.slots, i)
    || (Quiet(Slot(t.slots, i)) && Quiet(Slot(u.slots, i)))
  }

  /** The positions an open stores into: behind the head, up to the opened one. */
  predicate Touches(head: nat, index: nat, phase: Phase) {
    match phase
    case Skipping(i, m) => i == index && head < m <= index
    case Emptying(i, m) => i == index && head < m < index
    case Invalidating(i, m) => i == index && head < m < index
    case Flagging(i) => i == index
    case Counting(i) => i == index
    case Opened(i) => i == index
    case _ => false
  }

  lemma {:induction false} HarmlessDuring(t: Tail, index: nat, k: nat, i: nat)
    requires |t.slots| >= 2 && HasSlices(t.slots) && Enabled(t, OpenStart(index)) && t.last == t.head < UNDEFINED
    requires Harmless(t.slots, t.head, index) && InWindow(t.head, |t.slots|, i)
    ensures Touches(t.head, index, During(t, index, k).phase) && Undisturbed(t, During(t, index, k), i)
    decreases k
  {
    if k > 0 {
      HarmlessDuring(t, index, k - 1, i);
      HarmlessStore(t, During(t, index, k - 1), index, i);
    }
  }

  lemma HarmlessStore(t: Tail, u: Tail, index: nat, i: nat)
    requires |t.slots| >= 2 && HasSlices(t.slots) && t.head < UNDEFINED && |u.slots| == |t.slots|
    requires Harmless(t.slots, t.head, index) && InWindow(t.head, |t.slots|, i)
    requires Touches(t.head, index, u.phase) && Undisturbed(t, u, i) && t.head < index
    ensures Touches(t.head, index, Advance(u).phase) && Undisturbed(t, Advance(u), i)
  {
    var m := if u.phase.Skipping? || u.phase.Emptying? || u.phase.Invalidating? then u.phase.m else index;
    if SameSlot(i, m, |t.slots|) {
      Modular.Turn(i, m, |t.slots|);
      assert m == index && Quiet(Slot(t.slots, i));
    }
  }

  lemma HarmfulDuring(t: Tail, index: nat) returns (k: nat)
    requires |t.slots| >= 2 && Enabled(t, OpenStart(index)) && t.last == t.head < UNDEFINED
    requires Honest(t.slots, t.head) && !Harmless(t.slots, t.head, index)
    ensures !Honest(During(t, index, k).slots, t.head)
  {
    var least := Least(t.head, |t.slots|);
    if index == least + |t.slots| {
      k := OpenShows(t, index);
    } else {
      k := MarkShows(t, index);
    }
  }

  /** The first store into the slot of the opened grain shows its index at the oldest position. */
  lemma OpenShows(t: Tail, index: nat) returns (k: nat)
    requires |t.slots| >= 2 && Enabled(t, OpenStart(index)) && t.last == t.head < UNDEFINED
    requires var least := Least(t.head, |t.slots|);
      index == least + |t.slots| && Slot(t.slots, least).index == least && Read(t.slots, t.head, least, 1) == Ok
    ensures var least := Least(t.head, |t.slots|);
      Read(During(t, index, k).slots, t.head, least, 1) == Ok && Slot(During(t, index, k).slots, least).index == index
  {
    var least, u := Least(t.head, |t.slots|), WithMarks(t, index, index);
    OldestUnmarked(t, index);
    Modular.Offset(least, |t.slots|, |t.slots|);
    assert Slot(u.slots, index) == Slot(t.slots, least);
    var j: nat := 3 * (index - FirstInvalidated(t.last, index, |t.slots|));
    DuringMarks(t, index, index, j);
    DuringNext(t, index, j);
    k := j + 1;
    assert During(t, index, k) == Write(u, index, Slot(u.slots, index).(index := index), Flagging(index));
  }

  lemma OldestUnmarked(t: Tail, index: nat)
    requires |t.slots| >= 2 && Enabled(t, OpenStart(index)) && t.last == t.head < UNDEFINED
    requires index == Least(t.head, |t.slots|) + |t.slots|
    ensures var least := Least(t.head, |t.slots|);
      Slot(WithMarks(t, index, index).slots, least) == Slot(t.slots, least)
  {
    var n := |t.slots|;
    var least, from := Least(t.head, n), FirstInvalidated(t.last, index, n);
    InvalidateSlot(t.slots, from, index, Modular.Wrap(least, n));
    var g := Slot(Invalidate(t.slots, from, index), least);
    if g != Slot(t.slots, least) {
      Modular.Turn(least, g.index, n);
    }
  }

  lemma MarkInPlace(t: Tail, index: nat, m: nat)
    requires t.slots != [] && Enabled(t, OpenStart(index)) && FirstInvalidated(t.last, index, |t.slots|) <= m < index
    ensures Marked(WithMarks(t, index, m + 1).slots, m)
  {
    InvalidateMarks(t.slots, FirstInvalidated(t.last, index, |t.slots|), m + 1, m);
  }

  /** The mark of a skipped grain shows at the oldest position. */
  lemma MarkShows(t: Tail, index: nat) returns (k: nat)
    requires |t.slots| >= 2 && Enabled(t, OpenStart(index)) && t.last == t.head < UNDEFINED
    requires Least(t.head, |t.slots|) + |t.slots| < index
    ensures var least := Least(t.head, |t.slots|);
      Read(During(t, index, k).slots, t.head, least, 1) == Ok && Slot(During(t, index, k).slots, least).index != least
  {
    var n := |t.slots|;
    var least, from := Least(t.head, n), FirstInvalidated(t.last, index, n);
    var m := Representative(index - 1, Modular.Wrap(least, n), n);
    Modular.Turn(least, m, n);
    MarkInPlace(t, index, m);
    k := 3 * (m + 1 - from);
    DuringMarks(t, index, m + 1, k);
  }

  /** After a complete commit an open goes unnoticed by readers exactly if it is harmless. */
  lemma UnnoticedIff(t: Tail, index: nat)
    requires |t.slots| >= 2 && HasSlices(t.slots) && Enabled(t, OpenStart(index)) && t.last == t.head < UNDEFINED
    requires Honest(t.slots, t.head)
    ensures Unnoticed(t, index) <==> Harmless(t.slots, t.head, index)
  {
    if Harmless(t.slots, t.head, index) {
      forall k: nat ensures Honest(During(t, index, k).slots, t.head) {
        var u := During(t, index, k);
        forall i: nat, m: nat | m >= 1 && Read(u.slots, t.head, i, m) == Ok ensures Slot(u.slots, i).index == i {
          HarmlessDuring(t, index, k, i);
          assert Read(t.slots, t.head, i, m) == Ok;
        }
      }
    } else {
      var k := HarmfulDuring(t, index);
    }
  }

  // ---- the invariant -----------------------------------------------------------------------------------

  /** The opens of a careful client. A writer that has completed no grain yet opens the head again
      or the grain after it, because it marks nothing. After a complete grain, harmless opens and
      the grain after the head; with an incomplete head, this grain again, the one after it, or one
      less than a full turn after the oldest readable position. */
  predicate Careful(t: Tail, index: nat)
    requires t.slots != []
  {
    var n := |t.slots|;
    if !t.started then true
    else if t.last == UNDEFINED then t.head <= index <= t.head + 1
    else if t.last == t.head then index == t.head + 1 || Harmless(t.slots, t.head, index)
    else (index == t.head <= t.last + n) || index == t.head + 1 || t.head < index < Least(t.head, n) + n
  }

  /** A slot that no read for a slice succeeds on; or one that holds what its position is due: the
      committed header, the mark of a skipped grain, or what a dead writer left. */
  predicate Settled(t: Tail, j: nat)
    requires t.slots != []
  {
    || Quiet(Slot(t.slots, j))
    || (if j in t.torn then Slot(t.slots, j).index == j
        else if j in t.log then Slot(t.slots, j) == t.log[j]
        else j >= t.first && Slot(t.slots, j).Skipped(j))
  }

  /** The positions up to the head, without the one whose slot the next grain will take. */
  predicate Visible(head: nat, n: nat, j: nat) {
    j <= head && head + 1 < j + n
  }

  predicate Copies(g: Grain, info: Grain, missing: set<Field>) {
    && g.index == info.index
    && (FlagsField !in missing ==> g.invalid == info.invalid)
    && (RestField !in missing ==> g.rest == info.rest)
    && (TotalField !in missing ==> g.totalSlices == info.totalSlices)
    && (ValidField !in missing ==> g.validSlices == info.validSlices)
  }

  /** An open under way, or a grain open: what was checked before is still so. */
  predicate Permitted(t: Tail, index: nat)
    requires t.slots != []
  {
    var least, n := Least(t.head, |t.slots|), |t.slots|;
    && index < UNDEFINED
    && (t.started ==>
      if t.last == UNDEFINED then t.head <= index <= t.head + 1
      else if index == t.head then t.last < t.head
      else t.head < index && (index == t.head + 1 || index < least + n
                              || (t.last == t.head && index == least + n && Quiet(Slot(t.slots, least)))))
  }

  /** The position of the next mark: at most a turn behind, and less for the head. */
  predicate AtMark(t: Tail, index: nat, m: nat) {
    if t.last == UNDEFINED then m == index
    else t.last < m <= index <= m + |t.slots| && (index == t.head ==> index < m + |t.slots|)
  }

  /** The skipped positions after the head, below m, carry their marks; and an incomplete head that
      was marked is no longer a committed grain. */
  ghost predicate MarkedUpTo(t: Tail, m: nat)
    requires t.slots != []
  {
    t.started && t.last != UNDEFINED ==>
      && (forall j: nat :: t.head < j < m ==> Marked(t.slots, j))
      && (t.last < t.head < m ==> t.head !in t.log && t.head !in t.torn)
  }

  /** A position the code opens; before the first commit or after a restart nothing is marked. */
  ghost predicate Underway(t: Tail, index: nat, m: nat)
    requires t.slots != []
  {
    Permitted(t, index) && AtMark(t, index, m) && MarkedUpTo(t, m)
  }

  /** The grain under the writer's hand; while its header is being reset it is not shown. */
  ghost predicate Resetting(t: Tail, index: nat)
    requires t.slots != []
  {
    && Permitted(t, index) && MarkedUpTo(t, index) && Slot(t.slots, index).index == index
    && (t.started && index == t.head ==> Quiet(Slot(t.slots, index)))
  }

  ghost predicate HandOk(t: Tail)
    requires t.slots != []
  {
    match t.phase
    case Closed => true
    case Skipping(index, m) => Underway(t, index, m)
    case Emptying(index, m) => Underway(t, index, m) && m < index && Slot(t.slots, m).index == m
    case Invalidating(index, m) =>
      && Underway(t, index, m) && m < index && Slot(t.slots, m).index == m && Slot(t.slots, m).validSlices == 0
      && m !in t.log && m !in t.torn
    case Flagging(index) => Resetting(t, index)
    case Counting(index) => Resetting(t, index)
    case Opened(index) => Permitted(t, index) && MarkedUpTo(t, index) && Slot(t.slots, index).index == index
    case Copying(info, missing) =>
      && t.started && info.index == t.head && t.last != t.head && info.totalSlices >= 1
      && Copies(Slot(t.slots, t.head), info, missing)
  }

  /** Committed and torn positions lie between the first one and the head, and after the last
      complete commit only the head is one. */
  predicate Bounded(t: Tail, j: nat) {
    && t.first <= j <= t.head && (j in t.log ==> t.log[j].index == j)
    && (t.last != UNDEFINED ==> j <= t.last || j == t.head)
  }

  ghost predicate AllSettled(t: Tail)
    requires t.slots != []
  {
    forall j: nat :: Visible(t.head, |t.slots|, j) && !(t.phase.Copying? && j == t.head) ==> Settled(t, j)
  }

  ghost predicate Inv(t: Tail) {
    && |t.slots| >= 2 && HasSlices(t.slots) && t.head < UNDEFINED && HandOk(t)
    && (forall j: nat :: j in t.log || j in t.torn ==> Bounded(t, j))
    && if t.started then t.first <= t.head && AllSettled(t) && (t.last != UNDEFINED ==> t.first <= t.last <= t.head)
       else t.head == 0 && t.last == UNDEFINED && t.log == map[] && t.torn == {} && forall s :: 0 <= s < |t.slots| ==> Quiet(t.slots[s])
  }

  // ---- every store keeps it ------------------------------------------------------------------------------

  lemma StartInv(t: Tail, index: nat)
    requires Inv(t) && Enabled(t, OpenStart(index)) && Careful(t, index)
    ensures Inv(Next(t, OpenStart(index)))
  {
    var u, least := Next(t, OpenStart(index)), Least(t.head, |t.slots|);
    assert Permitted(t, index);
    assert AtMark(t, index, u.phase.m);
  }

  /** The slots an open stores into are those of the position itself or of no visible one, but for
      a quiet one that the opened grain may take. */
  lemma SlotFree(t: Tail, index: nat, p: nat, j: nat)
    requires |t.slots| >= 2 && t.started && t.head < UNDEFINED && (t.last != UNDEFINED ==> t.last <= t.head)
    requires Permitted(t, index) && (p == index || (t.last != UNDEFINED && AtMark(t, index, p)))
    requires Visible(t.head, |t.slots|, j) && SameSlot(j, p, |t.slots|) && j != p
    ensures p == index && j == Least(t.head, |t.slots|) && Quiet(Slot(t.slots, p))
  {
    if j < p {
      Modular.Turn(j, p, |t.slots|);
    } else {
      Modular.Turn(p, j, |t.slots|);
    }
  }

  /** One store of an open: what it must not change. */
  lemma WriteSettled(t: Tail, u: Tail, index: nat, p: nat, g: Grain)
    requires |t.slots| >= 2 && t.started && t.head < UNDEFINED && (t.last != UNDEFINED ==> t.last <= t.head)
    requires Permitted(t, index) && (p == index || (t.last != UNDEFINED && AtMark(t, index, p)))
    requires AllSettled(t) && !t.phase.Copying? && HasSlices(t.slots) && g.totalSlices >= 1
    requires u.slots == Put(t.slots, p, g) && u.head == t.head && u.first == t.first && u.started && u.last == t.last
    requires forall j: nat :: j != p ==> (j in u.torn <==> j in t.torn) && (j in u.log <==> j in t.log) && (j in t.log ==> u.log[j] == t.log[j])
    requires Visible(t.head, |t.slots|, p) ==> Settled(u, p)
    requires p == index && Quiet(Slot(t.slots, p)) ==> Quiet(g)
    ensures HasSlices(u.slots) && AllSettled(u) && Permitted(u, index)
  {
    var n := |t.slots|;
    forall j: nat | Visible(t.head, n, j) ensures Settled(u, j) {
      assert Settled(t, j);
      if SameSlot(j, p, n) && j != p {
        SlotFree(t, index, p, j);
      }
    }
    var least := Least(t.head, n);
    if t.last == t.head && index == least + n && index != t.head + 1 && SameSlot(least, p, n) {
      SlotFree(t, index, p, least);
    }
  }

  lemma WriteMarks(t: Tail, u: Tail, index: nat, p: nat, g: Grain, m: nat)
    requires |t.slots| >= 2 && Permitted(t, index) && MarkedUpTo(t, m) && m <= p <= index
    requires t.last != UNDEFINED ==> t.last <= t.head
    requires u.slots == Put(t.slots, p, g) && u.head == t.head && u.started == t.started && u.last == t.last
    requires u.log.Keys <= t.log.Keys && u.torn <= t.torn
    ensures MarkedUpTo(u, m)
  {
    if t.started && t.last != UNDEFINED {
      forall j: nat | t.head < j < m ensures Marked(u.slots, j) {
        assert Marked(t.slots, j);
        Different(j, p, |t.slots|);
      }
    }
  }

  /** Marking a position that is still visible: the head, or one that was skipped before. */
  lemma MarkSettled(t: Tail)
    requires Inv(t) && (t.phase.Skipping? || t.phase.Emptying? || t.phase.Invalidating?) && t.started
    requires t.phase.m < t.phase.index && Visible(t.head, |t.slots|, t.phase.m)
    ensures Settled(Next(t, Proceed), t.phase.m)
  {
    assert Settled(t, t.phase.m);
  }

  lemma ProceedBounded(t: Tail)
    requires Inv(t) && Opening(t.phase)
    ensures var u := Next(t, Proceed); forall j: nat :: j in u.log || j in u.torn ==> Bounded(u, j)
  {
    var u := Next(t, Proceed);
    forall j: nat | j in u.log || j in u.torn ensures Bounded(u, j) {
      assert Bounded(t, j);
    }
  }

  lemma ProceedMarking(t: Tail)
    requires Inv(t) && (t.phase.Skipping? || t.phase.Emptying? || t.phase.Invalidating?) && t.started
    requires t.phase.m < t.phase.index
    ensures Inv(Next(t, Proceed))
  {
    var u, m := Next(t, Proceed), t.phase.m;
    var g := Slot(u.slots, m);
    if Visible(t.head, |t.slots|, m) {
      MarkSettled(t);
    }
    WriteSettled(t, u, t.phase.index, m, g);
    WriteMarks(t, u, t.phase.index, m, g, m);
    ProceedBounded(t);
    if t.phase.Invalidating? {
      assert Marked(u.slots, m);
    }
  }

  lemma ProceedResetting(t: Tail)
    requires Inv(t) && Opening(t.phase) && t.started
    requires t.phase.Skipping? ==> t.phase.m == t.phase.index
    requires !t.phase.Emptying? && !t.phase.Invalidating?
    ensures Inv(Next(t, Proceed))
  {
    var u, index := Next(t, Proceed), t.phase.index;
    ProceedBounded(t);
    if t.phase.Skipping? && Visible(t.head, |t.slots|, index) {
      assert Settled(t, index);
    }
    if u.slots != t.slots || !t.phase.Skipping? {
      WriteSettled(t, u, index, index, Slot(u.slots, index));
      WriteMarks(t, u, index, index, Slot(u.slots, index), index);
    } else {
      assert forall j: nat :: Settled(t, j) ==> Settled(u, j);
    }
  }

  lemma ProceedInv(t: Tail)
    requires Inv(t) && Opening(t.phase)
    ensures Inv(Next(t, Proceed))
  {
    if !t.started {
    } else if t.phase.Flagging? || t.phase.Counting? || t.phase.m == t.phase.index {
      ProceedResetting(t);
    } else {
      ProceedMarking(t);
    }
  }

  lemma StoreHeadInv(t: Tail, info: Grain)
    requires Inv(t) && Enabled(t, StoreHead(info))
    ensures Inv(Next(t, StoreHead(info)))
  {
    var u, n := Next(t, StoreHead(info)), |t.slots|;
    forall j: nat | Visible(u.head, n, j) && j != u.head ensures Settled(u, j) {
      if t.started {
        if j <= t.head {
          assert Settled(t, j);
        } else {
          assert Marked(t.slots, j);
          assert j in t.log || j in t.torn ==> Bounded(t, j);
        }
      }
    }
    forall j: nat | j in u.log || j in u.torn ensures Bounded(u, j) {
      assert Bounded(t, j);
    }
  }

  lemma CopyFieldInv(t: Tail, field: Field)
    requires Inv(t) && Enabled(t, CopyField(field))
    ensures Inv(Next(t, CopyField(field)))
  {
    var u, n := Next(t, CopyField(field)), |t.slots|;
    forall j: nat | Visible(u.head, n, j) && j != u.head ensures Settled(u, j) {
      assert Settled(t, j);
      Different(j, t.head, n);
    }
    forall j: nat | j in u.log || j in u.torn ensures Bounded(u, j) {
      assert Bounded(t, j);
    }
  }

  lemma FinishInv(t: Tail)
    requires Inv(t) && Enabled(t, Finish)
    ensures Inv(Next(t, Finish))
  {
    var u, n := Next(t, Finish), |t.slots|;
    StoresCommit(t);
    forall j: nat | Visible(u.head, n, j) ensures Settled(u, j) {
      if j < u.head {
        assert Settled(t, j);
      }
    }
    forall j: nat | j in u.log || j in u.torn ensures Bounded(u, j) {
      if j in t.log || j in t.torn {
        assert Bounded(t, j);
      }
    }
  }

  lemma RestartInv(t: Tail)
    requires Inv(t)
    ensures Inv(Next(t, Restart))
  {
    var u, n := Next(t, Restart), |t.slots|;
    if t.started {
      forall j: nat | Visible(u.head, n, j) ensures Settled(u, j) {
        if !(t.phase.Copying? && j == t.head) {
          assert Settled(t, j);
        }
      }
    }
    forall j: nat | j in u.log || j in u.torn ensures Bounded(u, j) {
      if j in t.log || j in t.torn {
        assert Bounded(t, j);
      }
    }
  }

  /** In whatever order the fields are copied, the slot ends up with the committed header. */
  lemma StoresCommit(t: Tail)
    requires Inv(t) && Enabled(t, Finish)
    ensures Slot(t.slots, t.head) == t.phase.info && Put(t.slots, t.head, t.phase.info) == t.slots
  {
    assert Copies(Slot(t.slots, t.head), t.phase.info, {});
  }

  lemma StepInv(t: Tail, store: Store)
    requires Inv(t) && Enabled(t, store) && (store.OpenStart? ==> Careful(t, store.index))
    ensures Inv(Next(t, store))
  {
    match store
    case OpenStart(index) => StartInv(t, index);
    case Proceed => ProceedInv(t);
    case Abandon =>
    case StoreHead(info) => StoreHeadInv(t, info);
    case CopyField(field) => CopyFieldInv(t, field);
    case Finish => FinishInv(t);
    case Restart => RestartInv(t);
  }

  // ---- runs and reads ----------------------------------------------------------------------------------

  function Fresh(n: nat, rest: int, totalSlices: nat): Tail {
    Tail(Initial(n, rest, totalSlices).slots, 0, false, UNDEFINED, Closed, 0, map[], {})
  }

  predicate Allowed(t: Tail, store: Store)
    requires t.slots != []
  {
    Enabled(t, store) && (store.OpenStart? ==> Careful(t, store.index))
  }

  /** A careful client's run from t to u. */
  ghost predicate Reaches(t: Tail, stores: seq<Store>, u: Tail)
    requires t.slots != []
    decreases |stores|
  {
    if stores == [] then u == t
    else Allowed(t, stores[0]) && Reaches(Next(t, stores[0]), stores[1..], u)
  }

  lemma {:induction false} ReachesInv(t: Tail, stores: seq<Store>, u: Tail)
    requires Inv(t) && Reaches(t, stores, u)
    ensures Inv(u) && |u.slots| == |t.slots|
    decreases |stores|
  {
    if stores != [] {
      StepInv(t, stores[0]);
      ReachesInv(Next(t, stores[0]), stores[1..], u);
    }
  }

  /** Between any two stores of any run of careful opens, by any number of writers one after the
      other, each of which can die between any two stores, a successful read for at least one slice
      returns a header of the grain asked for: exactly as committed, or the mark of a grain that was
      skipped. Only the head's header can be a copy under way, and only a writer that died while
      copying leaves another one. The exception is index zero while the head is n - 1. */
  lemma ReadsCommitted(n: nat, rest: int, totalSlices: nat, stores: seq<Store>, t: Tail, i: nat, minValidSlices: nat)
    requires n >= 2 && totalSlices >= 1 && minValidSlices >= 1
    requires Reaches(Fresh(n, rest, totalSlices), stores, t) && t.slots != []
    requires Read(t.slots, t.head, i, minValidSlices) == Ok
    requires !(i == 0 && t.head == n - 1)
    ensures t.started && t.first <= i <= t.head && Slot(t.slots, i).index == i
    ensures if t.phase.Copying? && i == t.head then Copies(Slot(t.slots, i), t.phase.info, t.phase.missing)
            else i in t.torn || if i in t.log then Slot(t.slots, i) == t.log[i] else Slot(t.slots, i).Skipped(i)
  {
    ReachesInv(Fresh(n, rest, totalSlices), stores, t);
    assert Visible(t.head, n, i);
    if t.started && !(t.phase.Copying? && i == t.head) {
      assert Settled(t, i);
      assert i in t.log || i in t.torn ==> Bounded(t, i);
    }
  }

  /** Harmless opens are the boundary in every run: after a complete commit, readers notice an
      open, in what they get between two of its stores, exactly if it is not harmless. */
  lemma NoticedInRun(n: nat, rest: int, totalSlices: nat, stores: seq<Store>, t: Tail, index: nat)
    requires n >= 2 && totalSlices >= 1 && Reaches(Fresh(n, rest, totalSlices), stores, t) && t.slots != []
    requires Enabled(t, OpenStart(index)) && t.started && t.last == t.head != n - 1
    ensures Unnoticed(t, index) <==> Harmless(t.slots, t.head, index)
  {
    ReachesInv(Fresh(n, rest, totalSlices), stores, t);
    forall i: nat, m: nat | m >= 1 && Read(t.slots, t.head, i, m) == Ok ensures Slot(t.slots, i).index == i {
      ReadsCommitted(n, rest, totalSlices, stores, t, i, m);
    }
    UnnoticedIff(t, index);
  }

  // ---- the excluded case -------------------------------------------------------------------------------

  /** With n grains committed from index zero on, the first store of opening grain n already
      shows in a read of index zero. */
  lemma FullRingShowsNext(t: Tail, minValidSlices: nat)
    requires |t.slots| >= 2 && t.phase.Closed? && t.last == t.head == |t.slots| - 1 < UNDEFINED - 1
    requires Slot(t.slots, 0).index == 0 && Read(t.slots, t.head, 0, minValidSlices) == Ok
    ensures Allowed(t, OpenStart(|t.slots|))
    ensures var u := Proceeding(Next(t, OpenStart(|t.slots|)));
      Read(u.slots, u.head, 0, minValidSlices) == Ok && Slot(u.slots, 0).index == |t.slots|
  {
    assert Modular.Wrap(|t.slots|, |t.slots|) == Modular.Wrap(0, |t.slots|);
  }

  lemma {:induction false} ReachesThen(t: Tail, stores: seq<Store>, u: Tail, store: Store)
    requires t.slots != [] && Reaches(t, stores, u) && u.slots != [] && Allowed(u, store)
    ensures Reaches(t, stores + [store], Next(u, store))
    decreases |stores|
  {
    var more := stores + [store];
    if stores == [] {
      assert more[1..] == [];
    } else {
      assert more[1..] == stores[1..] + [store];
      ReachesThen(Next(t, stores[0]), stores[1..], u, store);
    }
  }

  /** A whole grain: opened without a gap, and committed complete. */
  function Committed(t: Tail, info: Grain): (u: Tail)
    requires t.slots != []
    ensures |u.slots| == |t.slots|
  {
    Tail(Put(t.slots, info.index, info), info.index, true, info.index, Closed,
         if t.started then t.first else info.index, t.log[info.index := info], t.torn - {info.index})
  }

  lemma ReachesOpened(o: Tail, before: seq<Store>, t: Tail, index: nat) returns (stores: seq<Store>, u: Tail)
    requires o.slots != [] && Reaches(o, before, t) && t.slots != [] && Allowed(t, OpenStart(index))
    requires FirstInvalidated(t.last, index, |t.slots|) == index
    ensures Reaches(o, stores, u) && u == t.(slots := Put(t.slots, index, Reset(Slot(t.slots, index), index)), phase := Opened(index))
  {
    ReachesThen(o, before, t, OpenStart(index));
    stores, u := before + [OpenStart(index)], Next(t, OpenStart(index));
    ThreeReset(u, Advance(u), Advance(Advance(u)), Advance(Advance(Advance(u))));
    stores, u := ReachesAdvance(o, stores, u);
    stores, u := ReachesAdvance(o, stores, u);
    stores, u := ReachesAdvance(o, stores, u);
  }

  lemma ReachesAdvance(o: Tail, before: seq<Store>, t: Tail) returns (stores: seq<Store>, u: Tail)
    requires o.slots != [] && Reaches(o, before, t) && t.slots != [] && !t.phase.Emptying?
    ensures Reaches(o, stores, u) && u == Advance(t)
  {
    stores, u := before, t;
    if Opening(t.phase) {
      ReachesThen(o, before, t, Proceed);
      stores, u := before + [Proceed], Next(t, Proceed);
    }
  }

  lemma ReachesCopied(o: Tail, before: seq<Store>, t: Tail) returns (stores: seq<Store>, u: Tail)
    requires o.slots != [] && Reaches(o, before, t) && t.slots != []
    requires t.phase.Copying? && t.phase.missing == ALL_FIELDS
    ensures Reaches(o, stores, u) && u == Write(t, t.phase.info.index, t.phase.info, Copying(t.phase.info, {}))
  {
    var info, g := t.phase.info, Slot(t.slots, t.phase.info.index);
    assert t == Copied(t, g, ALL_FIELDS);
    stores, u, g := ReachesHalf(o, before, t, g);
    stores, u, g := ReachesField(o, stores, t, u, g, TotalField);
    stores, u, g := ReachesField(o, stores, t, u, g, ValidField);
    assert u.phase.missing == {};
  }

  lemma ReachesHalf(o: Tail, before: seq<Store>, t: Tail, g: Grain) returns (stores: seq<Store>, u: Tail, h: Grain)
    requires o.slots != [] && t.slots != [] && t.phase.Copying? && Reaches(o, before, t)
    requires t.phase.missing == ALL_FIELDS && t == Copied(t, g, ALL_FIELDS)
    ensures h == g.(index := t.phase.info.index, invalid := t.phase.info.invalid, rest := t.phase.info.rest)
    ensures Reaches(o, stores, u) && u == Copied(t, h, {TotalField, ValidField})
  {
    stores, u, h := ReachesField(o, before, t, t, g, IndexField);
    stores, u, h := ReachesField(o, stores, t, u, h, FlagsField);
    stores, u, h := ReachesField(o, stores, t, u, h, RestField);
    assert u.phase.missing == {TotalField, ValidField};
  }

  /** The copy with the header as far as it got. */
  function Copied(t: Tail, g: Grain, missing: set<Field>): (u: Tail)
    requires t.slots != [] && t.phase.Copying?
    ensures |u.slots| == |t.slots|
  {
    Write(t, t.phase.info.index, g, Copying(t.phase.info, missing))
  }

  lemma ReachesField(o: Tail, before: seq<Store>, t: Tail, v: Tail, g: Grain, field: Field) returns (stores: seq<Store>, u: Tail, h: Grain)
    requires o.slots != [] && t.slots != [] && t.phase.Copying? && Reaches(o, before, v)
    requires v.phase.Copying? && v == Copied(t, g, v.phase.missing) && field in v.phase.missing
    ensures Reaches(o, stores, u) && h == CopyInto(g, t.phase.info, field) && u == Copied(t, h, v.phase.missing - {field})
  {
    ReachesThen(o, before, v, CopyField(field));
    stores, u, h := before + [CopyField(field)], Next(v, CopyField(field)), CopyInto(g, t.phase.info, field);
    assert u.slots == Copied(t, h, v.phase.missing - {field}).slots;
  }

  lemma ReachesCommitted(o: Tail, before: seq<Store>, t: Tail, info: Grain) returns (stores: seq<Store>, u: Tail)
    requires o.slots != [] && Reaches(o, before, t) && t.slots != [] && Allowed(t, OpenStart(info.index))
    requires FirstInvalidated(t.last, info.index, |t.slots|) == info.index && info.Complete() && info.totalSlices >= 1
    ensures Reaches(o, stores, u) && u == Committed(t, info)
  {
    stores, u := ReachesOpened(o, before, t, info.index);
    ReachesThen(o, stores, u, StoreHead(info));
    stores, u := stores + [StoreHead(info)], Next(u, StoreHead(info));
    stores, u := ReachesCopied(o, stores, u);
    ReachesThen(o, stores, u, Finish);
    stores, u := stores + [Finish], Next(u, Finish);
    assert u.slots == Put(t.slots, info.index, info);
  }

  /** A run commits any number of grains up to the ring's length from index zero on. */
  lemma {:induction false} RingFills(n: nat, rest: int, totalSlices: nat, k: nat) returns (stores: seq<Store>, t: Tail)
    requires 1 <= k <= n < UNDEFINED && totalSlices >= 1
    ensures Reaches(Fresh(n, rest, totalSlices), stores, t)
    ensures |t.slots| == n && t.started && t.phase.Closed? && t.last == t.head == k - 1 && t.first == 0
    ensures forall i: nat :: i < n ==> t.slots[i] == if i < k then Grain(i, false, rest, totalSlices, totalSlices) else Grain(0, false, rest, totalSlices, 0)
    decreases k
  {
    var o := Fresh(n, rest, totalSlices);
    if k == 1 {
      stores, t := [], o;
    } else {
      stores, t := RingFills(n, rest, totalSlices, k - 1);
    }
    stores, t := ReachesCommitted(o, stores, t, Grain(k - 1, false, rest, totalSlices, totalSlices));
  }

  /** The excluded case is reached in a ring of any length: a run commits grains 0, ..., n - 1,
      and the next store makes a read of index zero return the header of grain n. */
  lemma FullRing(n: nat, rest: int, totalSlices: nat) returns (stores: seq<Store>, t: Tail)
    requires 2 <= n < UNDEFINED - 1 && totalSlices >= 1
    ensures Reaches(Fresh(n, rest, totalSlices), stores, t) && |t.slots| == n
    ensures Read(t.slots, t.head, 0, 1) == Ok && Slot(t.slots, 0).index == n == t.head + 1
  {
    var o := Fresh(n, rest, totalSlices);
    stores, t := RingFills(n, rest, totalSlices, n);
    FullRingShowsNext(t, 1);
    ReachesThen(o, stores, t, OpenStart(n));
    stores, t := stores + [OpenStart(n)], Next(t, OpenStart(n));
    ReachesThen(o, stores, t, Proceed);
    stores, t := stores + [Proceed], Next(t, Proceed);
  }

  // ---- a header under the reader's eyes ---------------------------------------------------------------

  /** The allowance for the head is needed on every new flow and for every grain: a run in which a
      read of the head returns a header that nobody ever committed, because its slice count is
      there before the other fields; and if the writer dies now, it stays. */
  lemma HeadShowsCopy(n: nat, rest: int, totalSlices: nat, info: Grain) returns (stores: seq<Store>, t: Tail)
    requires n >= 2 && info.index < UNDEFINED && info.totalSlices >= 1 && info.validSlices >= 1 && info.rest != rest
    ensures Reaches(Fresh(n, rest, totalSlices), stores, t) && |t.slots| == n && t.log == map[] && t.head == info.index
    ensures Read(t.slots, t.head, t.head, 1) == Ok && Slot(t.slots, t.head).index == t.head && Slot(t.slots, t.head) != info
    ensures var u := Next(t, Restart); Allowed(t, Restart) && u.slots == t.slots && u.head == t.head && t.head in u.torn
  {
    var o := Fresh(n, rest, totalSlices);
    stores, t := ReachesOpened(o, [], o, info.index);
    ReachesThen(o, stores, t, StoreHead(info));
    stores, t := stores + [StoreHead(info)], Next(t, StoreHead(info));
    ReachesThen(o, stores, t, CopyField(ValidField));
    stores, t := stores + [CopyField(ValidField)], Next(t, CopyField(ValidField));
  }
}
