/** What an open that skips grains does to the readers of a discrete flow. The marks of skipped
    grains go into slots that can still be read; such a read then returns the header of a grain
    that does not exist yet. */
module DiscreteGaps {
  import opened MachineWords
  import opened DiscreteRing
  import Modular

  /** Every successful read for at least one slice returns the header of the grain asked for. */
  ghost predicate Honest(slots: seq<Grain>, head: nat)
    requires slots != []
  {
    forall i: nat, m: nat :: m >= 1 && Read(slots, head, i, m) == Ok ==> Slot(slots, i).index == i
  }

  ghost predicate HasSlices(slots: seq<Grain>) {
    forall s :: 0 <= s < |slots| ==> slots[s].totalSlices >= 1
  }

  /** The positions a read does not reject as too early or too late. */
  predicate InWindow(head: nat, n: nat, i: nat)
    requires n > 0
  {
    Least(head, n) <= i <= head
  }

  /** A header on which no read for a slice succeeds. */
  predicate Quiet(g: Grain) {
    g.validSlices == 0 && !g.invalid && g.totalSlices >= 1
  }

  /** Position m shares its slot with another position of the window. */
  ghost predicate Aliased(head: nat, n: nat, m: nat)
    requires n > 0
  {
    exists i: nat :: i != m && InWindow(head, n, i) && SameSlot(i, m, n)
  }

  predicate SameSlot(i: nat, m: nat, n: nat)
    requires n > 0
  {
    Modular.Wrap(i, n) == Modular.Wrap(m, n)
  }

  /** The skipped positions whose marks the opened grain leaves in place. */
  predicate Surviving(last: nat, index: nat, n: nat, m: nat) {
    last != UNDEFINED && last < m < index < m + n
  }

  /** What the oldest readable index means: the window never holds two positions of one slot,
      and it is as long as possible without the slot of the grain after the head, which is about
      to be taken - except that index zero is kept while the head is n - 1. */
  lemma OldestReadable(head: nat, n: nat)
    requires n >= 2 && head < UNDEFINED
    ensures forall i: nat, j: nat :: InWindow(head, n, i) && InWindow(head, n, j) && i < j ==> !SameSlot(i, j, n)
    ensures (forall i: nat :: InWindow(head, n, i) ==> !SameSlot(i, head + 1, n)) <==> head != n - 1
    ensures Least(head, n) > 0 ==> SameSlot(Least(head, n) - 1, head + 1, n)
  {
    forall i: nat, j: nat | InWindow(head, n, i) && InWindow(head, n, j) && i < j ensures !SameSlot(i, j, n) {
      Different(i, j, n);
    }
    if head == n - 1 {
      assert InWindow(head, n, 0) && SameSlot(0, head + 1, n);
    } else {
      forall i: nat | InWindow(head, n, i) ensures !SameSlot(i, head + 1, n) {
        if SameSlot(i, head + 1, n) {
          Modular.Turn(i, head + 1, n);
        }
      }
    }
    if Least(head, n) > 0 {
      Modular.Offset(Least(head, n) - 1, n, n);
    }
  }

  // ---- the effect of one open --------------------------------------------------------------------------

  /** A slot after an open: the mark that survives in it, or no more than before. */
  lemma SlotAfterOpen(f: Flow, index: nat, s: nat)
    requires f.slots != [] && s < |f.slots| && Open(f, index).0 == Ok && HasSlices(f.slots)
    ensures var g := Open(f, index).1.slots[s];
      || g == f.slots[s]
      || (Quiet(g) && s == Modular.Wrap(index, |f.slots|))
      || (g.Skipped(g.index) && Surviving(f.last, index, |f.slots|, g.index) && Modular.Wrap(g.index, |f.slots|) == s)
  {
    var n := |f.slots|;
    var from := FirstInvalidated(f.last, index, n);
    InvalidateSlot(f.slots, from, index, s);
    InvalidateTotals(f.slots, from, index);
  }

  lemma {:induction false} InvalidateTotals(slots: seq<Grain>, from: nat, upto: nat)
    requires slots != [] && HasSlices(slots)
    ensures HasSlices(Invalidate(slots, from, upto))
    decreases upto
  {
    if from < upto {
      InvalidateTotals(slots, from, upto - 1);
    }
  }

  /** The mark of a surviving position is in its slot. */
  lemma SurvivingMark(f: Flow, index: nat, m: nat)
    requires f.slots != [] && Open(f, index).0 == Ok && Surviving(f.last, index, |f.slots|, m)
    ensures Marked(Open(f, index).1.slots, m)
  {
    InvalidateMarks(f.slots, FirstInvalidated(f.last, index, |f.slots|), index, m);
    Different(m, index, |f.slots|);
  }

  /** An open keeps reads honest exactly if no mark that survives it shares its slot with another
      readable position. */
  lemma OpenHonestExact(f: Flow, index: nat)
    requires f.slots != [] && HasSlices(f.slots) && Open(f, index).0 == Ok && Honest(f.slots, f.head)
    ensures Honest(Open(f, index).1.slots, f.head) <==>
      forall m: nat :: Surviving(f.last, index, |f.slots|, m) ==> !Aliased(f.head, |f.slots|, m)
  {
    var n, after := |f.slots|, Open(f, index).1.slots;
    if m: nat :| Surviving(f.last, index, n, m) && Aliased(f.head, n, m) {
      var i: nat :| i != m && InWindow(f.head, n, i) && SameSlot(i, m, n);
      SurvivingMark(f, index, m);
      assert Read(after, f.head, i, 1) == Ok && Slot(after, i).index == m;
    } else {
      forall i: nat, k: nat | k >= 1 && Read(after, f.head, i, k) == Ok ensures Slot(after, i).index == i {
        SlotAfterOpen(f, index, Modular.Wrap(i, n));
        if Slot(after, i) == Slot(f.slots, i) {
          assert Read(f.slots, f.head, i, k) == Ok;
        } else if Slot(after, i).index != i {
          assert Surviving(f.last, index, n, Slot(after, i).index);
          assert SameSlot(i, Slot(after, i).index, n);
          assert Aliased(f.head, n, Slot(after, i).index);
        }
      }
    }
  }

  // ---- the boundary ---------------------------------------------------------------------------------------

  /** The first index whose slot an old readable grain occupies is a full turn after the oldest
      readable one. Opens up to it are harmless; later ones are not, unless the head is the only
      readable grain and the opened one takes its slot. */
  predicate GapHarmless(head: nat, n: nat, index: nat)
    requires n > 0
  {
    index <= Least(head, n) + n || (Least(head, n) == head && SameSlot(index, head, n))
  }

  /** The first surviving mark lies behind the readable positions, as it can after a partial commit
      more than a full turn past the last complete one - except for a single mark in the slot of
      the grain after the head. */
  predicate MarksBehind(head: nat, last: nat, n: nat, index: nat)
    requires n > 0
  {
    var first := if index < last + n then last + 1 else index + 1 - n;
    first < index && first + n <= head && !(first + 1 == index && SameSlot(first, head + 1, n))
  }

  lemma BeforeBoundary(head: nat, last: nat, n: nat, index: nat, m: nat)
    requires n >= 2 && last <= head < UNDEFINED
    requires GapHarmless(head, n, index) && !MarksBehind(head, last, n, index) && Surviving(last, index, n, m)
    ensures !Aliased(head, n, m)
  {
    if i: nat :| i != m && InWindow(head, n, i) && SameSlot(i, m, n) {
      if i < m {
        Modular.Turn(i, m, n);
        Different(m, index, n);
      } else {
        Modular.Turn(m, i, n);
        Modular.Turn(i, head + 1, n);
      }
    }
  }

  lemma BeyondBoundary(head: nat, last: nat, n: nat, index: nat) returns (m: nat)
    requires n >= 2 && last <= head < UNDEFINED && last != UNDEFINED && !GapHarmless(head, n, index)
    ensures Surviving(last, index, n, m) && Aliased(head, n, m)
  {
    var least := Least(head, n);
    var i := if SameSlot(least, index, n) then least + 1 else least;
    if i != least {
      Different(least, i, n);
      Modular.Turn(least, index, n);
      Modular.Turn(least + n, index, n) by {
        Modular.Offset(least, n, n);
      }
    }
    m := Representative(index, Modular.Wrap(i, n), n);
    assert SameSlot(i, m, n);
    Modular.Turn(i, m, n);
  }

  lemma BehindWindow(head: nat, last: nat, n: nat, index: nat) returns (m: nat)
    requires n >= 2 && head < UNDEFINED && last != UNDEFINED && MarksBehind(head, last, n, index)
    ensures Surviving(last, index, n, m) && Aliased(head, n, m)
  {
    m := if index < last + n then last + 1 else index + 1 - n;
    if SameSlot(m, head + 1, n) {
      Modular.Turn(m, head + 1, n);
      Modular.Offset(m, n, n);
      Modular.Turn(m + n, head + 1, n);
      Different(m, m + 1, n);
      m := m + 1;
    }
    var i := Representative(head, Modular.Wrap(m, n), n);
    Modular.Offset(head + 1 - n, n, n);
    assert InWindow(head, n, i) && SameSlot(i, m, n);
  }

  /** An open keeps reads honest exactly if it is not beyond the boundary and no mark lies behind
      the readable positions. Before the first complete commit every open does. */
  lemma OpenHonestIff(f: Flow, index: nat)
    requires |f.slots| >= 2 && HasSlices(f.slots) && Open(f, index).0 == Ok && Honest(f.slots, f.head)
    requires f.head < UNDEFINED && (f.last != UNDEFINED ==> f.last <= f.head)
    ensures Honest(Open(f, index).1.slots, f.head) <==>
      f.last == UNDEFINED || (GapHarmless(f.head, |f.slots|, index) && !MarksBehind(f.head, f.last, |f.slots|, index))
    ensures f.head <= f.last + |f.slots| ==> !MarksBehind(f.head, f.last, |f.slots|, index)
  {
    var n := |f.slots|;
    OpenHonestExact(f, index);
    if f.last != UNDEFINED {
      if !GapHarmless(f.head, n, index) {
        var m := BeyondBoundary(f.head, f.last, n, index);
      } else if MarksBehind(f.head, f.last, n, index) {
        var m := BehindWindow(f.head, f.last, n, index);
      } else {
        forall m: nat | Surviving(f.last, index, n, m) ensures !Aliased(f.head, n, m) {
          BeforeBoundary(f.head, f.last, n, index, m);
        }
      }
    }
  }

  // ---- a fresh writer ---------------------------------------------------------------------------------------

  /** A header of another grain on which reads succeed. */
  predicate Stale(g: Grain, j: nat) {
    g.index != j && !Quiet(g)
  }

  /** A writer that joins a flow in use marks nothing before its first complete commit: if its first
      commit skips grains, reads stay honest exactly if no skipped position that becomes readable
      has a stale header in its slot. */
  lemma JoiningGap(f: Flow, index: nat, info: Grain)
    requires FreshWriter(f) && |f.slots| >= 2 && HasSlices(f.slots) && Honest(f.slots, f.head)
    requires f.head < index < UNDEFINED && info.index == index && info.totalSlices >= 1
    ensures var g := Commit(Open(f, index).1, info).1;
      && g.head == index
      && (Honest(g.slots, g.head) <==>
            forall j: nat :: f.head < j < index && InWindow(index, |f.slots|, j) ==> !Stale(Slot(f.slots, j), j))
  {
    var n, g := |f.slots|, Commit(Open(f, index).1, info).1;
    assert g.slots == Put(f.slots, index, info);
    OldestReadable(index, n);
    assert InWindow(index, n, index);
    if j: nat :| f.head < j < index && InWindow(index, n, j) && Stale(Slot(f.slots, j), j) {
      assert !SameSlot(j, index, n);
      assert Read(g.slots, g.head, j, 1) == Ok && Slot(g.slots, j).index != j;
    } else {
      forall i: nat, m: nat | m >= 1 && Read(g.slots, g.head, i, m) == Ok ensures Slot(g.slots, i).index == i {
        assert i < index ==> !SameSlot(i, index, n);
        if i <= f.head {
          assert Read(f.slots, f.head, i, m) == Ok;
        }
      }
    }
  }
}
