/** The memory of a continuous (audio) flow: one ring of samples per channel, the rings laid
    one behind the other, and the two-fragment view of a range of sample positions.

    The range that ends at `index` holds the positions index - count .. index - 1; position j
    lives in cell j % length of every channel. Sizes are counted in samples. */
module ContinuousRing {
  import opened MachineWords
  import Modular

  /** A 64-bit difference. */
  function Minus(a: nat, b: nat): (d: nat)
    requires a < WORD_LIMIT && b < WORD_LIMIT
    ensures d < WORD_LIMIT
    ensures d == a - b || d == a - b + WORD_LIMIT
  {
    if b <= a then a - b else a - b + WORD_LIMIT
  }

  /** A 64-bit sum. */
  function Plus(a: nat, b: nat): (d: nat)
    requires a < WORD_LIMIT && b < WORD_LIMIT
    ensures d < WORD_LIMIT
    ensures d == a + b || d == a + b - WORD_LIMIT
  {
    if a + b < WORD_LIMIT then a + b else a + b - WORD_LIMIT
  }

  /** What the library hands out: in every one of `channels` rings, `stride` samples apart,
      `first` samples from `offset` on and then `second` samples from the start. */
  datatype Slices = Slices(offset: nat, first: nat, second: nat, stride: nat, channels: nat)

  function StartOffset(index: nat, count: nat, length: nat): (offset: nat)
    requires index < WORD_LIMIT && count < WORD_LIMIT && 0 < length < WORD_LIMIT
    ensures offset < length
  {
    Modular.Wrap(Minus(Plus(index, length), count), length)
  }

  function FirstLength(start: nat, end: nat, count: nat, length: nat): (first: nat)
    requires start < length && count < WORD_LIMIT && length < WORD_LIMIT
    ensures first < WORD_LIMIT
  {
    if start < end then count else length - start
  }

  function Fragments(index: nat, count: nat, length: nat, channels: nat): Slices
    requires index < WORD_LIMIT && count < WORD_LIMIT && 0 < length < WORD_LIMIT
  {
    var start := StartOffset(index, count, length);
    var first := FirstLength(start, Modular.Wrap(index, length), count, length);
    Slices(start, first, Minus(count, first), length, channels)
  }

  // ---- what the fragments cover ------------------------------------------------------------

  /** Cells visited by following the first fragment and then the second. */
  function Visited(s: Slices, k: nat): nat {
    if k < s.first then s.offset + k else k - s.first
  }

  /** A range of which sums stay below the word limit. */
  predicate InReach(index: nat, count: nat, length: nat) {
    0 < length && count <= length && count <= index && index + length < WORD_LIMIT
  }

  /** For at least one sample the fragments visit the cells of the range in order, exactly
      once each and inside the ring. */
  lemma FragmentsInOrder(index: nat, count: nat, length: nat, channels: nat)
    requires InReach(index, count, length) && count >= 1
    ensures var s := Fragments(index, count, length, channels);
      && s.first + s.second == count && 1 <= s.first && s.offset + s.first <= length && s.second <= s.offset
      && (forall k: nat :: k < count ==> Visited(s, k) == Modular.Wrap(index - count + k, length))
  {
    var s := Fragments(index, count, length, channels);
    StartIsFirst(index, count, length);
    Modular.Offset(index - count, count, length);
    forall k: nat | k < count ensures Visited(s, k) == Modular.Wrap(index - count + k, length) {
      Modular.Offset(index - count, k, length);
    }
  }

  lemma StartIsFirst(index: nat, count: nat, length: nat)
    requires InReach(index, count, length)
    ensures StartOffset(index, count, length) == Modular.Wrap(index - count, length)
  {
    assert Minus(Plus(index, length), count) == index - count + length;
  }

  /** The two lengths add up to the number of samples asked for exactly when that number is
      not zero: for zero samples the second length wraps around. */
  lemma LengthsAddUp(index: nat, count: nat, length: nat, channels: nat)
    requires InReach(index, count, length)
    ensures var s := Fragments(index, count, length, channels);
      s.first + s.second == count <==> count >= 1
  {
    StartIsFirst(index, count, length);
    if count >= 1 {
      FragmentsInOrder(index, count, length, channels);
    }
  }

  /** Next to the largest index the start is the right cell exactly when the sum does not
      overflow or the ring length divides the word range. */
  lemma StartNearTheLimit(index: nat, count: nat, length: nat)
    requires index < WORD_LIMIT && 0 < length < WORD_LIMIT && count <= index && count <= length
    ensures StartOffset(index, count, length) == (index - count) % length
      <==> index + length - count < WORD_LIMIT || WORD_LIMIT % length == 0
  {
    var sum := Minus(Plus(index, length), count);
    Modular.WrapIsRemainder(sum, length);
    Modular.Remainder(index - count + length, length);
    if sum != index + length - count {
      assert sum == index - count + length - WORD_LIMIT;
      Shifted(sum, WORD_LIMIT, length);
    }
  }

  lemma Shifted(a: nat, b: nat, n: nat)
    requires n > 0
    ensures (a + b) % n == a % n <==> b % n == 0
  {
    var qa, qb := a / n, b / n;
    assert a == n * qa + a % n && b == n * qb + b % n;
    assert n * (qa + qb) == n * qa + n * qb;
    assert n * (qa + qb + 1) == n * (qa + qb) + n;
    if a % n + b % n < n {
      Modular.Unique(a + b, n, qa + qb, a % n + b % n);
    } else {
      Modular.Unique(a + b, n, qa + qb + 1, a % n + b % n - n);
    }
  }

  // ---- one ring ------------------------------------------------------------------------------

  /** The cells of a range. */
  ghost function Cells(start: nat, count: nat, length: nat): (cells: set<nat>)
    requires length > 0
    ensures forall o :: o in cells ==> o < length
  {
    if count == 0 then {} else Cells(start, count - 1, length) + {Modular.Wrap(start + count - 1, length)}
  }

  /** The samples at consecutive positions of one ring. */
  function Samples(ring: seq<int>, start: nat, count: nat): (samples: seq<int>)
    requires ring != []
    ensures |samples| == count
    ensures forall k :: 0 <= k < count ==> samples[k] == ring[Modular.Wrap(start + k, |ring|)]
  {
    seq(count, k requires 0 <= k < count => ring[Modular.Wrap(start + k, |ring|)])
  }

  /** What a client finds by following the slices in one channel. */
  function Through(ring: seq<int>, s: Slices): (samples: seq<int>)
    requires s.offset + s.first <= |ring| && s.second <= |ring|
  {
    ring[s.offset..s.offset + s.first] + ring[..s.second]
  }

  /** Following the slices means seeing the samples at the positions of the range. */
  lemma ThroughIsSamples(ring: seq<int>, index: nat, count: nat, channels: nat)
    requires InReach(index, count, |ring|) && count >= 1
    ensures var s := Fragments(index, count, |ring|, channels);
      && s.offset + s.first <= |ring| && s.second <= |ring|
      && Through(ring, s) == Samples(ring, index - count, count)
  {
    FragmentsInOrder(index, count, |ring|, channels);
    var s := Fragments(index, count, |ring|, channels);
    var seen, wanted := Through(ring, s), Samples(ring, index - count, count);
    forall k: nat | k < count ensures seen[k] == wanted[k] {
      assert Visited(s, k) == Modular.Wrap(index - count + k, |ring|);
    }
  }

  // ---- the unbounded stream a ring stands for ---------------------------------------------------

  /** The ring holds the most recent samples of the stream, except in `hidden` cells. */
  ghost predicate Holds(ring: seq<int>, stream: seq<int>, hidden: set<nat>) {
    && ring != []
    && forall j {:trigger stream[j]} :: 0 <= j < |stream| && |stream| <= j + |ring| && Modular.Wrap(j, |ring|) !in hidden
        ==> ring[Modular.Wrap(j, |ring|)] == stream[j]
  }

  /** Every cell that is not hidden is zero. */
  ghost predicate Blank(ring: seq<int>, hidden: set<nat>) {
    forall o: nat :: o < |ring| && o !in hidden ==> ring[o] == 0
  }

  /** One ring after zeroing some of its cells. */
  ghost function Cleared(ring: seq<int>, cells: set<nat>): (after: seq<int>)
    ensures |after| == |ring|
    ensures forall o :: 0 <= o < |ring| ==> after[o] == if o in cells then 0 else ring[o]
  {
    seq(|ring|, o requires 0 <= o < |ring| => if o in cells then 0 else ring[o])
  }

  function Zeros(n: nat): (zeros: seq<int>)
    ensures |zeros| == n && forall k :: 0 <= k < n ==> zeros[k] == 0
  {
    seq(n, k => 0)
  }

  /** The stream after committing the range start .. start + |samples| - 1. */
  function Extended(stream: seq<int>, start: nat, samples: seq<int>): (longer: seq<int>)
    requires |stream| <= start
    ensures |longer| == start + |samples|
    ensures longer[..|stream|] == stream
  {
    stream + Zeros(start - |stream|) + samples
  }

  /** Positions less than a turn apart are in different cells. */
  lemma Apart(i: nat, j: nat, length: nat)
    requires length > 0 && i < j < i + length
    ensures Modular.Wrap(i, length) != Modular.Wrap(j, length)
  {
    if Modular.Wrap(i, length) == Modular.Wrap(j, length) {
      Modular.Turn(i, j, length);
    }
  }

  lemma {:induction false} NotInCells(j: nat, start: nat, count: nat, length: nat)
    requires length > 0 && (j < start || start + count <= j)
    requires start + count <= j + length && j < start + length
    ensures Modular.Wrap(j, length) !in Cells(start, count, length)
    decreases count
  {
    if count > 0 {
      NotInCells(j, start, count - 1, length);
      if j < start {
        Apart(j, start + count - 1, length);
      } else {
        Apart(start + count - 1, j, length);
      }
    }
  }

  lemma {:induction false} InCells(j: nat, start: nat, count: nat, length: nat)
    requires length > 0 && start <= j < start + count
    ensures Modular.Wrap(j, length) in Cells(start, count, length)
    decreases count
  {
    if j < start + count - 1 {
      InCells(j, start, count - 1, length);
    }
  }

  /** A cell of a range belongs to one of its positions. */
  lemma {:induction false} CellPosition(o: nat, start: nat, count: nat, length: nat) returns (j: nat)
    requires length > 0 && o in Cells(start, count, length)
    ensures start <= j < start + count && o == Modular.Wrap(j, length)
    decreases count
  {
    if o == Modular.Wrap(start + count - 1, length) {
      j := start + count - 1;
    } else {
      j := CellPosition(o, start, count - 1, length);
    }
  }

  /** How much of a gap the commit clears. */
  function ClearedCount(last: nat, start: nat, count: nat, length: nat): (n: nat)
    requires last <= start && count <= length
    ensures n <= start - last && n + count <= length
    ensures n == start - last || n + count == length
  {
    if start - last <= length - count then start - last else length - count
  }

  /** The cells that a commit zeroes. */
  ghost function Gap(last: nat, start: nat, count: nat, length: nat): set<nat>
    requires last <= start && count <= length && length > 0
  {
    var n := ClearedCount(last, start, count, length);
    Cells(start - n, n, length)
  }

  /** Zeroing the newest part of the gap and publishing the range extends the stream: the gap
      reads as zeros, the range as the samples in it, and nothing recent is lost. */
  lemma CommitExtends(ring: seq<int>, stream: seq<int>, dirty: set<nat>, start: nat, count: nat)
    requires ring != [] && count <= |ring| && |stream| <= start
    requires Holds(ring, stream, dirty + Cells(start, count, |ring|))
    ensures var gap := Gap(|stream|, start, count, |ring|);
      Holds(Cleared(ring, gap), Extended(stream, start, Samples(ring, start, count)), dirty - gap - Cells(start, count, |ring|))
  {
    var n, length := ClearedCount(|stream|, start, count, |ring|), |ring|;
    var gap, range := Gap(|stream|, start, count, |ring|), Cells(start, count, length);
    var after, longer := Cleared(ring, gap), Extended(stream, start, Samples(ring, start, count));
    forall j | 0 <= j < |longer| && |longer| <= j + length && Modular.Wrap(j, length) !in dirty - gap - range
      ensures after[Modular.Wrap(j, length)] == longer[j]
    {
      CommittedCell(ring, stream, dirty, start, count, j);
    }
  }

  /** A recent position: in the range, in the cleared part of the gap, or older and untouched. */
  lemma RecentCell(start: nat, count: nat, n: nat, length: nat, j: nat)
    requires length > 0 && n <= start && n + count <= length
    requires j < start + count <= j + length
    ensures j >= start ==> Modular.Wrap(j, length) !in Cells(start - n, n, length)
    ensures start - n <= j < start ==> Modular.Wrap(j, length) in Cells(start - n, n, length)
    ensures j < start - n ==> Modular.Wrap(j, length) !in Cells(start - n, n, length) + Cells(start, count, length)
  {
    if j >= start {
      NotInCells(j, start - n, n, length);
    } else if j >= start - n {
      InCells(j, start - n, n, length);
    } else {
      NotInCells(j, start - n, n, length);
      NotInCells(j, start, count, length);
    }
  }

  lemma ExtendedAt(stream: seq<int>, start: nat, samples: seq<int>, j: nat)
    requires |stream| <= start && j < start + |samples|
    ensures Extended(stream, start, samples)[j]
      == if j < |stream| then stream[j] else if j < start then 0 else samples[j - start]
  {}

  lemma CommittedCell(ring: seq<int>, stream: seq<int>, dirty: set<nat>, start: nat, count: nat, j: nat)
    requires ring != [] && count <= |ring| && |stream| <= start
    requires Holds(ring, stream, dirty + Cells(start, count, |ring|))
    requires j < start + count <= j + |ring|
    requires Modular.Wrap(j, |ring|) !in dirty - Gap(|stream|, start, count, |ring|) - Cells(start, count, |ring|)
    ensures Cleared(ring, Gap(|stream|, start, count, |ring|))[Modular.Wrap(j, |ring|)]
      == Extended(stream, start, Samples(ring, start, count))[j]
  {
    var n, o := ClearedCount(|stream|, start, count, |ring|), Modular.Wrap(j, |ring|);
    var gap, range := Gap(|stream|, start, count, |ring|), Cells(start, count, |ring|);
    RecentCell(start, count, n, |ring|, j);
    ExtendedAt(stream, start, Samples(ring, start, count), j);
    assert Cleared(ring, gap)[o] == if o in gap then 0 else ring[o];
    if j >= start {
      assert Samples(ring, start, count)[j - start] == ring[Modular.Wrap(start + (j - start), |ring|)];
    } else if j < start - n {
      assert o !in dirty + range;
      assert j < |stream|;
    }
  }

  /** The first commit on a zeroed ring: everything before the range reads as zeros. */
  lemma FirstCommit(ring: seq<int>, dirty: set<nat>, start: nat, count: nat)
    requires ring != [] && count <= |ring|
    requires Blank(ring, dirty + Cells(start, count, |ring|))
    ensures Holds(ring, Extended([], start, Samples(ring, start, count)), dirty - Cells(start, count, |ring|))
  {
    var stream, length := Extended([], start, Samples(ring, start, count)), |ring|;
    forall j | 0 <= j < |stream| && |stream| <= j + length && Modular.Wrap(j, length) !in dirty - Cells(start, count, length)
      ensures ring[Modular.Wrap(j, length)] == stream[j]
    {
      if j < start {
        NotInCells(j, start, count, length);
        assert stream[j] == Zeros(start)[j];
      } else {
        assert stream[j] == Samples(ring, start, count)[j - start];
        assert start + (j - start) == j;
      }
    }
  }

  /** The stream as far as a ring shows it: what a writer knows of a flow that was in use before. */
  function Shown(ring: seq<int>, head: nat): (stream: seq<int>)
    requires ring != []
    ensures |stream| == head
  {
    seq(head, j requires 0 <= j < head => ring[Modular.Wrap(j, |ring|)])
  }

  /** It is what the ring stands for, and it ends with the samples of the last range. */
  lemma ShownHolds(ring: seq<int>, start: nat, count: nat, hidden: set<nat>)
    requires ring != []
    ensures Holds(ring, Shown(ring, start + count), hidden)
    ensures Shown(ring, start + count)[start..] == Samples(ring, start, count)
  {}

  // ---- readers ---------------------------------------------------------------------------------

  datatype Status = Ok | TooEarly | TooLate | InvalidArg

  /** The window test of the reader. */
  function Window(head: nat, length: nat, index: nat, count: nat): (status: Status)
    ensures status == Ok <==> count <= index <= head && head <= index - count + length / 2
    ensures status == TooEarly <==> head < index
    ensures status == Ok || status == TooEarly || status == TooLate
  {
    if index > head then TooEarly
    else
      var least := if head >= length / 2 then head - length / 2 else 0;
      if index >= least && index - least >= count then Ok else TooLate
  }

  /** A successful read returns that part of the stream. */
  lemma ReadIsStream(ring: seq<int>, channels: nat, stream: seq<int>, hidden: set<nat>, index: nat, count: nat)
    requires Holds(ring, stream, hidden)
    requires Window(|stream|, |ring|, index, count) == Ok && count >= 1 && |stream| + |ring| < WORD_LIMIT
    requires Cells(index - count, count, |ring|) !! hidden
    ensures var s := Fragments(index, count, |ring|, channels);
      && s.offset + s.first <= |ring| && s.second <= |ring|
      && Through(ring, s) == stream[index - count..index]
  {
    ThroughIsSamples(ring, index, count, channels);
    var samples := Samples(ring, index - count, count);
    forall k: nat | k < count ensures samples[k] == stream[index - count + k] {
      InCells(index - count + k, index - count, count, |ring|);
    }
  }

  /** How many samples before the head readers can reach. */
  function Readable(head: nat, length: nat): (n: nat)
    ensures n <= head && n <= length / 2
    ensures n == head || n == length / 2
  {
    if head <= length / 2 then head else length / 2
  }

  /** Going round the ring a whole number of times does not change the cell. */
  lemma {:induction false} WrapShift(i: nat, d: nat, length: nat)
    requires length > 0
    ensures Modular.Wrap(i + d, length) == Modular.Wrap(i + Modular.Wrap(d, length), length)
    decreases d
  {
    if d >= length {
      WrapShift(i, d - length, length);
      assert Modular.Wrap(i + d, length) == Modular.Wrap(i + d - length, length);
    }
  }

  lemma {:induction false} CellsShift(i: nat, d: nat, count: nat, length: nat)
    requires length > 0
    ensures Cells(i + d, count, length) == Cells(i + Modular.Wrap(d, length), count, length)
    decreases count
  {
    if count > 0 {
      CellsShift(i, d, count - 1, length);
      WrapShift(i + count - 1, d, length);
    }
  }

  /** The cells of any range that a reader can obtain lie in the readable part. */
  lemma ReadableCells(head: nat, length: nat, index: nat, count: nat)
    requires length > 0 && Window(head, length, index, count) == Ok
    ensures Cells(index - count, count, length) <= Cells(head - Readable(head, length), Readable(head, length), length)
  {
    var range := Cells(index - count, count, length);
    forall o | o in range ensures o in Cells(head - Readable(head, length), Readable(head, length), length) {
      var j := CellPosition(o, index - count, count, length);
      InCells(j, head - Readable(head, length), Readable(head, length), length);
    }
  }

  /** Counted from the head around the ring, the range ends before the readable part begins. */
  predicate OutOfReach(head: nat, length: nat, start: nat, ahead: nat)
    requires length > 0 && head <= start
  {
    Readable(head, length) == 0 || Modular.Wrap(start - head, length) + ahead <= length - Readable(head, length)
  }

  lemma ApartIfOutOfReach(head: nat, length: nat, start: nat, ahead: nat)
    requires length > 0 && head <= start && OutOfReach(head, length, start, ahead)
    ensures Cells(head - Readable(head, length), Readable(head, length), length) !! Cells(start, ahead, length)
  {
    var n, r := Readable(head, length), Modular.Wrap(start - head, length);
    CellsShift(head, start - head, ahead, length);
    var readable := Cells(head - n, n, length);
    forall o | o in readable ensures o !in Cells(head + r, ahead, length) {
      var j := CellPosition(o, head - n, n, length);
      NotInCells(j, head + r, ahead, length);
    }
  }

  /** A range that is not out of reach shares a cell with the readable part. */
  lemma SharedCell(head: nat, length: nat, start: nat, ahead: nat) returns (o: nat)
    requires length > 0 && head <= start && ahead >= 1 && !OutOfReach(head, length, start, ahead)
    ensures o in Cells(head - Readable(head, length), Readable(head, length), length) && o in Cells(start, ahead, length)
  {
    var n, r := Readable(head, length), Modular.Wrap(start - head, length);
    CellsShift(head, start - head, ahead, length);
    o := CommonCell(head, n, length, r, ahead);
  }

  lemma CommonCell(head: nat, n: nat, length: nat, r: nat, ahead: nat) returns (o: nat)
    requires 1 <= n <= head && n <= length && r < length && length - n < r + ahead && ahead >= 1
    ensures o in Cells(head - n, n, length) && o in Cells(head + r, ahead, length)
  {
    var x := if r < length - n then length - n else r;
    o := Modular.Wrap(head + x, length);
    InCells(head + x, head + r, ahead, length);
    InCells(head + x - length, head - n, n, length);
  }

  /** An open of at least one sample, at the head or after any gap, shares no cell with any range
      that a reader can obtain before the commit exactly if it is out of reach. */
  lemma OpenHarmlessIff(head: nat, length: nat, start: nat, ahead: nat)
    requires length > 0 && head <= start && ahead >= 1
    ensures (forall index: nat, count: nat :: Window(head, length, index, count) == Ok
              ==> Cells(index - count, count, length) !! Cells(start, ahead, length))
      <==> OutOfReach(head, length, start, ahead)
  {
    if OutOfReach(head, length, start, ahead) {
      ApartIfOutOfReach(head, length, start, ahead);
      forall index: nat, count: nat | Window(head, length, index, count) == Ok
        ensures Cells(index - count, count, length) !! Cells(start, ahead, length)
      {
        ReadableCells(head, length, index, count);
      }
    } else {
      var o := SharedCell(head, length, start, ahead);
      assert Window(head, length, head, Readable(head, length)) == Ok;
    }
  }

  /** A contiguous open of up to half the ring is always out of reach. */
  lemma HalvesDisjoint(head: nat, length: nat, index: nat, count: nat, ahead: nat)
    requires length > 0 && Window(head, length, index, count) == Ok && ahead <= length / 2
    ensures OutOfReach(head, length, head, ahead)
    ensures Cells(index - count, count, length) !! Cells(head, ahead, length)
  {
    ApartIfOutOfReach(head, length, head, ahead);
    ReadableCells(head, length, index, count);
  }

  // ---- batched signalling --------------------------------------------------------------------------

  /** The notifier: batch size, threshold inside a batch, and the last batch accounted for. */
  datatype Signals = Signals(size: nat, threshold: nat, batch: nat)

  function Configured(commitHint: nat, syncHint: nat): (g: Signals)
    ensures g.size >= 1 && g.threshold < g.size
  {
    var commitSize := if commitHint < 1 then 1 else commitHint;
    var size := if syncHint < 1 then 1 else syncHint;
    Signals(size, if size >= commitSize then size - commitSize else 0, 0)
  }

  /** Whether the new head is signalled, and the notifier afterwards. */
  function Signal(g: Signals, head: nat): (r: (bool, Signals))
    requires g.size > 0
  {
    var current := head / g.size;
    if current < g.batch then (false, g)
    else if current == g.batch then
      if head % g.size > g.threshold then (true, g.(batch := current + 1)) else (false, g)
    else (true, g.(batch := current))
  }

  /** In the batch that is due, a head is signalled before the batch is complete exactly if one more
      commit of the hinted size would go past its end; with commits larger than a batch, if any sample
      of it is there. A new batch is always signalled, one that is accounted for never again. */
  lemma SignalledEarly(commitHint: nat, syncHint: nat, batch: nat, head: nat)
    ensures var g := Configured(commitHint, syncHint).(batch := batch);
      var commit := if commitHint < 1 then 1 else commitHint;
      && g.size == (if syncHint < 1 then 1 else syncHint)
      && (head / g.size < batch ==> !Signal(g, head).0)
      && (batch < head / g.size ==> Signal(g, head).0)
      && (head / g.size == batch ==>
            (Signal(g, head).0 <==> if commit <= g.size then (batch + 1) * g.size < head + commit else head != batch * g.size))
  {
    var g := Configured(commitHint, syncHint).(batch := batch);
    assert head == g.size * (head / g.size) + head % g.size;
    assert (batch + 1) * g.size == g.size * batch + g.size;
  }

  /** The last batch accounted for is that of the last signalled head, or the next one if that
      head was signalled early. */
  predicate SignalsOk(g: Signals, signalled: nat) {
    && g.size >= 1 && g.threshold < g.size
    && (g.batch == signalled / g.size || (g.batch == signalled / g.size + 1 && signalled % g.size > g.threshold))
  }

  lemma Batches(a: nat, b: nat, n: nat)
    requires n > 0 && a <= b
    ensures a / n <= b / n
    ensures a / n == b / n ==> b - a < n
    ensures b / n == a / n + 1 ==> b - a == n + b % n - a % n
  {
    var qa, qb := a / n, b / n;
    assert a == n * qa + a % n && b == n * qb + b % n;
    var d := qa - qb;
    assert n * d == n * qa - n * qb;
    if d > 0 {
      Modular.Times(n, d);
    }
    assert n * (qa + 1) == n * qa + n;
  }

  /** After every commit fewer than one batch of samples is not yet signalled. */
  lemma SignalBound(g: Signals, signalled: nat, head: nat)
    requires SignalsOk(g, signalled) && signalled <= head
    ensures var (now, h) := Signal(g, head);
      && SignalsOk(h, if now then head else signalled)
      && (!now ==> head - signalled < g.size)
  {
    Batches(signalled, head, g.size);
  }

  /** The heads signalled along a run of committed heads. */
  function Signalled(g: Signals, heads: seq<nat>): (heads': seq<nat>)
    requires g.size > 0
    decreases |heads|
  {
    if heads == [] then []
    else
      var (now, h) := Signal(g, heads[0]);
      (if now then [heads[0]] else []) + Signalled(h, heads[1..])
  }

  predicate Rising(from: nat, heads: seq<nat>, step: nat)
    decreases |heads|
  {
    heads == [] || (from <= heads[0] <= from + step && Rising(heads[0], heads[1..], step))
  }

  predicate Spaced(from: nat, marks: seq<nat>, gap: nat)
    decreases |marks|
  {
    marks == [] || (marks[0] <= from + gap && Spaced(marks[0], marks[1..], gap))
  }

  /** If no commit moves the head by more than `step` samples, consecutive signals are at most
      one batch plus one step apart. */
  lemma {:induction false} SignalsSpaced(g: Signals, signalled: nat, head: nat, heads: seq<nat>, step: nat)
    requires SignalsOk(g, signalled) && signalled <= head && head - signalled < g.size
    requires Rising(head, heads, step)
    ensures Spaced(signalled, Signalled(g, heads), g.size - 1 + step)
    decreases |heads|
  {
    if heads != [] {
      SignalBound(g, signalled, heads[0]);
      var (now, h) := Signal(g, heads[0]);
      SignalsSpaced(h, if now then heads[0] else signalled, heads[0], heads[1..], step);
      if now {
        assert Signalled(g, heads) == [heads[0]] + Signalled(h, heads[1..]);
        assert Signalled(g, heads)[1..] == Signalled(h, heads[1..]);
      } else {
        assert Signalled(g, heads) == Signalled(h, heads[1..]);
      }
    }
  }

  // ---- rings in flat memory ------------------------------------------------------------------------

  /** Where the ring of a channel starts. */
  function Base(channel: nat, length: nat): (base: nat) {
    if channel == 0 then 0 else Base(channel - 1, length) + length
  }

  lemma {:induction false} BaseIsProduct(channel: nat, length: nat)
    ensures Base(channel, length) == channel * length
  {
    if channel > 0 {
      BaseIsProduct(channel - 1, length);
      assert channel * length == (channel - 1) * length + length;
    }
  }

  /** The rings of different channels do not overlap. */
  lemma {:induction false} RingsApart(c: nat, d: nat, length: nat)
    requires c < d
    ensures Base(c, length) + length <= Base(d, length)
    decreases d
  {
    if c < d - 1 {
      RingsApart(c, d - 1, length);
    }
  }

  /** The ring of one channel. */
  function Ring(memory: seq<int>, length: nat, channel: nat): (ring: seq<int>)
    requires Base(channel, length) + length <= |memory|
    ensures |ring| == length
  {
    memory[Base(channel, length)..Base(channel, length) + length]
  }

  function Rings(memory: seq<int>, length: nat, channels: nat): (rings: seq<seq<int>>)
    requires Base(channels, length) <= |memory|
    ensures |rings| == channels
    ensures forall c :: 0 <= c < channels ==>
      |rings[c]| == length && Base(c, length) + length <= |memory| && rings[c] == Ring(memory, length, c)
  {
    if channels == 0 then [] else Rings(memory, length, channels - 1) + [Ring(memory, length, channels - 1)]
  }

  /** A change inside one channel's ring leaves the other rings alone. */
  lemma OneRingChanged(before: seq<int>, after: seq<int>, length: nat, channels: nat, channel: nat)
    requires channel < channels && Base(channels, length) == |before| == |after|
    requires forall i :: 0 <= i < |before| && !(Base(channel, length) <= i < Base(channel, length) + length) ==> after[i] == before[i]
    ensures Base(channel, length) + length <= |after|
    ensures Rings(after, length, channels) == Rings(before, length, channels)[channel := Ring(after, length, channel)]
  {
    var rings, changed := Rings(after, length, channels), Rings(before, length, channels);
    forall c: nat | c < channels && c != channel ensures rings[c] == changed[c] {
      if c < channel {
        RingsApart(c, channel, length);
      } else {
        RingsApart(channel, c, length);
      }
    }
  }
}
