/** Matching presented frames to producer writes (`latency_summary` in tools/graphics-benchmark.py).

    The producer writes the frames of a fixture pool in a cycle (tools/graphics-stream.py), and each
    upload the host presents names only its fixture. A greedy cursor takes the next write of that
    fixture; these lemmas say when that is the write that was really presented. */
module FrameMatching {
  import opened Wrappers

  /** A producer write or a presented upload: when, and which fixture. */
  datatype Stamp = Stamp(ns: int, fixture: nat)

  /** The loop's variables, with the write each upload was matched to. */
  datatype Matching = Matching(
    latencies: seq<real>,
    unmatched: nat,
    longestSkip: nat,
    reanchored: nat,
    cursor: nat,
    previous: Option<int>,
    positions: seq<Option<nat>>)

  datatype Summary = Summary(samples: nat, unmatched: nat, longestSkip: nat, ambiguous: bool, reanchored: nat)

  const Fresh := Matching([], 0, 0, 0, 0, None, [])

  /** `bisect.bisect_left`. */
  function BisectLeft(a: seq<int>, x: int, lo: nat, hi: nat): (r: nat)
    requires lo <= hi <= |a|
    ensures lo <= r <= hi
    decreases hi - lo
  {
    if lo == hi then lo
    else
      var mid := (lo + hi) / 2;
      if a[mid] < x then BisectLeft(a, x, mid + 1, hi) else BisectLeft(a, x, lo, mid)
  }

  /** In a sorted list everything before the bisection point is smaller, and nothing from it on is. */
  lemma {:induction false} BisectIsFirst(a: seq<int>, x: int, lo: nat, hi: nat)
    requires lo <= hi <= |a|
    requires forall j, k | 0 <= j <= k < |a| :: a[j] <= a[k]
    requires (forall k | 0 <= k < lo :: a[k] < x) && (forall k | hi <= k < |a| :: a[k] >= x)
    ensures forall k | 0 <= k < BisectLeft(a, x, lo, hi) :: a[k] < x
    ensures forall k | BisectLeft(a, x, lo, hi) <= k < |a| :: a[k] >= x
    decreases hi - lo
  {
    if lo < hi {
      var mid := (lo + hi) / 2;
      if a[mid] < x {
        BisectIsFirst(a, x, mid + 1, hi);
      } else {
        BisectIsFirst(a, x, lo, mid);
      }
    }
  }

  /** The host write that ends the frame an upload belongs to. */
  function FrameEnd(ends: seq<int>, marked: int): Option<int> {
    var position := BisectLeft(ends, marked, 0, |ends|);
    if position < |ends| then Some(ends[position]) else None
  }

  /** The first write of a fixture from a position on. */
  function NextOf(writes: seq<Stamp>, fixture: nat, from: nat): (r: Option<nat>)
    ensures r.Some? ==> from <= r.value < |writes| && writes[r.value].fixture == fixture
    ensures r.Some? ==> forall k | from <= k < r.value :: writes[k].fixture != fixture
    ensures r.None? ==> forall k | from <= k < |writes| :: writes[k].fixture != fixture
    decreases |writes| - from
  {
    if from >= |writes| then None
    else if writes[from].fixture == fixture then Some(from)
    else NextOf(writes, fixture, from + 1)
  }

  /** The newest write of a fixture at or before `end`, no older than the cursor. */
  function NewestOf(writes: seq<Stamp>, fixture: nat, cursor: nat, end: int, until: nat): (r: Option<nat>)
    requires until <= |writes|
    ensures r.Some? ==> cursor <= r.value < until && writes[r.value].fixture == fixture && writes[r.value].ns <= end
    ensures forall k | (if r.Some? then r.value + 1 else cursor) <= k < until ::
              writes[k].fixture != fixture || writes[k].ns > end
    decreases until
  {
    if until <= cursor then None
    else if writes[until - 1].fixture == fixture && writes[until - 1].ns <= end then Some(until - 1)
    else NewestOf(writes, fixture, cursor, end, until - 1)
  }

  /** One pool cycle, as long as the writes took on average. */
  function Cycle(writes: seq<Stamp>, pool: nat): real {
    if writes == [] then 0.0
    else
      var steps := if |writes| == 1 then 1 else |writes| - 1;
      (writes[|writes| - 1].ns - writes[0].ns) as real / steps as real * pool as real
  }

  function Max(a: nat, b: nat): nat {
    if a < b then b else a
  }

  /** Re-anchoring after a gap longer than a cycle. */
  function Anchor(m: Matching, writes: seq<Stamp>, end: Option<int>, cycle: real, mark: Stamp): Matching {
    if end.Some? && m.previous.Some? && (mark.ns - m.previous.value) as real > cycle then
      match NewestOf(writes, mark.fixture, m.cursor, end.value, |writes|)
      case None => m
      case Some(newest) => m.(reanchored := m.reanchored + 1, cursor := newest)
    else m
  }

  /** Attributing an upload, once the cursor is where it should start. */
  function Attribute(a: Matching, writes: seq<Stamp>, end: Option<int>,
                     started: int, ended: int, fixture: nat): Matching {
    var found := NextOf(writes, fixture, a.cursor);
    if end.None? || found.None? || writes[found.value].ns > end.value then
      a.(unmatched := a.unmatched + 1, positions := a.positions + [None])
    else
      a.(longestSkip := Max(a.longestSkip, found.value - a.cursor),
         cursor := found.value + 1,
         latencies := if started <= end.value <= ended
                      then a.latencies + [(end.value - writes[found.value].ns) as real / 1000.0]
                      else a.latencies,
         positions := a.positions + [found])
  }

  /** One turn of the loop. */
  function OnMark(m: Matching, writes: seq<Stamp>, ends: seq<int>, cycle: real,
                  started: int, ended: int, mark: Stamp): Matching {
    var end := FrameEnd(ends, mark.ns);
    Attribute(Anchor(m, writes, end, cycle, mark).(previous := Some(mark.ns)),
              writes, end, started, ended, mark.fixture)
  }

  /** All turns, where a gap longer than `cycle` re-anchors. */
  function MatchAll(writes: seq<Stamp>, marks: seq<Stamp>, ends: seq<int>,
                    cycle: real, started: int, ended: int): Matching {
    if marks == [] then Fresh
    else OnMark(MatchAll(writes, marks[..|marks| - 1], ends, cycle, started, ended),
                writes, ends, cycle, started, ended, marks[|marks| - 1])
  }

  /** The matching of a recording made with a pool of fixtures. */
  function Matched(writes: seq<Stamp>, marks: seq<Stamp>, ends: seq<int>,
                   started: int, ended: int, pool: nat): Matching {
    MatchAll(writes, marks, ends, Cycle(writes, pool), started, ended)
  }

  /** What is reported of a matching: in particular, whether it is `ambiguous`. */
  function Report(m: Matching, pool: nat): Summary {
    Summary(|m.latencies|, m.unmatched, m.longestSkip, m.longestSkip + 1 >= pool, m.reanchored)
  }

  lemma MatchOneMore(writes: seq<Stamp>, marks: seq<Stamp>, ends: seq<int>,
                     cycle: real, started: int, ended: int, i: nat)
    requires i < |marks|
    ensures MatchAll(writes, marks[..i + 1], ends, cycle, started, ended) ==
            OnMark(MatchAll(writes, marks[..i], ends, cycle, started, ended),
                   writes, ends, cycle, started, ended, marks[i])
  {
    assert marks[..i + 1][..i] == marks[..i];
  }

  /** The part of a turn that re-anchors. */
  method Reanchor(ghost m: Matching, writes: seq<Stamp>, end: Option<int>, cycle: real, mark: Stamp,
                  previous: Option<int>, reanchored: nat, cursor: nat)
    returns (count: nat, start: nat)
    requires m.previous == previous && m.reanchored == reanchored && m.cursor == cursor
    ensures Anchor(m, writes, end, cycle, mark) == m.(reanchored := count, cursor := start)
  {
    count, start := reanchored, cursor;
    if end.Some? && previous.Some? && (mark.ns - previous.value) as real > cycle {
      var newest := NewestOf(writes, mark.fixture, cursor, end.value, |writes|);
      if newest.Some? {
        count, start := reanchored + 1, newest.value;
      }
    }
  }

  /** The loop of `latency_summary`. */
  method MatchMarks(writes: seq<Stamp>, marks: seq<Stamp>, ends: seq<int>, cycle: real, started: int, ended: int)
    returns (latencies: seq<real>, unmatched: nat, longestSkip: nat, reanchored: nat)
    ensures var m := MatchAll(writes, marks, ends, cycle, started, ended);
            && latencies == m.latencies && unmatched == m.unmatched
            && longestSkip == m.longestSkip && reanchored == m.reanchored
  {
    latencies, unmatched, longestSkip, reanchored := [], 0, 0, 0;
    var cursor: nat := 0;
    var previous: Option<int> := None;
    ghost var m := Fresh;
    for i := 0 to |marks|
      invariant m == MatchAll(writes, marks[..i], ends, cycle, started, ended)
      invariant m == Matching(latencies, unmatched, longestSkip, reanchored, cursor, previous, m.positions)
    {
      MatchOneMore(writes, marks, ends, cycle, started, ended, i);
      var Stamp(marked, index) := marks[i];
      var end := FrameEnd(ends, marked);
      reanchored, cursor := Reanchor(m, writes, end, cycle, marks[i], previous, reanchored, cursor);
      previous := Some(marked);
      m := Matching(latencies, unmatched, longestSkip, reanchored, cursor, previous, m.positions);
      m := Attribute(m, writes, end, started, ended, index);
      var found := NextOf(writes, index, cursor);
      if end.None? || found.None? || writes[found.value].ns > end.value {
        unmatched := unmatched + 1;
        continue;
      }
      longestSkip := Max(longestSkip, found.value - cursor);
      cursor := found.value + 1;
      if started <= end.value <= ended {
        latencies := latencies + [(end.value - writes[found.value].ns) as real / 1000.0];
      }
    }
    assert marks[..|marks|] == marks;
  }

  /** `latency_summary`, without its percentiles. */
  method LatencySummary(writes: seq<Stamp>, marks: seq<Stamp>, ends: seq<int>, started: int, ended: int, pool: nat)
    returns (summary: Summary, latencies: seq<real>)
    ensures var m := Matched(writes, marks, ends, started, ended, pool);
            latencies == m.latencies && summary == Report(m, pool)
  {
    var cycle := Cycle(writes, pool);
    var unmatched, longestSkip, reanchored;
    latencies, unmatched, longestSkip, reanchored := MatchMarks(writes, marks, ends, cycle, started, ended);
    summary := Summary(|latencies|, unmatched, longestSkip, longestSkip + 1 >= pool, reanchored);
  }

  // ---------------------------------------------------------------- every input

  function CountNone(positions: seq<Option<nat>>): nat {
    if positions == [] then 0
    else CountNone(positions[..|positions| - 1]) + (if positions[|positions| - 1].None? then 1 else 0)
  }

  /** The latency of an upload matched to a write, when its frame ended within the sample. */
  function LatencyOf(position: Option<nat>, writes: seq<Stamp>, end: Option<int>, started: int, ended: int): seq<real>
    requires position.Some? ==> position.value < |writes|
  {
    if position.Some? && end.Some? && started <= end.value <= ended then
      [(end.value - writes[position.value].ns) as real / 1000.0]
    else []
  }

  /** The latencies of all matched uploads in the sample, in order. */
  function LatenciesOf(positions: seq<Option<nat>>, writes: seq<Stamp>, marks: seq<Stamp>, ends: seq<int>,
                       started: int, ended: int): seq<real>
    requires |positions| == |marks|
    requires forall j | 0 <= j < |positions| && positions[j].Some? :: positions[j].value < |writes|
    decreases |marks|
  {
    if marks == [] then []
    else
      var last := |marks| - 1;
      LatenciesOf(positions[..last], writes, marks[..last], ends, started, ended) +
      LatencyOf(positions[last], writes, FrameEnd(ends, marks[last].ns), started, ended)
  }

  /** A match is a write of the upload's fixture from before the upload's frame ended. */
  predicate Suits(position: Option<nat>, writes: seq<Stamp>, mark: Stamp, ends: seq<int>) {
    position.Some? ==>
      && position.value < |writes| && writes[position.value].fixture == mark.fixture
      && FrameEnd(ends, mark.ns).Some? && writes[position.value].ns <= FrameEnd(ends, mark.ns).value
  }

  ghost predicate WellMatched(m: Matching, writes: seq<Stamp>, marks: seq<Stamp>, ends: seq<int>) {
    && |m.positions| == |marks|
    && m.unmatched == CountNone(m.positions)
    && (forall j | 0 <= j < |marks| :: Suits(m.positions[j], writes, marks[j], ends))
    && (forall j | 0 <= j < |marks| && m.positions[j].Some? :: m.positions[j].value < m.cursor)
    && (forall i, j | 0 <= i < j < |marks| && m.positions[i].Some? && m.positions[j].Some? ::
          m.positions[i].value < m.positions[j].value)
  }

  /** What holds of the matching whatever the writes, marks and frame ends are. */
  ghost predicate Consistent(m: Matching, writes: seq<Stamp>, marks: seq<Stamp>, ends: seq<int>,
                             started: int, ended: int) {
    && WellMatched(m, writes, marks, ends)
    && m.latencies == LatenciesOf(m.positions, writes, marks, ends, started, ended)
    && (forall latency | latency in m.latencies :: latency >= 0.0)
  }

  lemma CountNoneAppend(positions: seq<Option<nat>>, position: Option<nat>)
    ensures CountNone(positions + [position]) == CountNone(positions) + (if position.None? then 1 else 0)
  {
    assert (positions + [position])[..|positions|] == positions;
  }

  /** One upload appends one position; a match is a write of its fixture at or past the cursor and
      from before its frame's end, and the cursor never goes back. */
  lemma OnMarkAppends(m: Matching, writes: seq<Stamp>, ends: seq<int>, cycle: real,
                      started: int, ended: int, mark: Stamp)
    ensures var after := OnMark(m, writes, ends, cycle, started, ended, mark);
            && |after.positions| == |m.positions| + 1
            && var position := after.positions[|m.positions|];
            && after.positions == m.positions + [position]
            && after.cursor >= m.cursor
            && after.unmatched == m.unmatched + (if position.None? then 1 else 0)
            && Suits(position, writes, mark, ends)
            && (position.Some? ==> m.cursor <= position.value && after.cursor == position.value + 1)
            && after.latencies == m.latencies + LatencyOf(position, writes, FrameEnd(ends, mark.ns), started, ended)
  {
    var end := FrameEnd(ends, mark.ns);
    var a := Anchor(m, writes, end, cycle, mark).(previous := Some(mark.ns));
    assert a.positions == m.positions && a.latencies == m.latencies && a.cursor >= m.cursor;
    assert m.latencies + [] == m.latencies;
  }

  lemma LatenciesAppend(positions: seq<Option<nat>>, position: Option<nat>, writes: seq<Stamp>, marks: seq<Stamp>,
                        ends: seq<int>, started: int, ended: int)
    requires marks != [] && |positions| == |marks| - 1
    requires forall j | 0 <= j < |positions| && positions[j].Some? :: positions[j].value < |writes|
    requires position.Some? ==> position.value < |writes|
    ensures LatenciesOf(positions + [position], writes, marks, ends, started, ended) ==
            LatenciesOf(positions, writes, marks[..|marks| - 1], ends, started, ended) +
            LatencyOf(position, writes, FrameEnd(ends, marks[|marks| - 1].ns), started, ended)
  {
    assert (positions + [position])[..|positions|] == positions;
  }

  lemma WellMatchedExtends(m: Matching, after: Matching, writes: seq<Stamp>, marks: seq<Stamp>, ends: seq<int>,
                           position: Option<nat>)
    requires marks != [] && WellMatched(m, writes, marks[..|marks| - 1], ends)
    requires after.positions == m.positions + [position] && after.cursor >= m.cursor
    requires after.unmatched == m.unmatched + (if position.None? then 1 else 0)
    requires Suits(position, writes, marks[|marks| - 1], ends)
    requires position.Some? ==> m.cursor <= position.value && after.cursor == position.value + 1
    ensures WellMatched(after, writes, marks, ends)
  {
    CountNoneAppend(m.positions, position);
  }

  lemma {:induction false} LatenciesNotNegative(positions: seq<Option<nat>>, writes: seq<Stamp>, marks: seq<Stamp>,
                                                ends: seq<int>, started: int, ended: int)
    requires |positions| == |marks|
    requires forall j | 0 <= j < |marks| :: Suits(positions[j], writes, marks[j], ends)
    requires forall j | 0 <= j < |marks| && positions[j].Some? :: positions[j].value < |writes|
    ensures forall latency | latency in LatenciesOf(positions, writes, marks, ends, started, ended) :: latency >= 0.0
    decreases |marks|
  {
    if marks != [] {
      var last := |marks| - 1;
      LatenciesNotNegative(positions[..last], writes, marks[..last], ends, started, ended);
      assert Suits(positions[last], writes, marks[last], ends);
    }
  }

  lemma {:induction false} MatchesExtend(writes: seq<Stamp>, marks: seq<Stamp>, ends: seq<int>,
                                         cycle: real, started: int, ended: int)
    ensures var m := MatchAll(writes, marks, ends, cycle, started, ended);
            && WellMatched(m, writes, marks, ends)
            && m.latencies == LatenciesOf(m.positions, writes, marks, ends, started, ended)
  {
    if marks != [] {
      var (front, mark) := (marks[..|marks| - 1], marks[|marks| - 1]);
      MatchesExtend(writes, front, ends, cycle, started, ended);
      var m := MatchAll(writes, front, ends, cycle, started, ended);
      OnMarkAppends(m, writes, ends, cycle, started, ended, mark);
      var after := OnMark(m, writes, ends, cycle, started, ended, mark);
      var position := after.positions[|front|];
      WellMatchedExtends(m, after, writes, marks, ends, position);
      LatenciesAppend(m.positions, position, writes, marks, ends, started, ended);
    }
  }

  /** For every input the matched writes strictly increase, each is a write of its upload's fixture
      from before its frame's end, the latencies are those of the matched uploads in the sample, and
      none is negative. */
  lemma MatchesAreConsistent(writes: seq<Stamp>, marks: seq<Stamp>, ends: seq<int>,
                             started: int, ended: int, pool: nat)
    ensures Consistent(Matched(writes, marks, ends, started, ended, pool), writes, marks, ends, started, ended)
  {
    var m := Matched(writes, marks, ends, started, ended, pool);
    MatchesExtend(writes, marks, ends, Cycle(writes, pool), started, ended);
    LatenciesNotNegative(m.positions, writes, marks, ends, started, ended);
  }

  // ---------------------------------------------------------------- residues

  /** A quotient and a remainder in range are the ones division finds. */
  lemma RemainderIs(q: int, pool: int, quotient: int, remainder: int)
    requires pool > 0 && 0 <= remainder < pool && q == pool * quotient + remainder
    ensures q % pool == remainder
  {
    var d := q / pool - quotient;
    assert q == pool * (q / pool) + q % pool;
    assert pool * d == remainder - q % pool;
    assert d >= 1 ==> pool * d >= pool;
    assert d <= -1 ==> pool * d <= 0 - pool;
  }

  lemma SmallRemainder(d: nat, pool: nat)
    requires pool > 0
    ensures d % pool <= d
    ensures d % pool == d <==> d < pool
  {
    if d < pool {
      RemainderIs(d, pool, 0, d);
    }
  }

  lemma SameResidue(p: int, q: int, pool: int)
    requires pool > 0 && p <= q && p % pool == q % pool && q - p < pool
    ensures p == q
  {
    var d := q / pool - p / pool;
    assert q - p == pool * d;
    assert d >= 1 ==> pool * d >= pool;
  }

  /** Going from `p` as far as `q` lies beyond whole pools ends on the residue of `q`. */
  lemma ResidueAhead(p: int, q: int, pool: int)
    requires pool > 0
    ensures (p + (q - p) % pool) % pool == q % pool
  {
    var whole := q / pool - (q - p) / pool;
    assert p + (q - p) % pool == pool * whole + q % pool;
    RemainderIs(p + (q - p) % pool, pool, whole, q % pool);
  }

  /** Distances from congruent positions are congruent. */
  lemma ResidueOfDistance(p: int, q: int, target: int, pool: int)
    requires pool > 0 && p % pool == q % pool
    ensures (target - p) % pool == (target - q) % pool
  {
    var whole := (target - q) / pool + (q / pool - p / pool);
    assert target - p == pool * whole + (target - q) % pool;
    RemainderIs(target - p, pool, whole, (target - q) % pool);
  }

  // ---------------------------------------------------------------- exactness

  /** Writes cycle through the pool. */
  predicate Cycles(writes: seq<Stamp>, pool: nat)
    requires pool > 0
  {
    forall p | 0 <= p < |writes| :: writes[p].fixture == p % pool
  }

  /** Writes cycle through the pool, and `truth` says which write each upload really presented: in
      order, of the upload's fixture, and finished before the upload's frame ended. */
  ghost predicate Presented(writes: seq<Stamp>, marks: seq<Stamp>, ends: seq<int>, pool: nat, truth: seq<nat>)
    requires pool > 0
  {
    && |truth| == |marks|
    && Cycles(writes, pool)
    && (forall j | 0 <= j < |truth| ::
          && truth[j] < |writes|
          && marks[j].fixture == truth[j] % pool
          && FrameEnd(ends, marks[j].ns).Some?
          && writes[truth[j]].ns <= FrameEnd(ends, marks[j].ns).value)
    && (forall i, j | 0 <= i < j < |truth| :: truth[i] < truth[j])
  }

  /** The gap before upload `j` is long enough to re-anchor. */
  predicate LongGap(marks: seq<Stamp>, cycle: real, j: nat)
    requires j < |marks|
  {
    j > 0 && (marks[j].ns - marks[j - 1].ns) as real > cycle
  }

  /** No gap between uploads is long enough to re-anchor. */
  predicate Steady(marks: seq<Stamp>, cycle: real) {
    forall j | 0 <= j < |marks| :: !LongGap(marks, cycle, j)
  }

  /** How many writes were skipped before upload `j`. */
  function Skip(truth: seq<nat>, j: nat): int
    requires j < |truth|
  {
    if j == 0 then truth[0] else truth[j] as int - truth[j - 1] as int - 1
  }

  predicate SkipsWithinPool(truth: seq<nat>, pool: nat) {
    forall j | 0 <= j < |truth| :: Skip(truth, j) < pool
  }

  /** No later write of an upload's fixture was finished before the upload's frame ended. */
  predicate IsNewest(writes: seq<Stamp>, ends: seq<int>, mark: Stamp, target: nat)
    requires FrameEnd(ends, mark.ns).Some?
  {
    forall k | target < k < |writes| ::
      writes[k].fixture != mark.fixture || writes[k].ns > FrameEnd(ends, mark.ns).value
  }

  /** What makes upload `j` recoverable: after a long gap, that it presented the newest write of its
      fixture; otherwise, that fewer writes than the pool were skipped before it. */
  predicate Recoverable(writes: seq<Stamp>, marks: seq<Stamp>, ends: seq<int>, cycle: real, pool: nat,
                        truth: seq<nat>, j: nat)
    requires |truth| == |marks| && j < |marks| && FrameEnd(ends, marks[j].ns).Some?
  {
    if LongGap(marks, cycle, j) then IsNewest(writes, ends, marks[j], truth[j]) else Skip(truth, j) < pool
  }

  /** The positions the cursor recovers are the true ones. */
  predicate Recovers(m: Matching, truth: seq<nat>) {
    && |m.positions| == |truth|
    && forall j | 0 <= j < |truth| :: m.positions[j] == Some(truth[j])
  }

  /** The next write of a fixture lies as far ahead as the true one does beyond whole pools. */
  lemma NextIsAhead(writes: seq<Stamp>, cursor: nat, target: nat, pool: nat)
    requires pool > 0 && cursor <= target < |writes| && Cycles(writes, pool)
    ensures NextOf(writes, target % pool, cursor) == Some(cursor + (target - cursor) % pool)
    ensures cursor + (target - cursor) % pool <= target
  {
    var found := NextOf(writes, target % pool, cursor);
    var ahead := cursor + (target - cursor) % pool;
    SmallRemainder(target - cursor, pool);
    ResidueAhead(cursor, target, pool);
    assert writes[ahead].fixture == target % pool;
    SameResidue(found.value, ahead, pool);
  }

  /** The newest write of a fixture is the one taken after re-anchoring on it. */
  lemma NewestIsTrue(writes: seq<Stamp>, fixture: nat, cursor: nat, end: int, target: nat)
    requires cursor <= target < |writes| && writes[target].fixture == fixture && writes[target].ns <= end
    ensures var newest := NewestOf(writes, fixture, cursor, end, |writes|);
            && newest.Some? && NextOf(writes, fixture, newest.value) == newest
            && (newest.value == target <==>
                forall k | target < k < |writes| :: writes[k].fixture != fixture || writes[k].ns > end)
  {
  }

  /** One upload: it is matched to the true write exactly when, after a gap that re-anchors, that is
      the newest of its fixture, and otherwise, the cursor is fewer than a pool behind it. */
  lemma OnMarkIsTrue(m: Matching, writes: seq<Stamp>, ends: seq<int>, cycle: real, started: int, ended: int,
                     mark: Stamp, target: nat, pool: nat)
    requires pool > 0 && m.cursor <= target < |writes| && Cycles(writes, pool)
    requires mark.fixture == target % pool
    requires FrameEnd(ends, mark.ns).Some? && writes[target].ns <= FrameEnd(ends, mark.ns).value
    ensures var after := OnMark(m, writes, ends, cycle, started, ended, mark);
            var gap := m.previous.Some? && (mark.ns - m.previous.value) as real > cycle;
            && |after.positions| == |m.positions| + 1 && after.positions[..|m.positions|] == m.positions
            && var exact := after.positions[|m.positions|] == Some(target);
            && (exact <==> if gap then IsNewest(writes, ends, mark, target) else target - m.cursor < pool)
            && (exact ==> after.cursor == target + 1 && after.unmatched == m.unmatched)
  {
    if m.previous.Some? && (mark.ns - m.previous.value) as real > cycle {
      NewestIsTrue(writes, mark.fixture, m.cursor, FrameEnd(ends, mark.ns).value, target);
    } else {
      NextIsAhead(writes, m.cursor, target, pool);
      SmallRemainder(target - m.cursor, pool);
    }
  }

  lemma {:induction false} PreviousIsLast(writes: seq<Stamp>, marks: seq<Stamp>, ends: seq<int>,
                                          cycle: real, started: int, ended: int)
    ensures MatchAll(writes, marks, ends, cycle, started, ended).previous ==
            if marks == [] then None else Some(marks[|marks| - 1].ns)
  {
  }

  /** What holds of all uploads holds of all but the last. */
  lemma PresentedFront(writes: seq<Stamp>, marks: seq<Stamp>, ends: seq<int>, pool: nat, truth: seq<nat>)
    requires pool > 0 && marks != [] && Presented(writes, marks, ends, pool, truth)
    ensures Presented(writes, marks[..|marks| - 1], ends, pool, truth[..|truth| - 1])
    ensures Skip(truth, |truth| - 1) >= 0
  {
  }

  lemma RecoverableFront(writes: seq<Stamp>, marks: seq<Stamp>, ends: seq<int>, cycle: real, pool: nat,
                         truth: seq<nat>, j: nat)
    requires |truth| == |marks| && j < |marks| - 1 && FrameEnd(ends, marks[j].ns).Some?
    ensures Recoverable(writes, marks[..|marks| - 1], ends, cycle, pool, truth[..|marks| - 1], j) <==>
            Recoverable(writes, marks, ends, cycle, pool, truth, j)
  {
  }

  lemma ExtendsRecovery(m: Matching, after: Matching, truth: seq<nat>)
    requires truth != [] && |m.positions| == |truth| - 1
    requires |after.positions| == |truth| && after.positions[..|truth| - 1] == m.positions
    ensures Recovers(after, truth) <==>
            Recovers(m, truth[..|truth| - 1]) && after.positions[|truth| - 1] == Some(truth[|truth| - 1])
  {
  }

  ghost predicate AllRecoverable(writes: seq<Stamp>, marks: seq<Stamp>, ends: seq<int>, cycle: real, pool: nat,
                                 truth: seq<nat>)
    requires pool > 0 && Presented(writes, marks, ends, pool, truth)
  {
    forall j | 0 <= j < |marks| :: Recoverable(writes, marks, ends, cycle, pool, truth, j)
  }

  lemma AllRecoverableStep(writes: seq<Stamp>, marks: seq<Stamp>, ends: seq<int>, cycle: real, pool: nat,
                           truth: seq<nat>)
    requires pool > 0 && marks != [] && Presented(writes, marks, ends, pool, truth)
    requires Presented(writes, marks[..|marks| - 1], ends, pool, truth[..|truth| - 1])
    ensures AllRecoverable(writes, marks, ends, cycle, pool, truth) <==>
            && AllRecoverable(writes, marks[..|marks| - 1], ends, cycle, pool, truth[..|truth| - 1])
            && Recoverable(writes, marks, ends, cycle, pool, truth, |marks| - 1)
  {
    var last := |marks| - 1;
    forall j | 0 <= j < last
      ensures Recoverable(writes, marks[..last], ends, cycle, pool, truth[..last], j) <==>
              Recoverable(writes, marks, ends, cycle, pool, truth, j)
    {
      RecoverableFront(writes, marks, ends, cycle, pool, truth, j);
    }
  }

  /** One more upload extends an exact recovery exactly when it is recoverable itself. */
  lemma {:induction false} RecoversStep(writes: seq<Stamp>, marks: seq<Stamp>, ends: seq<int>, cycle: real,
                                        started: int, ended: int, pool: nat, truth: seq<nat>)
    requires pool > 0 && Presented(writes, marks, ends, pool, truth)
    ensures var m := MatchAll(writes, marks, ends, cycle, started, ended);
            && |m.positions| == |marks|
            && (Recovers(m, truth) <==> AllRecoverable(writes, marks, ends, cycle, pool, truth))
            && (Recovers(m, truth) ==>
                  m.unmatched == 0 && m.cursor == (if truth == [] then 0 else truth[|truth| - 1] + 1))
  {
    if marks != [] {
      var last := |marks| - 1;
      var front, most := marks[..last], truth[..last];
      PresentedFront(writes, marks, ends, pool, truth);
      RecoversStep(writes, front, ends, cycle, started, ended, pool, most);
      PreviousIsLast(writes, front, ends, cycle, started, ended);
      AllRecoverableStep(writes, marks, ends, cycle, pool, truth);
      var m := MatchAll(writes, front, ends, cycle, started, ended);
      OnMarkAppends(m, writes, ends, cycle, started, ended, marks[last]);
      ExtendsRecovery(m, MatchAll(writes, marks, ends, cycle, started, ended), truth);
      if Recovers(m, most) {
        OnMarkIsTrue(m, writes, ends, cycle, started, ended, marks[last], truth[last], pool);
      }
    }
  }

  /** How many gaps between uploads are long enough to re-anchor. */
  function LongGaps(marks: seq<Stamp>, cycle: real): nat {
    if marks == [] then 0
    else LongGaps(marks[..|marks| - 1], cycle) + (if LongGap(marks, cycle, |marks| - 1) then 1 else 0)
  }

  /** The longest skip before an upload that no long gap precedes. */
  function LongestSteadySkip(marks: seq<Stamp>, cycle: real, truth: seq<nat>): int
    requires |truth| == |marks|
  {
    if marks == [] then 0
    else
      var last := |marks| - 1;
      var before := LongestSteadySkip(marks[..last], cycle, truth[..last]);
      if LongGap(marks, cycle, last) || Skip(truth, last) <= before then before else Skip(truth, last)
  }

  /** A match to the true write counts as re-anchored after a long gap, and as a skip otherwise. */
  lemma OnMarkCounts(m: Matching, writes: seq<Stamp>, ends: seq<int>, cycle: real, started: int, ended: int,
                     mark: Stamp, target: nat)
    requires m.cursor <= target < |writes| && writes[target].fixture == mark.fixture
    requires FrameEnd(ends, mark.ns).Some? && writes[target].ns <= FrameEnd(ends, mark.ns).value
    requires OnMark(m, writes, ends, cycle, started, ended, mark).positions == m.positions + [Some(target)]
    ensures var after := OnMark(m, writes, ends, cycle, started, ended, mark);
            var gap := m.previous.Some? && (mark.ns - m.previous.value) as real > cycle;
            && after.reanchored == m.reanchored + (if gap then 1 else 0)
            && after.longestSkip == if gap then m.longestSkip else Max(m.longestSkip, target - m.cursor)
  {
    var end := FrameEnd(ends, mark.ns);
    var a := Anchor(m, writes, end, cycle, mark).(previous := Some(mark.ns));
    assert OnMark(m, writes, ends, cycle, started, ended, mark).positions[|m.positions|] == Some(target);
    assert NextOf(writes, mark.fixture, a.cursor) == Some(target);
    if m.previous.Some? && (mark.ns - m.previous.value) as real > cycle {
      NewestIsTrue(writes, mark.fixture, m.cursor, end.value, target);
    }
  }

  lemma CountsOneMore(m: Matching, writes: seq<Stamp>, marks: seq<Stamp>, ends: seq<int>, cycle: real,
                      started: int, ended: int, pool: nat, truth: seq<nat>)
    requires pool > 0 && marks != [] && Presented(writes, marks, ends, pool, truth)
    requires m.cursor == (if |truth| == 1 then 0 else truth[|truth| - 2] + 1)
    requires m.previous == if |marks| == 1 then None else Some(marks[|marks| - 2].ns)
    requires m.reanchored == LongGaps(marks[..|marks| - 1], cycle)
    requires m.longestSkip == LongestSteadySkip(marks[..|marks| - 1], cycle, truth[..|truth| - 1])
    requires OnMark(m, writes, ends, cycle, started, ended, marks[|marks| - 1]).positions ==
             m.positions + [Some(truth[|truth| - 1])]
    ensures var after := OnMark(m, writes, ends, cycle, started, ended, marks[|marks| - 1]);
            && after.reanchored == LongGaps(marks, cycle)
            && after.longestSkip == LongestSteadySkip(marks, cycle, truth)
  {
    OnMarkCounts(m, writes, ends, cycle, started, ended, marks[|marks| - 1], truth[|truth| - 1]);
  }

  lemma {:induction false} CountsAre(writes: seq<Stamp>, marks: seq<Stamp>, ends: seq<int>, cycle: real,
                                     started: int, ended: int, pool: nat, truth: seq<nat>)
    requires pool > 0 && Presented(writes, marks, ends, pool, truth)
    requires Recovers(MatchAll(writes, marks, ends, cycle, started, ended), truth)
    ensures var m := MatchAll(writes, marks, ends, cycle, started, ended);
            m.reanchored == LongGaps(marks, cycle) && m.longestSkip == LongestSteadySkip(marks, cycle, truth)
  {
    if marks != [] {
      var last := |marks| - 1;
      var front, most := marks[..last], truth[..last];
      var m := MatchAll(writes, front, ends, cycle, started, ended);
      PresentedFront(writes, marks, ends, pool, truth);
      RecoversStep(writes, front, ends, cycle, started, ended, pool, most);
      OnMarkAppends(m, writes, ends, cycle, started, ended, marks[last]);
      ExtendsRecovery(m, MatchAll(writes, marks, ends, cycle, started, ended), truth);
      CountsAre(writes, front, ends, cycle, started, ended, pool, most);
      PreviousIsLast(writes, front, ends, cycle, started, ended);
      CountsOneMore(m, writes, marks, ends, cycle, started, ended, pool, truth);
    }
  }

  /** When the true writes are recovered, `reanchored` is the number of gaps longer than a cycle, and
      the longest skip reported is the longest one outside of those gaps. */
  lemma RecoveryCounts(writes: seq<Stamp>, marks: seq<Stamp>, ends: seq<int>,
                       started: int, ended: int, pool: nat, truth: seq<nat>)
    requires pool > 0 && Presented(writes, marks, ends, pool, truth)
    requires Recovers(Matched(writes, marks, ends, started, ended, pool), truth)
    ensures var report := Report(Matched(writes, marks, ends, started, ended, pool), pool);
            && report.unmatched == 0
            && report.reanchored == LongGaps(marks, Cycle(writes, pool))
            && report.longestSkip == LongestSteadySkip(marks, Cycle(writes, pool), truth)
  {
    CountsAre(writes, marks, ends, Cycle(writes, pool), started, ended, pool, truth);
    RecoversStep(writes, marks, ends, Cycle(writes, pool), started, ended, pool, truth);
  }

  lemma QuotientOfProduct(a: int, b: int)
    requires b > 0
    ensures (a * b) as real / b as real == a as real
  {
    assert (a * b) as real == a as real * b as real;
  }

  /** A pool cycle of writes at a fixed interval is the pool's size times that interval. */
  lemma CycleOfEvenWrites(writes: seq<Stamp>, pool: nat, interval: int)
    requires |writes| > 1 && writes[|writes| - 1].ns - writes[0].ns == interval * (|writes| - 1)
    ensures Cycle(writes, pool) == interval as real * pool as real
  {
    QuotientOfProduct(interval, |writes| - 1);
  }

  lemma SteadyIsRecoverable(writes: seq<Stamp>, marks: seq<Stamp>, ends: seq<int>, cycle: real, pool: nat,
                            truth: seq<nat>)
    requires pool > 0 && Presented(writes, marks, ends, pool, truth) && Steady(marks, cycle)
    ensures AllRecoverable(writes, marks, ends, cycle, pool, truth) <==> SkipsWithinPool(truth, pool)
  {
    forall j | 0 <= j < |marks|
      ensures Recoverable(writes, marks, ends, cycle, pool, truth, j) <==> Skip(truth, j) < pool
    {
      assert !LongGap(marks, cycle, j);
    }
  }

  /** Whatever the gaps, the cursor recovers the true write of every upload if and only if each one
      after a long gap presented the newest write of its fixture, and fewer writes than the pool were
      skipped before each of the others. */
  lemma RecoveryIsExact(writes: seq<Stamp>, marks: seq<Stamp>, ends: seq<int>,
                        started: int, ended: int, pool: nat, truth: seq<nat>)
    requires pool > 0 && Presented(writes, marks, ends, pool, truth)
    ensures var m := Matched(writes, marks, ends, started, ended, pool);
            && (Recovers(m, truth) <==> AllRecoverable(writes, marks, ends, Cycle(writes, pool), pool, truth))
            && (Recovers(m, truth) ==> m.unmatched == 0)
  {
    RecoversStep(writes, marks, ends, Cycle(writes, pool), started, ended, pool, truth);
  }

  /** When no gap re-anchors, that is: if and only if fewer writes than the pool are skipped before
      every upload. */
  lemma GreedyCursorIsExact(writes: seq<Stamp>, marks: seq<Stamp>, ends: seq<int>,
                            started: int, ended: int, pool: nat, truth: seq<nat>)
    requires pool > 0 && Presented(writes, marks, ends, pool, truth) && Steady(marks, Cycle(writes, pool))
    ensures var m := Matched(writes, marks, ends, started, ended, pool);
            && (Recovers(m, truth) <==> SkipsWithinPool(truth, pool))
            && (Recovers(m, truth) ==> m.unmatched == 0)
  {
    RecoveryIsExact(writes, marks, ends, started, ended, pool, truth);
    SteadyIsRecoverable(writes, marks, ends, Cycle(writes, pool), pool, truth);
  }

  // ---------------------------------------------------------------- what is flagged

  predicate InTimeOrder(writes: seq<Stamp>) {
    forall i, j | 0 <= i <= j < |writes| :: writes[i].ns <= writes[j].ns
  }

  /** What can be seen of the skip before upload `j`: whole pools leave no trace. */
  function VisibleSkip(truth: seq<nat>, pool: nat, j: nat): int
    requires pool > 0 && j < |truth|
  {
    Skip(truth, j) % pool
  }

  ghost predicate IsLongestVisible(truth: seq<nat>, pool: nat, longest: int)
    requires pool > 0
  {
    && (forall j | 0 <= j < |truth| :: VisibleSkip(truth, pool, j) <= longest)
    && (longest == 0 || exists j | 0 <= j < |truth| :: VisibleSkip(truth, pool, j) == longest)
  }

  lemma LongestVisibleStep(truth: seq<nat>, pool: nat, longest: nat)
    requires pool > 0 && truth != [] && IsLongestVisible(truth[..|truth| - 1], pool, longest)
    ensures IsLongestVisible(truth, pool, Max(longest, VisibleSkip(truth, pool, |truth| - 1)))
  {
    var most := truth[..|truth| - 1];
    assert forall j | 0 <= j < |most| :: VisibleSkip(most, pool, j) == VisibleSkip(truth, pool, j);
    if longest != 0 {
      var j :| 0 <= j < |most| && VisibleSkip(most, pool, j) == longest;
      assert VisibleSkip(truth, pool, j) == longest;
    }
  }

  /** Each upload is matched to a write of its own fixture no later than the true one. */
  predicate Trails(m: Matching, truth: seq<nat>, pool: nat)
    requires pool > 0
  {
    && |m.positions| == |truth|
    && (forall j | 0 <= j < |truth| ::
          && m.positions[j].Some? && m.positions[j].value <= truth[j]
          && m.positions[j].value % pool == truth[j] % pool)
    && m.unmatched == m.reanchored == 0
  }

  /** Without re-anchoring, one upload moves the cursor ahead by what is visible of its skip. */
  lemma OnMarkTrails(m: Matching, writes: seq<Stamp>, ends: seq<int>, cycle: real, started: int, ended: int,
                     mark: Stamp, target: nat, pool: nat)
    requires pool > 0 && m.cursor <= target < |writes| && Cycles(writes, pool)
    requires InTimeOrder(writes) || target - m.cursor < pool
    requires mark.fixture == target % pool
    requires FrameEnd(ends, mark.ns).Some? && writes[target].ns <= FrameEnd(ends, mark.ns).value
    requires m.previous.Some? ==> (mark.ns - m.previous.value) as real <= cycle
    ensures var after := OnMark(m, writes, ends, cycle, started, ended, mark);
            var visible := (target - m.cursor) % pool;
            && m.cursor + visible <= target && (m.cursor + visible) % pool == target % pool
            && after.positions == m.positions + [Some(m.cursor + visible)]
            && after.cursor == m.cursor + visible + 1
            && after.longestSkip == Max(m.longestSkip, visible)
            && after.unmatched == m.unmatched && after.reanchored == m.reanchored
  {
    NextIsAhead(writes, m.cursor, target, pool);
    ResidueAhead(m.cursor, target, pool);
    SmallRemainder(target - m.cursor, pool);
  }

  /** The cursor is behind the next true write by that write's skip, give or take whole pools. */
  lemma DistanceIsVisible(truth: seq<nat>, pool: nat, j: nat, position: Option<nat>, cursor: nat)
    requires pool > 0 && j < |truth|
    requires if j == 0 then position == None && cursor == 0
             else position.Some? && cursor == position.value + 1 && position.value % pool == truth[j - 1] % pool
    ensures (truth[j] - cursor) % pool == VisibleSkip(truth, pool, j)
  {
    if j > 0 {
      ResidueOfDistance(position.value, truth[j - 1], truth[j] as int - 1, pool);
    }
  }

  /** Each upload so far is matched to a write of its own fixture no later than the true one, and the
      longest skip that is visible is the one reported. */
  ghost predicate Follows(m: Matching, truth: seq<nat>, pool: nat)
    requires pool > 0
  {
    && Trails(m, truth, pool)
    && m.cursor == (if truth == [] then 0 else m.positions[|truth| - 1].value + 1)
    && IsLongestVisible(truth, pool, m.longestSkip)
  }

  /** One more upload, from its own distance to the cursor. */
  lemma FollowsStep(m: Matching, after: Matching, truth: seq<nat>, pool: nat)
    requires pool > 0 && truth != [] && Follows(m, truth[..|truth| - 1], pool)
    requires var target := truth[|truth| - 1];
             var visible := (target - m.cursor) % pool;
             && m.cursor + visible <= target && (m.cursor + visible) % pool == target % pool
             && after.positions == m.positions + [Some(m.cursor + visible)]
             && after.cursor == m.cursor + visible + 1
             && after.longestSkip == Max(m.longestSkip, visible)
             && after.unmatched == m.unmatched && after.reanchored == m.reanchored
    ensures Follows(after, truth, pool)
  {
    var last := |truth| - 1;
    DistanceIsVisible(truth, pool, last, if last == 0 then None else m.positions[last - 1], m.cursor);
    LongestVisibleStep(truth, pool, m.longestSkip);
  }

  lemma SteadyFront(marks: seq<Stamp>, cycle: real)
    requires marks != [] && Steady(marks, cycle)
    ensures Steady(marks[..|marks| - 1], cycle) && !LongGap(marks, cycle, |marks| - 1)
  {
    var front := marks[..|marks| - 1];
    assert forall j | 0 <= j < |front| :: LongGap(front, cycle, j) == LongGap(marks, cycle, j);
  }

  lemma SkipsFront(truth: seq<nat>, pool: nat)
    requires truth != [] && SkipsWithinPool(truth, pool)
    ensures SkipsWithinPool(truth[..|truth| - 1], pool) && Skip(truth, |truth| - 1) < pool
  {
    var most := truth[..|truth| - 1];
    assert forall j | 0 <= j < |most| :: Skip(most, j) == Skip(truth, j);
  }

  lemma CursorIsBehind(m: Matching, truth: seq<nat>, pool: nat)
    requires pool > 0 && truth != [] && Follows(m, truth[..|truth| - 1], pool) && Skip(truth, |truth| - 1) >= 0
    ensures m.cursor <= truth[|truth| - 1]
  {
  }

  /** With skips within the pool the cursor is right behind the last true write. */
  lemma CursorIsClose(writes: seq<Stamp>, marks: seq<Stamp>, ends: seq<int>, cycle: real,
                      started: int, ended: int, pool: nat, truth: seq<nat>)
    requires pool > 0 && marks != [] && Presented(writes, marks, ends, pool, truth) && Steady(marks, cycle)
    requires SkipsWithinPool(truth, pool)
    ensures var last := |marks| - 1;
            truth[last] - MatchAll(writes, marks[..last], ends, cycle, started, ended).cursor < pool
  {
    var last := |marks| - 1;
    var front, most := marks[..last], truth[..last];
    PresentedFront(writes, marks, ends, pool, truth);
    SteadyFront(marks, cycle);
    SkipsFront(truth, pool);
    SteadyIsRecoverable(writes, front, ends, cycle, pool, most);
    RecoversStep(writes, front, ends, cycle, started, ended, pool, most);
  }

  lemma FollowsOneMore(m: Matching, writes: seq<Stamp>, marks: seq<Stamp>, ends: seq<int>, cycle: real,
                       started: int, ended: int, pool: nat, truth: seq<nat>)
    requires pool > 0 && marks != [] && Presented(writes, marks, ends, pool, truth)
    requires Follows(m, truth[..|truth| - 1], pool)
    requires InTimeOrder(writes) || truth[|truth| - 1] - m.cursor < pool
    requires m.previous.Some? ==> (marks[|marks| - 1].ns - m.previous.value) as real <= cycle
    ensures Follows(OnMark(m, writes, ends, cycle, started, ended, marks[|marks| - 1]), truth, pool)
  {
    var (mark, target) := (marks[|marks| - 1], truth[|truth| - 1]);
    PresentedFront(writes, marks, ends, pool, truth);
    CursorIsBehind(m, truth, pool);
    OnMarkTrails(m, writes, ends, cycle, started, ended, mark, target, pool);
    FollowsStep(m, OnMark(m, writes, ends, cycle, started, ended, mark), truth, pool);
  }

  lemma {:induction false} FollowsTruth(writes: seq<Stamp>, marks: seq<Stamp>, ends: seq<int>, cycle: real,
                                        started: int, ended: int, pool: nat, truth: seq<nat>)
    requires pool > 0 && Presented(writes, marks, ends, pool, truth) && Steady(marks, cycle)
    requires InTimeOrder(writes) || SkipsWithinPool(truth, pool)
    ensures Follows(MatchAll(writes, marks, ends, cycle, started, ended), truth, pool)
  {
    if marks != [] {
      var last := |marks| - 1;
      var front, most := marks[..last], truth[..last];
      PresentedFront(writes, marks, ends, pool, truth);
      SteadyFront(marks, cycle);
      if !InTimeOrder(writes) {
        SkipsFront(truth, pool);
        CursorIsClose(writes, marks, ends, cycle, started, ended, pool, truth);
      }
      FollowsTruth(writes, front, ends, cycle, started, ended, pool, most);
      PreviousIsLast(writes, front, ends, cycle, started, ended);
      FollowsOneMore(MatchAll(writes, front, ends, cycle, started, ended),
                     writes, marks, ends, cycle, started, ended, pool, truth);
    }
  }

  /** Without re-anchoring every upload is matched, to a write of its fixture a whole number of pools
      before the true one, and the longest skip reported is the longest that is visible. */
  lemma ReportsVisibleSkips(writes: seq<Stamp>, marks: seq<Stamp>, ends: seq<int>,
                            started: int, ended: int, pool: nat, truth: seq<nat>)
    requires pool > 0 && Presented(writes, marks, ends, pool, truth) && Steady(marks, Cycle(writes, pool))
    requires InTimeOrder(writes) || SkipsWithinPool(truth, pool)
    ensures var m := Matched(writes, marks, ends, started, ended, pool);
            Trails(m, truth, pool) && IsLongestVisible(truth, pool, m.longestSkip)
  {
    FollowsTruth(writes, marks, ends, Cycle(writes, pool), started, ended, pool, truth);
  }

  /** A matching is reported as `ambiguous` if and only if some skip is one short of a whole number
      of pools - so the flag does not say whether a skip was longer than the pool. */
  lemma AmbiguousExactly(writes: seq<Stamp>, marks: seq<Stamp>, ends: seq<int>,
                         started: int, ended: int, pool: nat, truth: seq<nat>)
    requires pool > 1 && Presented(writes, marks, ends, pool, truth) && Steady(marks, Cycle(writes, pool))
    requires InTimeOrder(writes)
    ensures Report(Matched(writes, marks, ends, started, ended, pool), pool).ambiguous <==>
            exists j | 0 <= j < |truth| :: VisibleSkip(truth, pool, j) == pool - 1
  {
    ReportsVisibleSkips(writes, marks, ends, started, ended, pool, truth);
    assert forall j | 0 <= j < |truth| :: VisibleSkip(truth, pool, j) < pool;
  }

  /** A wrong recovery is reported as an unambiguous one if and only if some skip reaches the pool
      and none is one short of a whole number of pools. */
  lemma WrongUnflaggedExactly(writes: seq<Stamp>, marks: seq<Stamp>, ends: seq<int>,
                              started: int, ended: int, pool: nat, truth: seq<nat>)
    requires pool > 1 && Presented(writes, marks, ends, pool, truth) && Steady(marks, Cycle(writes, pool))
    requires InTimeOrder(writes)
    ensures var m := Matched(writes, marks, ends, started, ended, pool);
            !Recovers(m, truth) && !Report(m, pool).ambiguous <==>
              && (exists j | 0 <= j < |truth| :: Skip(truth, j) >= pool)
              && (forall j | 0 <= j < |truth| :: VisibleSkip(truth, pool, j) != pool - 1)
  {
    GreedyCursorIsExact(writes, marks, ends, started, ended, pool, truth);
    AmbiguousExactly(writes, marks, ends, started, ended, pool, truth);
  }

  /** An exact recovery reports the true longest skip. */
  lemma ExactRecoveryReportsItsSkips(writes: seq<Stamp>, marks: seq<Stamp>, ends: seq<int>,
                                     started: int, ended: int, pool: nat, truth: seq<nat>)
    requires pool > 0 && Presented(writes, marks, ends, pool, truth) && Steady(marks, Cycle(writes, pool))
    requires SkipsWithinPool(truth, pool)
    ensures var longest := Matched(writes, marks, ends, started, ended, pool).longestSkip;
            && (forall j | 0 <= j < |truth| :: Skip(truth, j) <= longest)
            && (longest == 0 || exists j | 0 <= j < |truth| :: Skip(truth, j) == longest)
  {
    ReportsVisibleSkips(writes, marks, ends, started, ended, pool, truth);
    forall j | 0 <= j < |truth|
      ensures VisibleSkip(truth, pool, j) == Skip(truth, j)
    {
      SmallRemainder(Skip(truth, j), pool);
    }
  }

  lemma TwoFrameEnds()
    ensures FrameEnd([32, 36], 31) == Some(32) && FrameEnd([32, 36], 35) == Some(36)
  {
    var ends := [32, 36];
    assert BisectLeft(ends, 31, 0, 2) == BisectLeft(ends, 31, 0, 1) == BisectLeft(ends, 31, 0, 0);
    assert BisectLeft(ends, 35, 0, 2) == BisectLeft(ends, 35, 0, 1) == BisectLeft(ends, 35, 1, 1);
  }

  lemma LiteralsArePresented(writes: seq<Stamp>, marks: seq<Stamp>, ends: seq<int>, truth: seq<nat>)
    requires writes == [Stamp(0, 0), Stamp(10, 1), Stamp(20, 0), Stamp(30, 1)]
    requires marks == [Stamp(31, 0), Stamp(35, 1)] && truth == [0, 3]
    requires FrameEnd(ends, 31) == Some(32) && FrameEnd(ends, 35) == Some(36)
    ensures Presented(writes, marks, ends, 2, truth) && InTimeOrder(writes) && Steady(marks, 20.0)
  {
  }

  /** A skip of a whole pool is not reported: after one upload of a two-fixture pool, the next one
      skipped two writes, and comes out as an unambiguous recovery with no skip at all. */
  lemma WholePoolSkipGoesUnreported()
    returns (writes: seq<Stamp>, marks: seq<Stamp>, ends: seq<int>, truth: seq<nat>)
    ensures Presented(writes, marks, ends, 2, truth) && Steady(marks, Cycle(writes, 2)) && InTimeOrder(writes)
    ensures |truth| == 2 && Skip(truth, 1) == 2
    ensures var m := Matched(writes, marks, ends, 0, 100, 2);
            && !Recovers(m, truth) && m.unmatched == m.reanchored == m.longestSkip == 0
            && !Report(m, 2).ambiguous
  {
    writes := [Stamp(0, 0), Stamp(10, 1), Stamp(20, 0), Stamp(30, 1)];
    marks := [Stamp(31, 0), Stamp(35, 1)];
    ends := [32, 36];
    truth := [0, 3];
    assert Cycle(writes, 2) == 20.0;
    TwoFrameEnds();
    LiteralsArePresented(writes, marks, ends, truth);
    assert VisibleSkip(truth, 2, 0) == VisibleSkip(truth, 2, 1) == 0;
    ReportsVisibleSkips(writes, marks, ends, 0, 100, 2, truth);
    WrongUnflaggedExactly(writes, marks, ends, 0, 100, 2, truth);
  }
}
