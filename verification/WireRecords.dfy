/** The wire record the interposer writes (`record` in tools/graphics-wiretap.c) and the benchmark
    reads back (`wire_records` and `frame_ends` in tools/graphics-benchmark.py): the host's writes,
    and when each synchronized frame ended. */
module WireRecords {
  import opened Octets
  import opened Wrappers
  import opened PathDecoding
  import opened FrameMatching

  /** One successful write: when, and its bytes. */
  datatype Record = Record(ns: nat, data: Bytes)

  /** How a record file can end early. */
  datatype Truncated = Header | Payload

  const U64_MODULUS: nat := 0x1_0000_0000_0000_0000
  const U32_MODULUS: nat := 0x1_0000_0000

  /** A timestamp and a length. */
  const HEADER: nat := 12

  // ---------------------------------------------------------------- numbers as bytes

  function Power(width: nat): nat {
    if width == 0 then 1 else 256 * Power(width - 1)
  }

  function LittleEndian(n: nat, width: nat): (bytes: Bytes)
    ensures |bytes| == width
  {
    if width == 0 then [] else [n % 256] + LittleEndian(n / 256, width - 1)
  }

  function Value(bytes: Bytes): nat {
    if bytes == [] then 0 else bytes[0] + 256 * Value(bytes[1..])
  }

  lemma {:induction false} ValueReadsBack(n: nat, width: nat)
    requires n < Power(width)
    ensures Value(LittleEndian(n, width)) == n
  {
    if width > 0 {
      ValueReadsBack(n / 256, width - 1);
      assert LittleEndian(n, width)[1..] == LittleEndian(n / 256, width - 1);
    }
  }

  lemma Powers()
    ensures Power(4) == U32_MODULUS && Power(8) == U64_MODULUS
  {
    assert Power(4) == 256 * Power(3) == 65536 * Power(2);
    assert Power(8) == 256 * Power(7) == 65536 * Power(6) == 16777216 * Power(5) == U32_MODULUS * Power(4);
  }

  // ---------------------------------------------------------------- writing and reading records

  /** `record`, which keeps the length in 32 bits. */
  function Encode(r: Record): Bytes {
    LittleEndian(r.ns, 8) + LittleEndian(|r.data| % U32_MODULUS, 4) + r.data
  }

  function EncodeAll(records: seq<Record>): Bytes {
    if records == [] then [] else Encode(records[0]) + EncodeAll(records[1..])
  }

  /** A record's length fits its field. */
  predicate Fits(r: Record) {
    |r.data| < U32_MODULUS
  }

  predicate Stamped(records: seq<Record>) {
    forall r | r in records :: r.ns < U64_MODULUS
  }

  /** The records a file holds, and how it ends early if it does. */
  function Parse(data: Bytes): (seq<Record>, Option<Truncated>)
    decreases |data|
  {
    if data == [] then ([], None)
    else if |data| < HEADER then ([], Some(Header))
    else
      var end := HEADER + Value(data[8..HEADER]);
      if |data| < end then ([], Some(Payload))
      else
        var (rest, cut) := Parse(data[end..]);
        ([Record(Value(data[..8]), data[HEADER..end])] + rest, cut)
  }

  /** Reading on from an offset into the file. */
  lemma ParseAt(data: Bytes, offset: nat)
    requires offset < |data|
    ensures var parsed := Parse(data[offset..]);
            if offset + HEADER > |data| then parsed == ([], Some(Header))
            else
              var start := offset + HEADER;
              var end := start + Value(data[offset + 8..start]);
              if end > |data| then parsed == ([], Some(Payload))
              else
                var (rest, cut) := Parse(data[end..]);
                parsed == ([Record(Value(data[offset..offset + 8]), data[start..end])] + rest, cut)
  {
    var left := data[offset..];
    if offset + HEADER <= |data| {
      var start := offset + HEADER;
      assert left[..8] == data[offset..offset + 8] && left[8..HEADER] == data[offset + 8..start];
      var end := start + Value(data[offset + 8..start]);
      if end <= |data| {
        assert left[HEADER..end - offset] == data[start..end] && left[end - offset..] == data[end..];
      }
    }
  }

  /** What was read so far, and then the rest. */
  function ReadOn(records: seq<Record>, rest: (seq<Record>, Option<Truncated>)): (seq<Record>, Option<Truncated>) {
    (records + rest.0, rest.1)
  }

  lemma ReadNothing(rest: (seq<Record>, Option<Truncated>))
    ensures ReadOn([], rest) == rest
  {
    assert [] + rest.0 == rest.0;
  }

  lemma ReadOneMore(records: seq<Record>, r: Record, rest: (seq<Record>, Option<Truncated>))
    ensures ReadOn(records, ReadOn([r], rest)) == ReadOn(records + [r], rest)
  {
    assert records + ([r] + rest.0) == records + [r] + rest.0;
  }

  lemma ReadAllOf(records: seq<Record>, cut: Option<Truncated>)
    ensures ReadOn(records, ([], cut)) == (records, cut)
  {
    assert records + [] == records;
  }

  /** `wire_records`: one offset walking the file. */
  method ReadRecords(data: Bytes) returns (records: seq<Record>, cut: Option<Truncated>)
    ensures (records, cut) == Parse(data)
  {
    records := [];
    var offset: nat := 0;
    ghost var rest := Parse(data);
    assert data[0..] == data;
    ReadNothing(rest);
    while offset < |data|
      invariant offset <= |data|
      invariant rest == Parse(data[offset..])
      invariant Parse(data) == ReadOn(records, rest)
      decreases |data| - offset
    {
      ParseAt(data, offset);
      if offset + HEADER > |data| {
        ReadAllOf(records, Some(Header));
        return records, Some(Header);
      }
      var timestamp, length := Value(data[offset..offset + 8]), Value(data[offset + 8..offset + HEADER]);
      offset := offset + HEADER;
      if offset + length > |data| {
        ReadAllOf(records, Some(Payload));
        return records, Some(Payload);
      }
      var found := Record(timestamp, data[offset..offset + length]);
      offset := offset + length;
      rest := Parse(data[offset..]);
      ReadOneMore(records, found, rest);
      records := records + [found];
    }
    ReadAllOf(records, None);
    cut := None;
  }

  lemma HeaderParts(stamp: Bytes, length: Bytes, payload: Bytes, more: Bytes)
    requires |stamp| == 8 && |length| == 4
    ensures var data := stamp + length + payload + more;
            |data| >= HEADER && data[..8] == stamp && data[8..HEADER] == length && data[HEADER..] == payload + more
  {
  }

  /** What the reader sees of a written record: its timestamp and the low 32 bits of its length. */
  lemma HeaderOf(r: Record, more: Bytes)
    requires r.ns < U64_MODULUS
    ensures var data := Encode(r) + more;
            && |Encode(r)| == HEADER + |r.data| && |data| >= HEADER
            && Value(data[..8]) == r.ns
            && Value(data[8..HEADER]) == |r.data| % U32_MODULUS
            && data[HEADER..] == r.data + more
  {
    Powers();
    ValueReadsBack(r.ns, 8);
    ValueReadsBack(|r.data| % U32_MODULUS, 4);
    HeaderParts(LittleEndian(r.ns, 8), LittleEndian(|r.data| % U32_MODULUS, 4), r.data, more);
  }

  lemma ParseHeader(data: Bytes, ns: nat, payload: Bytes, more: Bytes)
    requires |data| >= HEADER && data[HEADER..] == payload + more
    requires Value(data[..8]) == ns && Value(data[8..HEADER]) == |payload|
    ensures Parse(data) == ([Record(ns, payload)] + Parse(more).0, Parse(more).1)
  {
    var end := HEADER + |payload|;
    assert data[HEADER..end] == data[HEADER..][..|payload|] == payload;
    assert data[end..] == data[HEADER..][|payload|..] == more;
  }

  /** A record whose length fits is read back, and reading goes on after it. */
  lemma ParseEncoded(r: Record, more: Bytes)
    requires r.ns < U64_MODULUS && Fits(r)
    ensures Parse(Encode(r) + more) == ([r] + Parse(more).0, Parse(more).1)
  {
    HeaderOf(r, more);
    ParseHeader(Encode(r) + more, r.ns, r.data, more);
  }

  /** A record too long for its length field is not read back as it was. */
  lemma OverlongIsMisread(r: Record, more: Bytes)
    requires r.ns < U64_MODULUS && !Fits(r)
    ensures var (records, _) := Parse(Encode(r) + more);
            records != [] && |records[0].data| < |r.data|
  {
    HeaderOf(r, more);
    assert |r.data| % U32_MODULUS < U32_MODULUS <= |r.data|;
  }

  /** What the interposer writes the benchmark reads back, exactly when every write was shorter than
      the 32-bit length field can say. */
  lemma {:induction false} RecordsReadBack(records: seq<Record>)
    requires Stamped(records)
    ensures Parse(EncodeAll(records)) == (records, None) <==> forall r | r in records :: Fits(r)
  {
    if records != [] {
      var first, rest := records[0], records[1..];
      assert first in records && forall r | r in rest :: r in records;
      assert records == [first] + rest;
      if Fits(first) {
        ParseEncoded(first, EncodeAll(rest));
        RecordsReadBack(rest);
        assert Parse(EncodeAll(records)).0[1..] == Parse(EncodeAll(rest)).0;
        assert forall r | r in records :: r == first || r in rest;
      } else {
        OverlongIsMisread(first, EncodeAll(rest));
      }
    }
  }

  /** What reading a record file cut at `n` comes to: the records before the cut, and whether it fell
      in the middle of one. */
  ghost predicate ReadsUpTo(read: (seq<Record>, Option<Truncated>), records: seq<Record>, n: nat) {
    && read.0 <= records && |EncodeAll(read.0)| <= n
    && var left := n - |EncodeAll(read.0)|;
    && read.1 == (if left == 0 then None else if left < HEADER then Some(Header) else Some(Payload))
    && (|read.0| < |records| ==> left < |Encode(records[|read.0|])|)
  }

  lemma ReadsOneMore(first: Record, read: (seq<Record>, Option<Truncated>), rest: seq<Record>, n: nat)
    requires ReadsUpTo(read, rest, n)
    ensures ReadsUpTo(([first] + read.0, read.1), [first] + rest, |Encode(first)| + n)
  {
    assert ([first] + read.0)[1..] == read.0;
    assert EncodeAll([first] + read.0) == Encode(first) + EncodeAll(read.0);
  }

  lemma CutInFirst(r: Record, more: Bytes, n: nat)
    requires r.ns < U64_MODULUS && Fits(r) && n < |Encode(r)|
    ensures Parse((Encode(r) + more)[..n]) ==
            ([], if n == 0 then None else if n < HEADER then Some(Header) else Some(Payload))
  {
    HeaderOf(r, more);
    var data := Encode(r) + more;
    if n >= HEADER {
      assert data[..n][8..HEADER] == data[8..HEADER];
    }
  }

  lemma CutAfter(a: Bytes, b: Bytes, n: nat)
    requires |a| <= n <= |a| + |b|
    ensures (a + b)[..n] == a + b[..n - |a|]
  {
  }

  lemma CutPastFirst(r: Record, more: Bytes, n: nat)
    requires r.ns < U64_MODULUS && Fits(r) && |Encode(r)| <= n <= |Encode(r)| + |more|
    ensures var (found, cut) := Parse(more[..n - |Encode(r)|]);
            Parse((Encode(r) + more)[..n]) == ([r] + found, cut)
  {
    CutAfter(Encode(r), more, n);
    ParseEncoded(r, more[..n - |Encode(r)|]);
  }

  lemma CutInLater(first: Record, rest: seq<Record>, n: nat)
    requires first.ns < U64_MODULUS && Fits(first) && |Encode(first)| <= n <= |Encode(first)| + |EncodeAll(rest)|
    requires ReadsUpTo(Parse(EncodeAll(rest)[..n - |Encode(first)|]), rest, n - |Encode(first)|)
    ensures ReadsUpTo(Parse((Encode(first) + EncodeAll(rest))[..n]), [first] + rest, n)
  {
    CutPastFirst(first, EncodeAll(rest), n);
    ReadsOneMore(first, Parse(EncodeAll(rest)[..n - |Encode(first)|]), rest, n - |Encode(first)|);
  }

  lemma ReadsNothingYet(first: Record, rest: seq<Record>, n: nat)
    requires first.ns < U64_MODULUS && Fits(first) && n < |Encode(first)|
    ensures ReadsUpTo(Parse((Encode(first) + EncodeAll(rest))[..n]), [first] + rest, n)
  {
    CutInFirst(first, EncodeAll(rest), n);
  }

  /** A record file cut anywhere, as by a benchmark killed while writing: the records before the cut
      are read back, and the cut is noticed unless it falls between records. */
  lemma {:induction false} CutIsNoticed(records: seq<Record>, n: nat)
    requires Stamped(records) && (forall r | r in records :: Fits(r))
    requires n <= |EncodeAll(records)|
    ensures ReadsUpTo(Parse(EncodeAll(records)[..n]), records, n)
  {
    if records != [] {
      var (first, rest) := (records[0], records[1..]);
      assert first in records && forall r | r in rest :: r in records;
      assert [first] + rest == records;
      if n >= |Encode(first)| {
        CutIsNoticed(rest, n - |Encode(first)|);
        CutInLater(first, rest, n);
      } else {
        ReadsNothingYet(first, rest, n);
      }
    }
  }

  // ---------------------------------------------------------------- frame ends

  /** The terminator of a synchronized update, `ESC [ ? 2 0 2 6 l`. */
  const SYNC_END: Bytes := [0x1b, 91, 63, 50, 48, 50, 54, 108]

  function Flat(records: seq<Record>): Bytes {
    if records == [] then [] else records[0].data + Flat(records[1..])
  }

  predicate EndsAt(wire: Bytes, end: int) {
    8 <= end <= |wire| && wire[end - 8..end] == SYNC_END
  }

  /** Where `re.finditer` finds terminators, from a position on. */
  function Matches(wire: Bytes, from: nat): (ends: seq<int>)
    ensures forall end | end in ends :: from + 8 <= end && EndsAt(wire, end)
    decreases |wire| - from
  {
    if from + 8 > |wire| then []
    else if EndsAt(wire, from + 8) then [from + 8] + Matches(wire, from + 8)
    else Matches(wire, from + 1)
  }

  /** Terminators never overlap: an escape only ever begins one. */
  lemma NoOverlap(wire: Bytes, a: int, b: int)
    requires EndsAt(wire, a) && EndsAt(wire, b) && a < b
    ensures b >= a + 8
  {
    assert wire[b - 8] == wire[b - 8..b][0] == SYNC_END[0];
    forall i | a - 8 < i < a
      ensures wire[i] != SYNC_END[0]
    {
      assert wire[i] == wire[a - 8..a][i - a + 8] == SYNC_END[i - a + 8];
    }
  }

  /** Skipping past each match misses no terminator, and finds them in order. */
  lemma {:induction false} MatchesAreAll(wire: Bytes, from: nat)
    ensures forall end :: end in Matches(wire, from) <==> from + 8 <= end && EndsAt(wire, end)
    ensures forall j, k | 0 <= j < k < |Matches(wire, from)| :: Matches(wire, from)[j] < Matches(wire, from)[k]
    decreases |wire| - from
  {
    if from + 8 <= |wire| {
      if EndsAt(wire, from + 8) {
        MatchesAreAll(wire, from + 8);
        var later := Matches(wire, from + 8);
        assert forall k | 0 <= k < |later| :: later[k] >= from + 16 by {
          assert forall k | 0 <= k < |later| :: later[k] in later;
        }
        forall end | from + 8 <= end && EndsAt(wire, end)
          ensures end == from + 8 || end >= from + 16
        {
          if end > from + 8 {
            NoOverlap(wire, from + 8, end);
          }
        }
      } else {
        MatchesAreAll(wire, from + 1);
      }
    }
  }

  /** The time of the write that carried byte `end - 1` of the wire. */
  function CarriedAt(records: seq<Record>, end: int): int
    requires 0 < end <= |Flat(records)|
  {
    if end <= |records[0].data| then records[0].ns else CarriedAt(records[1..], end - |records[0].data|)
  }

  lemma {:induction false} FlatJoined(a: seq<Record>, b: seq<Record>)
    ensures Flat(a + b) == Flat(a) + Flat(b)
  {
    if a == [] {
      assert a + b == b;
    } else {
      assert (a + b)[1..] == a[1..] + b;
      FlatJoined(a[1..], b);
    }
  }

  /** How long the wire is after the first `k` records. */
  function LengthAfter(records: seq<Record>, k: nat): nat
    requires k <= |records|
  {
    |Flat(records[..k])|
  }

  lemma LengthGrows(records: seq<Record>, j: nat, k: nat)
    requires j <= k <= |records|
    ensures LengthAfter(records, j) <= LengthAfter(records, k)
  {
    assert records[..k] == records[..j] + records[j..k];
    FlatJoined(records[..j], records[j..k]);
  }

  /** The running length of the wire after each record. */
  ghost predicate AreEnds(ends: seq<int>, records: seq<Record>) {
    |ends| == |records| && forall k | 0 <= k < |ends| :: ends[k] == LengthAfter(records, k + 1)
  }

  /** The first record whose running length reaches `end` is the one that carried its last byte. */
  lemma {:induction false} FirstReachingCarries(records: seq<Record>, end: int, k: nat)
    requires k < |records| && LengthAfter(records, k) < end <= LengthAfter(records, k + 1)
    ensures end <= |Flat(records)| && records[k].ns == CarriedAt(records, end)
  {
    LengthGrows(records, k + 1, |records|);
    assert records[..|records|] == records;
    assert records[..0] == [] && records[..1] == [records[0]];
    assert Flat([records[0]]) == records[0].data + Flat([records[0]][1..]) == records[0].data;
    if k > 0 {
      var later := records[1..];
      assert records[..k] == [records[0]] + later[..k - 1] && records[..k + 1] == [records[0]] + later[..k];
      FlatJoined([records[0]], later[..k - 1]);
      FlatJoined([records[0]], later[..k]);
      FirstReachingCarries(later, end - |records[0].data|, k - 1);
    }
  }

  /** The frame ends of a recording: when the last byte of each terminator was carried. */
  function FrameEnds(records: seq<Record>): (times: seq<int>)
    ensures |times| == |Matches(Flat(records), 0)|
  {
    var ends := Matches(Flat(records), 0);
    seq(|ends|, k requires 0 <= k < |ends| => assert ends[k] in ends; CarriedAt(records, ends[k]))
  }

  /** The wire, its length after each record, and each record's time. */
  method Timeline(records: seq<Record>) returns (wire: Bytes, ends: seq<int>, times: seq<int>)
    ensures wire == Flat(records) && AreEnds(ends, records)
    ensures |times| == |records| && forall k | 0 <= k < |times| :: times[k] == records[k].ns
  {
    wire, ends, times := [], [], [];
    for i := 0 to |records|
      invariant wire == Flat(records[..i])
      invariant |ends| == i && forall k | 0 <= k < i :: ends[k] == LengthAfter(records, k + 1)
      invariant |times| == i && forall k | 0 <= k < i :: times[k] == records[k].ns
    {
      assert records[..i + 1] == records[..i] + [records[i]];
      FlatJoined(records[..i], [records[i]]);
      wire := wire + records[i].data;
      ends := ends + [|wire|];
      times := times + [records[i].ns];
    }
    assert records[..|records|] == records;
  }

  /** Bisection finds the record that carried a byte of the wire. */
  lemma BisectionCarries(records: seq<Record>, ends: seq<int>, end: int)
    requires AreEnds(ends, records) && 0 < end <= |Flat(records)|
    ensures var position := BisectLeft(ends, end, 0, |ends|);
            position < |records| && records[position].ns == CarriedAt(records, end)
  {
    forall j, k | 0 <= j <= k < |ends|
      ensures ends[j] <= ends[k]
    {
      LengthGrows(records, j + 1, k + 1);
    }
    BisectIsFirst(ends, end, 0, |ends|);
    var position := BisectLeft(ends, end, 0, |ends|);
    assert records[..|records|] == records && records[..0] == [];
    assert ends[|records| - 1] == |Flat(records)| >= end;
    assert position > 0 ==> ends[position - 1] < end;
    assert ends[position] >= end;
    FirstReachingCarries(records, end, position);
  }

  /** `frame_ends`, whose bisection never falls off the end of the recorded times. */
  method ReadFrameEnds(data: Bytes) returns (frameEnds: seq<int>, cut: Option<Truncated>)
    ensures cut == Parse(data).1
    ensures frameEnds == if cut.None? then FrameEnds(Parse(data).0) else []
  {
    var records;
    records, cut := ReadRecords(data);
    if cut.Some? {
      return [], cut;
    }
    var wire, ends, times := Timeline(records);
    var matches := Matches(wire, 0);
    frameEnds := [];
    for i := 0 to |matches|
      invariant frameEnds == FrameEnds(records)[..i]
    {
      assert matches[i] in matches;
      BisectionCarries(records, ends, matches[i]);
      frameEnds := frameEnds + [times[BisectLeft(ends, matches[i], 0, |ends|)]];
    }
    assert FrameEnds(records)[..|matches|] == FrameEnds(records);
  }

  predicate Sorted(times: seq<int>) {
    forall j, k | 0 <= j <= k < |times| :: times[j] <= times[k]
  }

  predicate Chronological(records: seq<Record>) {
    forall j, k | 0 <= j <= k < |records| :: records[j].ns <= records[k].ns
  }

  lemma {:induction false} CarriedInOrder(records: seq<Record>, a: int, b: int)
    requires Chronological(records) && 0 < a <= b <= |Flat(records)|
    ensures CarriedAt(records, a) <= CarriedAt(records, b)
    ensures exists k | 0 <= k < |records| :: CarriedAt(records, b) == records[k].ns
  {
    var length := |records[0].data|;
    if b > length {
      CarriedInOrder(records[1..], if a > length then a - length else b - length, b - length);
      var k :| 0 <= k < |records[1..]| && CarriedAt(records[1..], b - length) == records[1..][k].ns;
      assert records[k + 1] == records[1..][k];
    } else {
      assert CarriedAt(records, b) == records[0].ns;
    }
  }

  /** With a monotone clock the frame ends come out sorted, so for every upload bisection finds the
      earliest frame end that is not before it, and fails only when there is none. */
  lemma UploadsGetTheirFrameEnd(records: seq<Record>, marked: int)
    requires Chronological(records)
    ensures var ends := FrameEnds(records);
            && Sorted(ends)
            && match FrameEnd(ends, marked)
               case None => forall end | end in ends :: end < marked
               case Some(end) =>
                 && end in ends && marked <= end
                 && forall other | other in ends && marked <= other :: end <= other
  {
    var ends := FrameEnds(records);
    var matches := Matches(Flat(records), 0);
    MatchesAreAll(Flat(records), 0);
    forall j, k | 0 <= j <= k < |ends|
      ensures ends[j] <= ends[k]
    {
      assert matches[j] in matches && matches[k] in matches;
      CarriedInOrder(records, matches[j], matches[k]);
    }
    BisectIsFirst(ends, marked, 0, |ends|);
  }
}
