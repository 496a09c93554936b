/** The benchmark interposer's upload marks (tools/graphics-wiretap.c): finding file uploads in the
    bytes handed to a write, and recording those the write really carried. */
module Wiretap {
  import opened Octets
  import opened Wrappers
  import opened PathDecoding

  const MAX_MARKS: nat := 64

  const ESC: Byte := 0x1b
  const UNDERSCORE: Byte := 95
  const LETTER_G: Byte := 71
  const SEMICOLON: Byte := 59
  const BACKSLASH: Byte := 92
  const COMMA: Byte := 44

  /** One upload: where it ends in the write, the first bytes of the file it names, and whether
      four of them could be read. */
  datatype Mark = Mark(end: nat, pixel: Bytes, read: bool)

  /** The files that can be opened, by path. */
  type Disk = map<Bytes, Bytes>

  // ---------------------------------------------------------------- which control data names a file

  /** The key from `i` is exactly `t=t` or `t=f`: it starts where a key starts, and its third byte is
      its last. */
  predicate FileKeyAt(control: Bytes, i: int) {
    && 0 <= i && i + 3 <= |control|
    && control[i] == 116 && control[i + 1] == 61 && (control[i + 2] == 116 || control[i + 2] == 102)
    && (i == 0 || control[i - 1] == COMMA)
    && (i + 3 == |control| || control[i + 3] == COMMA)
  }

  /** Some whole comma-separated key, not merely a substring, is a file medium. */
  ghost predicate HasFileKey(control: Bytes) {
    exists i :: FileKeyAt(control, i)
  }

  method NamesAFile(control: Bytes) returns (names: bool)
    ensures names <==> HasFileKey(control)
  {
    var start := 0;
    while start < |control|
      invariant 0 <= start <= |control| + 1
      invariant start == 0 || start == |control| + 1 || control[start - 1] == COMMA
      invariant forall i | i < start :: !FileKeyAt(control, i)
    {
      var end := start;
      while end < |control| && control[end] != COMMA
        invariant start <= end <= |control|
        invariant forall k | start <= k < end :: control[k] != COMMA
      {
        end := end + 1;
      }
      if end - start == 3 && control[start] == 116 && control[start + 1] == 61
         && (control[start + 2] == 116 || control[start + 2] == 102) {
        assert FileKeyAt(control, start);
        return true;
      }
      start := end + 1;
    }
    names := false;
  }

  // ---------------------------------------------------------------- uploads in one buffer

  /** The first `;` or escape from a position on, or the end. */
  function HeaderEnd(bytes: Bytes, from: nat): (r: nat)
    requires from <= |bytes|
    ensures from <= r <= |bytes|
    ensures forall k | from <= k < r :: bytes[k] != SEMICOLON && bytes[k] != ESC
    ensures r < |bytes| ==> bytes[r] == SEMICOLON || bytes[r] == ESC
    decreases |bytes| - from
  {
    if from == |bytes| || bytes[from] == SEMICOLON || bytes[from] == ESC then from else HeaderEnd(bytes, from + 1)
  }

  predicate TerminatorAt(bytes: Bytes, k: int) {
    0 <= k && k + 1 < |bytes| && bytes[k] == ESC && bytes[k + 1] == BACKSLASH
  }

  /** The first string terminator from a position on. */
  function Terminator(bytes: Bytes, from: nat): (r: Option<nat>)
    ensures r.Some? ==> from <= r.value && TerminatorAt(bytes, r.value)
    ensures r.Some? ==> forall k | from <= k < r.value :: !TerminatorAt(bytes, k)
    ensures r.None? ==> forall k | from <= k :: !TerminatorAt(bytes, k)
    decreases |bytes| - from
  {
    if from + 1 >= |bytes| then None
    else if TerminatorAt(bytes, from) then Some(from)
    else Terminator(bytes, from + 1)
  }

  predicate StartsGraphics(bytes: Bytes, i: nat)
    requires i + 2 < |bytes|
  {
    bytes[i] == ESC && bytes[i + 1] == UNDERSCORE && bytes[i + 2] == LETTER_G
  }

  /** A graphics command whose control data names a file medium begins at `i`. */
  ghost predicate StartsUpload(bytes: Bytes, i: nat) {
    && i + 2 < |bytes| && StartsGraphics(bytes, i)
    && var semi := HeaderEnd(bytes, i + 3);
       semi < |bytes| && bytes[semi] == SEMICOLON && HasFileKey(bytes[i + 3..semi])
  }

  function CString(path: Bytes): Bytes {
    if path == [] || path[0] == 0 then [] else [path[0]] + CString(path[1..])
  }

  function FirstFour(content: Bytes): Bytes {
    if |content| >= 4 then content[..4] else content + [0, 0, 0, 0][..4 - |content|]
  }

  /** What the interposer learns of an upload: the first four bytes of the file its payload names. */
  function Sample(disk: Disk, payload: Bytes): (Bytes, bool) {
    match Decode(payload)
    case None => ([0, 0, 0, 0], false)
    case Some(path) =>
      var name := CString(path);
      if name in disk then (FirstFour(disk[name]), |disk[name]| >= 4) else ([0, 0, 0, 0], false)
  }

  /** How the payload of an upload is looked at: what was read, and whether that was four bytes. */
  type Look = Bytes -> (Bytes, bool)

  function LookOn(disk: Disk): Look {
    (payload: Bytes) => Sample(disk, payload)
  }

  /** The mark of the upload that begins at `i` and whose terminator is at `end`. */
  function MarkAt(bytes: Bytes, base: nat, look: Look, i: nat, end: nat): Mark
    requires i + 3 <= |bytes| && HeaderEnd(bytes, i + 3) + 1 <= end <= |bytes|
  {
    var (pixel, read) := look(bytes[HeaderEnd(bytes, i + 3) + 1..end]);
    Mark(base + end + 2, pixel, read)
  }

  /** What the scan finds at one position: nothing, an upload cut short, or a whole one. */
  datatype Probe = Nothing | CutShort | Whole(mark: Mark, next: nat)

  ghost function ProbeOf(bytes: Bytes, base: nat, look: Look, i: nat): Probe {
    if !StartsUpload(bytes, i) then Nothing
    else
      match Terminator(bytes, HeaderEnd(bytes, i + 3) + 1)
      case None => CutShort
      case Some(end) => Whole(MarkAt(bytes, base, look, i, end), end + 2)
  }

  /** A whole upload takes at least six bytes, and its mark ends where it does. */
  ghost predicate Advances(find: nat -> Probe, base: nat, length: nat) {
    forall i: nat :: find(i).Whole? ==>
      i + 5 < find(i).next <= length && find(i).mark.end == base + find(i).next
  }

  ghost function Finder(bytes: Bytes, base: nat, look: Look): (find: nat -> Probe)
    ensures Advances(find, base, |bytes|)
  {
    (i: nat) => ProbeOf(bytes, base, look, i)
  }

  /** Every upload that is whole from position `i` on. An upload without its terminator hides
      whatever follows it. */
  ghost function ScanFrom(find: nat -> Probe, base: nat, length: nat, i: nat): seq<Mark>
    requires Advances(find, base, length)
    decreases length - i
  {
    if i + 2 >= length then []
    else
      match find(i)
      case Nothing => ScanFrom(find, base, length, i + 1)
      case CutShort => []
      case Whole(mark, next) => [mark] + ScanFrom(find, base, length, next)
  }

  /** The uploads of one buffer, at their place `base` in the write. */
  ghost function Scan(bytes: Bytes, base: nat, look: Look): seq<Mark> {
    ScanFrom(Finder(bytes, base, look), base, |bytes|, 0)
  }

  function Take<T>(s: seq<T>, n: nat): seq<T> {
    if |s| <= n then s else s[..n]
  }

  method UploadStartsAt(bytes: Bytes, i: nat) returns (starts: bool)
    requires i + 2 < |bytes|
    ensures starts <==> StartsUpload(bytes, i)
  {
    if !StartsGraphics(bytes, i) {
      return false;
    }
    var semi := HeaderEnd(bytes, i + 3);
    if semi >= |bytes| || bytes[semi] != SEMICOLON {
      return false;
    }
    starts := NamesAFile(bytes[i + 3..semi]);
  }

  method ProbeAt(bytes: Bytes, base: nat, look: Look, i: nat) returns (probe: Probe)
    requires i + 2 < |bytes|
    ensures probe == ProbeOf(bytes, base, look, i)
  {
    var starts := UploadStartsAt(bytes, i);
    if !starts {
      return Nothing;
    }
    var end := Terminator(bytes, HeaderEnd(bytes, i + 3) + 1);
    if end.None? {
      return CutShort;
    }
    return Whole(MarkAt(bytes, base, look, i, end.value), end.value + 2);
  }

  method AppendMark(marks: array<Mark>, count: nat, mark: Mark)
    requires count < marks.Length
    modifies marks
    ensures marks[..count + 1] == old(marks[..count]) + [mark]
  {
    marks[count] := mark;
  }

  lemma TakeJoined<T>(a: seq<T>, b: seq<T>, n: nat)
    ensures |Take(a, n)| <= n
    ensures Take(a, n) + Take(b, n - |Take(a, n)|) == Take(a + b, n)
  {
  }

  /** What is in the array together with what the marks still to come would add to it. */
  function Outlook(done: seq<Mark>, rest: seq<Mark>): seq<Mark> {
    done + Take(rest, if |done| <= MAX_MARKS then MAX_MARKS - |done| else 0)
  }

  /** Adding as many of the next marks as fit leaves the outlook as it was. */
  lemma OutlookKept(done: seq<Mark>, here: seq<Mark>, there: seq<Mark>)
    requires |done| <= MAX_MARKS
    ensures var more := done + Take(here, MAX_MARKS - |done|);
            |more| <= MAX_MARKS && Outlook(more, there) == Outlook(done, here + there)
  {
    TakeJoined(here, there, MAX_MARKS - |done|);
  }

  lemma OutlookDone(done: seq<Mark>, rest: seq<Mark>)
    requires rest == [] || |done| >= MAX_MARKS
    ensures Outlook(done, rest) == done
  {
  }

  /** `scan_marks`: the uploads of one buffer, appended to the caller's array while it has room. */
  method ScanMarks(bytes: Bytes, base: nat, look: Look, marks: array<Mark>, count: nat) returns (found: nat)
    requires marks.Length == MAX_MARKS && count <= MAX_MARKS
    modifies marks
    ensures count <= found <= MAX_MARKS
    ensures marks[..found] == old(marks[..count]) + Take(Scan(bytes, base, look), MAX_MARKS - count)
  {
    found := count;
    var i := 0;
    ghost var find := Finder(bytes, base, look);
    ghost var rest := ScanFrom(find, base, |bytes|, 0);
    ghost var done, total := marks[..count], Outlook(marks[..count], rest);
    while i + 2 < |bytes| && found < MAX_MARKS
      invariant count <= found == |done| <= MAX_MARKS && marks[..found] == done
      invariant rest == ScanFrom(find, base, |bytes|, i)
      invariant Outlook(done, rest) == total
      decreases |bytes| - i
    {
      var probe := ProbeAt(bytes, base, look, i);
      assert probe == find(i);
      if probe.Nothing? {
        i := i + 1;
        continue;
      }
      if probe.CutShort? {
        rest := [];
        break;
      }
      i := probe.next;
      rest := ScanFrom(find, base, |bytes|, i);
      OutlookKept(done, [probe.mark], rest);
      AppendMark(marks, found, probe.mark);
      found := found + 1;
      done := done + [probe.mark];
    }
    OutlookDone(done, rest);
  }

  // ---------------------------------------------------------------- ends increase

  /** Ends strictly increase, from after `low` up to `high`. */
  predicate Increasing(marks: seq<Mark>, low: int, high: int) {
    && (forall k | 0 <= k < |marks| :: low < marks[k].end <= high)
    && (forall j, k | 0 <= j < k < |marks| :: marks[j].end < marks[k].end)
  }

  lemma IncreasingCons(mark: Mark, rest: seq<Mark>, low: int, high: int)
    requires low < mark.end <= high && Increasing(rest, mark.end, high)
    ensures Increasing([mark] + rest, low, high)
  {
  }

  lemma IncreasingFrom(mark: Mark, rest: seq<Mark>, low: int, later: int, high: int)
    requires low < mark.end <= later && mark.end <= high && Increasing(rest, later, high)
    ensures Increasing([mark] + rest, low, high)
  {
    IncreasingCons(mark, rest, low, high);
  }

  lemma {:induction false} ScanFromIncreases(find: nat -> Probe, base: nat, length: nat, i: nat)
    requires Advances(find, base, length)
    ensures Increasing(ScanFrom(find, base, length, i), base + i + 5, base + length)
    decreases length - i
  {
    if i + 2 < length {
      match find(i)
      case Nothing => ScanFromIncreases(find, base, length, i + 1);
      case CutShort =>
      case Whole(mark, next) =>
        ScanFromIncreases(find, base, length, next);
        IncreasingFrom(mark, ScanFrom(find, base, length, next), base + i + 5, base + next + 5, base + length);
    }
  }

  lemma ScanIncreases(bytes: Bytes, base: nat, look: Look)
    ensures Increasing(Scan(bytes, base, look), base + 5, base + |bytes|)
  {
    ScanFromIncreases(Finder(bytes, base, look), base, |bytes|, 0);
  }

  /** The marks that end within the first `written` bytes. */
  function WithinWritten(marks: seq<Mark>, written: nat): seq<Mark> {
    if marks == [] then []
    else if marks[0].end <= written then [marks[0]] + WithinWritten(marks[1..], written)
    else WithinWritten(marks[1..], written)
  }

  lemma {:induction false} WithinJoined(a: seq<Mark>, b: seq<Mark>, written: nat)
    ensures WithinWritten(a + b, written) == WithinWritten(a, written) + WithinWritten(b, written)
  {
    if a == [] {
      assert a + b == b;
    } else {
      assert (a + b)[1..] == a[1..] + b;
      WithinJoined(a[1..], b, written);
    }
  }

  lemma {:induction false} NoneWithin(marks: seq<Mark>, written: nat)
    requires forall k | 0 <= k < |marks| :: marks[k].end > written
    ensures WithinWritten(marks, written) == []
  {
    if marks != [] {
      NoneWithin(marks[1..], written);
    }
  }

  lemma {:induction false} AllWithin(marks: seq<Mark>, written: nat)
    requires forall k | 0 <= k < |marks| :: marks[k].end <= written
    ensures WithinWritten(marks, written) == marks
  {
    if marks != [] {
      AllWithin(marks[1..], written);
    }
  }

  /** With increasing ends, the wholly written marks are those before the first that is not. */
  lemma WithinIsFront(marks: seq<Mark>, i: nat, written: nat, low: int, high: int)
    requires Increasing(marks, low, high) && i <= |marks|
    requires forall k | 0 <= k < i :: marks[k].end <= written
    requires i < |marks| ==> marks[i].end > written
    ensures WithinWritten(marks, written) == marks[..i]
  {
    assert marks == marks[..i] + marks[i..];
    WithinJoined(marks[..i], marks[i..], written);
    AllWithin(marks[..i], written);
    NoneWithin(marks[i..], written);
    assert marks[..i] + [] == marks[..i];
  }

  /** `record_marks`, which stops at the first mark that was not wholly written: because ends
      increase, it records all of those that were. */
  method RecordMarks(marks: array<Mark>, count: nat, written: nat, ghost high: int) returns (recorded: seq<Mark>)
    requires count <= marks.Length
    requires Increasing(marks[..count], -1, high)
    ensures recorded == WithinWritten(marks[..count], written)
  {
    recorded := [];
    ghost var all := marks[..count];
    var i := 0;
    while i < count && marks[i].end <= written
      invariant 0 <= i <= count
      invariant recorded == all[..i]
      invariant forall k | 0 <= k < i :: all[k].end <= written
    {
      recorded := recorded + [marks[i]];
      i := i + 1;
    }
    WithinIsFront(all, i, written, -1, high);
  }

  // ---------------------------------------------------------------- scanning what was written

  lemma {:induction false} HeaderEndPrefix(bytes: Bytes, n: nat, from: nat)
    requires from <= n <= |bytes|
    ensures HeaderEnd(bytes[..n], from) == if HeaderEnd(bytes, from) < n then HeaderEnd(bytes, from) else n
    decreases n - from
  {
    if from < n {
      HeaderEndPrefix(bytes, n, from + 1);
    }
  }

  lemma {:induction false} TerminatorPrefix(bytes: Bytes, n: nat, from: nat)
    requires n <= |bytes|
    ensures Terminator(bytes[..n], from) ==
            if Terminator(bytes, from).Some? && Terminator(bytes, from).value + 2 <= n then Terminator(bytes, from)
            else None
    decreases |bytes| - from
  {
    if from + 1 < |bytes| {
      TerminatorPrefix(bytes, n, from + 1);
    }
  }

  /** Without an escape there is no upload. */
  lemma {:induction false} NoEscapeNoUpload(bytes: Bytes, base: nat, look: Look, i: nat)
    requires forall k | i <= k < |bytes| :: bytes[k] != ESC
    ensures ScanFrom(Finder(bytes, base, look), base, |bytes|, i) == []
    decreases |bytes| - i
  {
    if i + 2 < |bytes| {
      assert Finder(bytes, base, look)(i) == Nothing;
      NoEscapeNoUpload(bytes, base, look, i + 1);
    }
  }

  /** Whether an upload starts is the same in a prefix that holds its control data, and one whose
      control data is cut off does not start there. */
  lemma StartsInPrefix(bytes: Bytes, n: nat, i: nat)
    requires n <= |bytes| && i + 2 < n
    ensures StartsUpload(bytes[..n], i) <==> StartsUpload(bytes, i) && HeaderEnd(bytes, i + 3) < n
  {
    HeaderEndPrefix(bytes, n, i + 3);
    var semi := HeaderEnd(bytes, i + 3);
    if semi < n {
      assert bytes[..n][i + 3..semi] == bytes[i + 3..semi];
    }
  }

  lemma MarkInPrefix(bytes: Bytes, base: nat, look: Look, n: nat, i: nat, end: nat)
    requires n <= |bytes| && i + 3 <= n && HeaderEnd(bytes, i + 3) + 1 <= end <= n
    ensures HeaderEnd(bytes[..n], i + 3) == HeaderEnd(bytes, i + 3)
    ensures MarkAt(bytes[..n], base, look, i, end) == MarkAt(bytes, base, look, i, end)
  {
    HeaderEndPrefix(bytes, n, i + 3);
    var semi := HeaderEnd(bytes, i + 3);
    assert bytes[..n][semi + 1..end] == bytes[semi + 1..end];
  }

  /** An upload whole within the prefix has its header and terminator where the whole buffer does. */
  lemma WholeInPrefix(bytes: Bytes, n: nat, i: nat, end: nat)
    requires n <= |bytes| && i + 2 < n && StartsUpload(bytes, i)
    requires Terminator(bytes, HeaderEnd(bytes, i + 3) + 1) == Some(end) && end + 2 <= n
    ensures StartsUpload(bytes[..n], i)
    ensures HeaderEnd(bytes[..n], i + 3) == HeaderEnd(bytes, i + 3) < end
    ensures Terminator(bytes[..n], HeaderEnd(bytes, i + 3) + 1) == Some(end)
  {
    StartsInPrefix(bytes, n, i);
    HeaderEndPrefix(bytes, n, i + 3);
    TerminatorPrefix(bytes, n, HeaderEnd(bytes, i + 3) + 1);
  }

  /** An upload whose control data the prefix cuts off is followed by no escape there. */
  lemma HeaderCut(bytes: Bytes, base: nat, look: Look, n: nat, i: nat)
    requires n <= |bytes| && i + 2 < n && StartsGraphics(bytes, i) && HeaderEnd(bytes, i + 3) >= n
    ensures ScanFrom(Finder(bytes[..n], base, look), base, n, i) == []
  {
    forall k | i + 1 <= k < n
      ensures bytes[k] != ESC
    {
    }
    StartsInPrefix(bytes, n, i);
    assert Finder(bytes[..n], base, look)(i) == Nothing;
    NoEscapeNoUpload(bytes[..n], base, look, i + 1);
  }

  /** An upload that is cut off by the end of a prefix hides the rest of the prefix. */
  lemma CutInPrefix(bytes: Bytes, base: nat, look: Look, n: nat, i: nat)
    requires n <= |bytes| && i + 2 < n && StartsUpload(bytes, i)
    requires var end := Terminator(bytes, HeaderEnd(bytes, i + 3) + 1);
             end.None? || end.value + 2 > n
    ensures ScanFrom(Finder(bytes[..n], base, look), base, n, i) == []
  {
    if HeaderEnd(bytes, i + 3) < n {
      StartsInPrefix(bytes, n, i);
      HeaderEndPrefix(bytes, n, i + 3);
      TerminatorPrefix(bytes, n, HeaderEnd(bytes, i + 3) + 1);
      assert Finder(bytes[..n], base, look)(i) == CutShort;
    } else {
      HeaderCut(bytes, base, look, n, i);
    }
  }

  /** How what is found in a prefix relates to what is found in the whole: nothing stays nothing, an
      upload that is whole in the prefix is the same one, and any other leaves nothing to find. */
  ghost predicate Cuts(find: nat -> Probe, part: nat -> Probe, base: nat, n: nat, i: nat)
    requires Advances(part, base, n)
  {
    match find(i)
    case Nothing => part(i) == Nothing
    case CutShort => ScanFrom(part, base, n, i) == []
    case Whole(_, next) => if next <= n then part(i) == find(i) else ScanFrom(part, base, n, i) == []
  }

  lemma PrefixCuts(bytes: Bytes, base: nat, look: Look, n: nat, i: nat)
    requires n <= |bytes| && i + 2 < n
    ensures Cuts(Finder(bytes, base, look), Finder(bytes[..n], base, look), base, n, i)
  {
    if !StartsUpload(bytes, i) {
      StartsInPrefix(bytes, n, i);
    } else {
      var end := Terminator(bytes, HeaderEnd(bytes, i + 3) + 1);
      if end.Some? && end.value + 2 <= n {
        WholeInPrefix(bytes, n, i, end.value);
        MarkInPrefix(bytes, base, look, n, i, end.value);
      } else {
        CutInPrefix(bytes, base, look, n, i);
      }
    }
  }

  lemma NoneAfter(marks: seq<Mark>, written: nat, low: int, high: int)
    requires Increasing(marks, low, high) && written <= low
    ensures WithinWritten(marks, written) == []
  {
    NoneWithin(marks, written);
  }

  lemma {:induction false} ScanFromPrefix(find: nat -> Probe, part: nat -> Probe, base: nat,
                                          length: nat, n: nat, i: nat)
    requires Advances(find, base, length) && Advances(part, base, n) && n <= length
    requires forall j: nat | j + 2 < n :: Cuts(find, part, base, n, j)
    ensures ScanFrom(part, base, n, i) == WithinWritten(ScanFrom(find, base, length, i), base + n)
    decreases length - i
  {
    var marks := ScanFrom(find, base, length, i);
    if i + 2 >= n {
      ScanFromIncreases(find, base, length, i);
      NoneAfter(marks, base + n, base + i + 5, base + length);
    } else {
      assert Cuts(find, part, base, n, i);
      match find(i)
      case Nothing => ScanFromPrefix(find, part, base, length, n, i + 1);
      case CutShort =>
      case Whole(mark, next) =>
        var later := ScanFrom(find, base, length, next);
        if next <= n {
          ScanFromPrefix(find, part, base, length, n, next);
        } else {
          ScanFromIncreases(find, base, length, next);
          NoneAfter(later, base + n, base + next + 5, base + length);
        }
        WithinJoined([mark], later, base + n);
    }
  }

  /** Scanning a prefix finds exactly the uploads that are whole within it: an upload cut off by the
      end is not found, and neither is anything it would have hidden. */
  lemma ScanPrefix(bytes: Bytes, base: nat, look: Look, n: nat)
    requires n <= |bytes|
    ensures Scan(bytes[..n], base, look) == WithinWritten(Scan(bytes, base, look), base + n)
  {
    var find, part := Finder(bytes, base, look), Finder(bytes[..n], base, look);
    forall j: nat | j + 2 < n
      ensures Cuts(find, part, base, n, j)
    {
      PrefixCuts(bytes, base, look, n, j);
    }
    ScanFromPrefix(find, part, base, |bytes|, n, 0);
  }

  // ---------------------------------------------------------------- scattered writes

  /** The uploads of a list of segments, each scanned by itself at its place in the write. */
  ghost function ScanSegments(segments: seq<Bytes>, offset: nat, look: Look): seq<Mark> {
    if segments == [] then []
    else Scan(segments[0], offset, look) + ScanSegments(segments[1..], offset + |segments[0]|, look)
  }

  function Flat(segments: seq<Bytes>): Bytes {
    if segments == [] then [] else segments[0] + Flat(segments[1..])
  }

  /** The segments of a partial write: whole ones, then the one it stopped in. */
  function Written(segments: seq<Bytes>, n: nat): seq<Bytes> {
    if segments == [] || n == 0 then []
    else if n <= |segments[0]| then [segments[0][..n]]
    else [segments[0]] + Written(segments[1..], n - |segments[0]|)
  }

  lemma {:induction false} SegmentsIncrease(segments: seq<Bytes>, offset: nat, look: Look)
    ensures Increasing(ScanSegments(segments, offset, look), offset, offset + |Flat(segments)|)
  {
    if segments != [] {
      ScanIncreases(segments[0], offset, look);
      SegmentsIncrease(segments[1..], offset + |segments[0]|, look);
    }
  }

  lemma {:induction false} WrittenIsPrefix(segments: seq<Bytes>, n: nat)
    requires n <= |Flat(segments)|
    ensures Flat(Written(segments, n)) == Flat(segments)[..n]
  {
    if segments != [] && n > 0 {
      if n <= |segments[0]| {
        assert Flat([segments[0][..n]]) == segments[0][..n] + Flat([segments[0][..n]][1..]);
      } else {
        var rest := Written(segments[1..], n - |segments[0]|);
        WrittenIsPrefix(segments[1..], n - |segments[0]|);
        assert ([segments[0]] + rest)[1..] == rest;
      }
    }
  }

  lemma ScanSegmentsCons(first: Bytes, rest: seq<Bytes>, offset: nat, look: Look)
    ensures ScanSegments([first] + rest, offset, look) ==
            Scan(first, offset, look) + ScanSegments(rest, offset + |first|, look)
  {
    assert ([first] + rest)[1..] == rest;
  }

  lemma ScanOne(only: Bytes, offset: nat, look: Look)
    ensures ScanSegments([only], offset, look) == Scan(only, offset, look)
  {
    assert [only] == [only] + [];
    ScanSegmentsCons(only, [], offset, look);
  }

  /** The wholly written uploads of a list of segments, from those of its first and of the others. */
  lemma WithinSegments(segments: seq<Bytes>, offset: nat, look: Look, written: nat)
    requires segments != []
    ensures WithinWritten(ScanSegments(segments, offset, look), written) ==
            WithinWritten(Scan(segments[0], offset, look), written) +
            WithinWritten(ScanSegments(segments[1..], offset + |segments[0]|, look), written)
  {
    WithinJoined(Scan(segments[0], offset, look), ScanSegments(segments[1..], offset + |segments[0]|, look), written);
  }

  lemma NoneBeyond(segments: seq<Bytes>, offset: nat, look: Look, written: nat)
    requires written <= offset
    ensures WithinWritten(ScanSegments(segments, offset, look), written) == []
  {
    SegmentsIncrease(segments, offset, look);
    NoneWithin(ScanSegments(segments, offset, look), written);
  }

  lemma WithinFirst(here: seq<Mark>, there: seq<Mark>, written: nat)
    requires WithinWritten(there, written) == []
    ensures WithinWritten(here + there, written) == WithinWritten(here, written)
  {
    WithinJoined(here, there, written);
    assert WithinWritten(here, written) + [] == WithinWritten(here, written);
  }

  lemma OnlyFirstWithin(segments: seq<Bytes>, offset: nat, look: Look, n: nat)
    requires segments != [] && n <= |segments[0]|
    ensures WithinWritten(ScanSegments(segments, offset, look), offset + n) ==
            WithinWritten(Scan(segments[0], offset, look), offset + n)
  {
    var here, there := Scan(segments[0], offset, look), ScanSegments(segments[1..], offset + |segments[0]|, look);
    NoneBeyond(segments[1..], offset + |segments[0]|, look, offset + n);
    WithinFirst(here, there, offset + n);
  }

  /** A write that stops within its first segment. */
  lemma WrittenInFirst(segments: seq<Bytes>, offset: nat, look: Look, n: nat)
    requires segments != [] && 0 < n <= |segments[0]|
    ensures ScanSegments(Written(segments, n), offset, look) ==
            WithinWritten(ScanSegments(segments, offset, look), offset + n)
  {
    OnlyFirstWithin(segments, offset, look, n);
    ScanPrefix(segments[0], offset, look, n);
    ScanOne(segments[0][..n], offset, look);
  }

  /** A write that goes beyond its first segment. */
  lemma WrittenBeyondFirst(segments: seq<Bytes>, offset: nat, look: Look, n: nat)
    requires segments != [] && n > |segments[0]|
    ensures ScanSegments(Written(segments, n), offset, look) ==
            WithinWritten(Scan(segments[0], offset, look), offset + n) +
            ScanSegments(Written(segments[1..], n - |segments[0]|), offset + |segments[0]|, look)
  {
    ScanIncreases(segments[0], offset, look);
    AllWithin(Scan(segments[0], offset, look), offset + n);
    ScanSegmentsCons(segments[0], Written(segments[1..], n - |segments[0]|), offset, look);
  }

  /** The uploads wholly inside the bytes written are exactly the uploads of the segments written. */
  lemma {:induction false} ScanWritten(segments: seq<Bytes>, offset: nat, look: Look, n: nat)
    ensures ScanSegments(Written(segments, n), offset, look) ==
            WithinWritten(ScanSegments(segments, offset, look), offset + n)
  {
    if segments == [] || n == 0 {
      NoneBeyond(segments, offset, look, offset);
    } else if n <= |segments[0]| {
      WrittenInFirst(segments, offset, look, n);
    } else {
      WrittenBeyondFirst(segments, offset, look, n);
      ScanWritten(segments[1..], offset + |segments[0]|, look, n - |segments[0]|);
      WithinSegments(segments, offset, look, offset + n);
    }
  }

  lemma TakeCons<T>(x: T, s: seq<T>, n: nat)
    requires n > 0
    ensures Take([x] + s, n) == [x] + Take(s, n - 1)
  {
  }

  /** With increasing ends, taking the first marks and dropping the unwritten ones commute. */
  lemma {:induction false} TakeWithin(marks: seq<Mark>, n: nat, written: nat, low: int, high: int)
    requires Increasing(marks, low, high)
    ensures WithinWritten(Take(marks, n), written) == Take(WithinWritten(marks, written), n)
  {
    if marks != [] {
      if marks[0].end > written {
        NoneWithin(marks, written);
        NoneWithin(Take(marks, n), written);
      } else if n > 0 {
        TakeWithin(marks[1..], n - 1, written, low, high);
        assert Take(marks, n) == [marks[0]] + Take(marks[1..], n - 1);
        TakeCons(marks[0], WithinWritten(marks[1..], written), n);
      }
    }
  }

  lemma TakeIncreases(marks: seq<Mark>, n: nat, low: int, high: int)
    requires Increasing(marks, low, high)
    ensures Increasing(Take(marks, n), low, high)
  {
  }

  /** The uploads of the segments from the `i`th on. */
  ghost function ScanTail(segments: seq<Bytes>, i: nat, offset: nat, look: Look): seq<Mark>
    decreases |segments| - i
  {
    if i >= |segments| then []
    else Scan(segments[i], offset, look) + ScanTail(segments, i + 1, offset + |segments[i]|, look)
  }

  lemma {:induction false} TailIsScan(segments: seq<Bytes>, i: nat, offset: nat, look: Look)
    requires i <= |segments|
    ensures ScanTail(segments, i, offset, look) == ScanSegments(segments[i..], offset, look)
    decreases |segments| - i
  {
    if i < |segments| {
      TailIsScan(segments, i + 1, offset + |segments[i]|, look);
      assert segments[i..] == [segments[i]] + segments[i + 1..];
      ScanSegmentsCons(segments[i], segments[i + 1..], offset, look);
    }
  }

  /** One segment scanned into the array, which holds as many of the marks `before` as fit. */
  method ScanSegment(bytes: Bytes, base: nat, look: Look, marks: array<Mark>, count: nat, ghost before: seq<Mark>)
    returns (found: nat)
    requires marks.Length == MAX_MARKS && count <= MAX_MARKS && marks[..count] == Take(before, MAX_MARKS)
    modifies marks
    ensures found <= MAX_MARKS && marks[..found] == Take(before + Scan(bytes, base, look), MAX_MARKS)
  {
    TakeJoined(before, Scan(bytes, base, look), MAX_MARKS);
    assert |marks[..count]| == count;
    found := ScanMarks(bytes, base, look, marks, count);
  }

  lemma MarksInOrder(a: seq<Mark>, b: seq<Mark>, c: seq<Mark>)
    ensures a + (b + c) == a + b + c
  {
  }

  /** The scan of `writev`: every segment at its offset, into one array. */
  method ScanAll(segments: seq<Bytes>, look: Look, marks: array<Mark>) returns (found: nat)
    requires marks.Length == MAX_MARKS
    modifies marks
    ensures found <= MAX_MARKS
    ensures marks[..found] == Take(ScanSegments(segments, 0, look), MAX_MARKS)
  {
    found := 0;
    var offset: nat := 0;
    ghost var total := ScanTail(segments, 0, 0, look);
    ghost var before: seq<Mark>, rest := [], total;
    assert before + rest == total;
    for i := 0 to |segments|
      invariant found <= MAX_MARKS && marks[..found] == Take(before, MAX_MARKS)
      invariant rest == ScanTail(segments, i, offset, look)
      invariant before + rest == total
    {
      ghost var here := Scan(segments[i], offset, look);
      rest := ScanTail(segments, i + 1, offset + |segments[i]|, look);
      MarksInOrder(before, here, rest);
      found := ScanSegment(segments[i], offset, look, marks, found, before);
      before := before + here;
      offset := offset + |segments[i]|;
    }
    assert before + [] == before;
    assert segments[0..] == segments;
    TailIsScan(segments, 0, 0, look);
  }

  lemma WrittenStep(segments: seq<Bytes>, left: nat)
    requires segments != [] && left > 0
    ensures var length := if |segments[0]| < left then |segments[0]| else left;
            Written(segments, left) == [segments[0][..length]] + Written(segments[1..], left - length)
  {
    assert segments[0][..|segments[0]|] == segments[0];
  }

  lemma SharesInOrder(wire: seq<Bytes>, share: Bytes, rest: seq<Bytes>)
    ensures wire + ([share] + rest) == wire + [share] + rest
  {
  }

  /** The wire record of `writev`: each segment's share of the bytes left. */
  method RecordWire(segments: seq<Bytes>, n: nat) returns (wire: seq<Bytes>)
    ensures wire == Written(segments, n)
  {
    wire := [];
    var left: nat := n;
    var i := 0;
    ghost var rest := Written(segments, n);
    assert segments[0..] == segments;
    while i < |segments| && left > 0
      invariant 0 <= i <= |segments|
      invariant rest == Written(segments[i..], left)
      invariant Written(segments, n) == wire + rest
    {
      var length := if |segments[i]| < left then |segments[i]| else left;
      WrittenStep(segments[i..], left);
      assert segments[i..][1..] == segments[i + 1..];
      rest := Written(segments[i + 1..], left - length);
      SharesInOrder(wire, segments[i][..length], rest);
      wire := wire + [segments[i][..length]];
      left := left - length;
      i := i + 1;
    }
  }

  /** `writev`: what its wire record and its media record receive, for a write of `n` bytes. The
      media record is the uploads found by scanning just the bytes written - as many as fit the
      array - and the wire record is those bytes. */
  method WriteV(segments: seq<Bytes>, disk: Disk, n: nat) returns (wire: seq<Bytes>, media: seq<Mark>)
    requires 0 < n <= |Flat(segments)|
    ensures media == Take(ScanSegments(Written(segments, n), 0, LookOn(disk)), MAX_MARKS)
    ensures wire == Written(segments, n) && Flat(wire) == Flat(segments)[..n]
  {
    var look := LookOn(disk);
    var marks := new Mark[MAX_MARKS](_ => Mark(0, [], false));
    var found := ScanAll(segments, look, marks);
    wire := RecordWire(segments, n);
    WrittenIsPrefix(segments, n);
    SegmentsIncrease(segments, 0, look);
    ghost var all := ScanSegments(segments, 0, look);
    TakeIncreases(all, MAX_MARKS, 0, |Flat(segments)|);
    media := RecordMarks(marks, found, n, |Flat(segments)|);
    TakeWithin(all, MAX_MARKS, n, 0, |Flat(segments)|);
    ScanWritten(segments, 0, look, n);
  }

  /** For every way a write is scattered and cut short, mark ends strictly increase, and the marks
      recorded are those wholly inside the bytes written. */
  lemma RecordsExactlyTheWholeUploads(segments: seq<Bytes>, look: Look, n: nat)
    requires n <= |Flat(segments)|
    ensures var found := Take(ScanSegments(segments, 0, look), MAX_MARKS);
            && (forall j, k | 0 <= j < k < |found| :: found[j].end < found[k].end)
            && Take(ScanSegments(Written(segments, n), 0, look), MAX_MARKS) == WithinWritten(found, n)
            && WithinWritten(found, |Flat(segments)|) == found
  {
    var all := ScanSegments(segments, 0, look);
    SegmentsIncrease(segments, 0, look);
    TakeIncreases(all, MAX_MARKS, 0, |Flat(segments)|);
    TakeWithin(all, MAX_MARKS, n, 0, |Flat(segments)|);
    ScanWritten(segments, 0, look, n);
    AllWithin(Take(all, MAX_MARKS), |Flat(segments)|);
  }

  // ---------------------------------------------------------------- what a mark says of a file

  lemma {:induction false} CStringIs(name: Bytes, more: Bytes)
    requires 0 !in name && (more == [] || more[0] == 0)
    ensures CString(name + more) == name
  {
    if name == [] {
      assert name + more == more;
    } else {
      assert (name + more)[1..] == name[1..] + more;
      CStringIs(name[1..], more);
    }
  }

  /** The payload names the file by its path up to the first zero byte. What is learned are that
      file's first four bytes, with zeros for those it does not have, and they count as read exactly
      when it has four. */
  lemma SampleReads(disk: Disk, name: Bytes, more: Bytes)
    requires 0 < |name + more| < PATH_MAX && 0 !in name && (more == [] || more[0] == 0)
    ensures var (pixel, read) := Sample(disk, Encode(name + more));
            && |pixel| == 4
            && (read <==> name in disk && |disk[name]| >= 4)
            && forall k | 0 <= k < 4 :: pixel[k] == if name in disk && k < |disk[name]| then disk[name][k] else 0
  {
    DecodesExactlyTheFittingPaths(name + more);
    CStringIs(name, more);
  }

  /** The bytes of an upload. */
  function Upload(control: Bytes, payload: Bytes): Bytes {
    [ESC, UNDERSCORE, LETTER_G] + control + [SEMICOLON] + payload + [ESC, BACKSLASH]
  }

  /** An upload read off its places in a buffer: its header ends at `semi`, its payload at `end`. */
  lemma ProbePlaces(bytes: Bytes, i: nat, semi: nat, end: nat, base: nat, look: Look)
    requires i + 3 <= semi < end < |bytes| - 1 && StartsGraphics(bytes, i)
    requires bytes[semi] == SEMICOLON && HasFileKey(bytes[i + 3..semi]) && TerminatorAt(bytes, end)
    requires ESC !in bytes[i + 3..semi] && SEMICOLON !in bytes[i + 3..semi] && ESC !in bytes[semi + 1..end]
    ensures var (pixel, read) := look(bytes[semi + 1..end]);
            ProbeOf(bytes, base, look, i) == Whole(Mark(base + end + 2, pixel, read), end + 2)
  {
    forall k | i + 3 <= k < semi
      ensures bytes[k] != SEMICOLON && bytes[k] != ESC
    {
      assert bytes[k] in bytes[i + 3..semi];
    }
    forall k | semi + 1 <= k < end
      ensures bytes[k] != ESC
    {
      assert bytes[k] in bytes[semi + 1..end];
    }
    assert HeaderEnd(bytes, i + 3) == semi;
    assert Terminator(bytes, semi + 1) == Some(end);
  }

  lemma ProbeUpload(before: Bytes, control: Bytes, payload: Bytes, rest: Bytes, base: nat, look: Look)
    requires HasFileKey(control) && ESC !in control && SEMICOLON !in control && ESC !in payload
    ensures var next := |before| + |Upload(control, payload)|;
            ProbeOf(before + Upload(control, payload) + rest, base, look, |before|) ==
            Whole(Mark(base + next, look(payload).0, look(payload).1), next)
  {
    var bytes := before + Upload(control, payload) + rest;
    var semi := |before| + 3 + |control|;
    var end := semi + 1 + |payload|;
    assert bytes[|before| + 3..semi] == control && bytes[semi + 1..end] == payload;
    ProbePlaces(bytes, |before|, semi, end, base, look);
  }

  lemma {:induction false} ScanSkips(find: nat -> Probe, base: nat, length: nat, i: nat, j: nat)
    requires Advances(find, base, length) && i <= j && j + 2 < length
    requires forall k: nat | i <= k < j :: find(k).Nothing?
    ensures ScanFrom(find, base, length, i) == ScanFrom(find, base, length, j)
    decreases j - i
  {
    if i < j {
      ScanSkips(find, base, length, i + 1, j);
    }
  }

  /** A probe, seen from a buffer that has `skip` more bytes in front. */
  function Later(probe: Probe, skip: nat): Probe {
    if probe.Whole? then Whole(probe.mark, probe.next + skip) else probe
  }

  lemma HeaderEndLater(bytes: Bytes, skip: nat, from: nat)
    requires skip + from <= |bytes|
    ensures HeaderEnd(bytes, skip + from) == skip + HeaderEnd(bytes[skip..], from)
  {
    var tail := bytes[skip..];
    assert forall k | skip <= k < |bytes| :: bytes[k] == tail[k - skip];
    assert forall k | 0 <= k < |tail| :: tail[k] == bytes[skip + k];
  }

  lemma TerminatorLater(bytes: Bytes, skip: nat, from: nat)
    requires skip <= |bytes|
    ensures Terminator(bytes, skip + from) ==
            match Terminator(bytes[skip..], from)
            case None => None
            case Some(end) => Some(skip + end)
  {
    var tail := bytes[skip..];
    assert forall k | skip <= k :: TerminatorAt(bytes, k) <==> TerminatorAt(tail, k - skip);
    if Terminator(tail, from).Some? {
      assert TerminatorAt(bytes, skip + Terminator(tail, from).value);
    }
    if Terminator(bytes, skip + from).Some? {
      assert TerminatorAt(tail, Terminator(bytes, skip + from).value - skip);
    }
  }

  lemma StartsLater(bytes: Bytes, skip: nat, i: nat)
    requires skip + i + 2 < |bytes|
    ensures StartsUpload(bytes, skip + i) <==> StartsUpload(bytes[skip..], i)
  {
    var tail := bytes[skip..];
    HeaderEndLater(bytes, skip, i + 3);
    var semi := HeaderEnd(tail, i + 3);
    assert tail[i + 3..semi] == bytes[skip + i + 3..skip + semi];
    assert forall k | 0 <= k < |tail| :: tail[k] == bytes[skip + k];
  }

  lemma MarkLater(bytes: Bytes, base: nat, look: Look, skip: nat, i: nat, end: nat)
    requires skip <= |bytes| && i + 3 <= |bytes[skip..]|
    requires HeaderEnd(bytes[skip..], i + 3) + 1 <= end <= |bytes[skip..]|
    ensures HeaderEnd(bytes, skip + i + 3) == skip + HeaderEnd(bytes[skip..], i + 3)
    ensures MarkAt(bytes, base, look, skip + i, skip + end) == MarkAt(bytes[skip..], base + skip, look, i, end)
  {
    HeaderEndLater(bytes, skip, i + 3);
    var semi := HeaderEnd(bytes[skip..], i + 3);
    assert bytes[skip..][semi + 1..end] == bytes[skip + semi + 1..skip + end];
  }

  lemma ProbeLater(bytes: Bytes, base: nat, look: Look, skip: nat, i: nat)
    requires skip + i + 2 < |bytes|
    ensures ProbeOf(bytes, base, look, skip + i) == Later(ProbeOf(bytes[skip..], base + skip, look, i), skip)
  {
    var tail := bytes[skip..];
    StartsLater(bytes, skip, i);
    if StartsUpload(tail, i) {
      var from := HeaderEnd(tail, i + 3) + 1;
      HeaderEndLater(bytes, skip, i + 3);
      TerminatorLater(bytes, skip, from);
      match Terminator(tail, from)
      case None =>
      case Some(end) => MarkLater(bytes, base, look, skip, i, end);
    }
  }

  lemma {:induction false} ScanFromLater(find: nat -> Probe, part: nat -> Probe,
                                         base: nat, length: nat, skip: nat, i: nat)
    requires skip <= length && Advances(find, base, length) && Advances(part, base + skip, length - skip)
    requires forall j: nat | skip + j + 2 < length :: find(skip + j) == Later(part(j), skip)
    ensures ScanFrom(find, base, length, skip + i) == ScanFrom(part, base + skip, length - skip, i)
    decreases length - i
  {
    if skip + i + 2 < length {
      match part(i)
      case Nothing => ScanFromLater(find, part, base, length, skip, i + 1);
      case CutShort =>
      case Whole(_, next) => ScanFromLater(find, part, base, length, skip, next);
    }
  }

  lemma FindersAgree(bytes: Bytes, base: nat, look: Look, skip: nat)
    requires skip <= |bytes|
    ensures var find, part := Finder(bytes, base, look), Finder(bytes[skip..], base + skip, look);
            forall j: nat | skip + j + 2 < |bytes| :: find(skip + j) == Later(part(j), skip)
  {
    var find, part := Finder(bytes, base, look), Finder(bytes[skip..], base + skip, look);
    forall j: nat | skip + j + 2 < |bytes|
      ensures find(skip + j) == Later(part(j), skip)
    {
      ProbeLater(bytes, base, look, skip, j);
    }
  }

  /** Scanning from some place on is scanning what is there. */
  lemma ScanFromIsScan(bytes: Bytes, base: nat, look: Look, skip: nat)
    requires skip <= |bytes|
    ensures ScanFrom(Finder(bytes, base, look), base, |bytes|, skip) == Scan(bytes[skip..], base + skip, look)
  {
    var find, part := Finder(bytes, base, look), Finder(bytes[skip..], base + skip, look);
    FindersAgree(bytes, base, look, skip);
    ScanFromLater(find, part, base, |bytes|, skip, 0);
  }

  lemma NothingBefore(before: Bytes, rest: Bytes, base: nat, look: Look)
    requires ESC !in before
    ensures forall k: nat | k < |before| :: Finder(before + rest, base, look)(k).Nothing?
  {
    forall k: nat | k < |before|
      ensures ProbeOf(before + rest, base, look, k).Nothing?
    {
      assert (before + rest)[k] == before[k];
    }
  }

  /** A whole upload with nothing before it, and then what is found behind it. */
  lemma ScanWhole(bytes: Bytes, base: nat, look: Look, i: nat, mark: Mark, next: nat)
    requires i + 2 < |bytes| && next <= |bytes|
    requires forall k: nat | k < i :: Finder(bytes, base, look)(k).Nothing?
    requires ProbeOf(bytes, base, look, i) == Whole(mark, next)
    ensures Scan(bytes, base, look) == [mark] + Scan(bytes[next..], base + next, look)
  {
    ScanSkips(Finder(bytes, base, look), base, |bytes|, 0, i);
    ScanFromIsScan(bytes, base, look, next);
  }

  lemma ScanUpload(before: Bytes, control: Bytes, payload: Bytes, rest: Bytes, base: nat, look: Look)
    requires ESC !in before && HasFileKey(control) && ESC !in control && SEMICOLON !in control && ESC !in payload
    ensures var next := |before| + |Upload(control, payload)|;
            Scan(before + Upload(control, payload) + rest, base, look) ==
            [Mark(base + next, look(payload).0, look(payload).1)] + Scan(rest, base + next, look)
  {
    var bytes := before + Upload(control, payload) + rest;
    var next := |before| + |Upload(control, payload)|;
    NothingBefore(before, Upload(control, payload) + rest, base, look);
    assert before + (Upload(control, payload) + rest) == bytes;
    ProbeUpload(before, control, payload, rest, base, look);
    ScanWhole(bytes, base, look, |before|, Mark(base + next, look(payload).0, look(payload).1), next);
    assert bytes[next..] == rest;
  }

  /** From a path on disk to its mark: an upload of the file `name`, after bytes without an escape,
      gives a mark that ends where the upload does and holds the file's first four bytes; then comes
      what scanning the rest finds. */
  lemma UploadIsMarked(before: Bytes, control: Bytes, name: Bytes, rest: Bytes, base: nat, disk: Disk)
    requires ESC !in before && HasFileKey(control) && ESC !in control && SEMICOLON !in control
    requires 0 < |name| < PATH_MAX && 0 !in name && name in disk && |disk[name]| >= 4
    ensures var next := |before| + |Upload(control, Encode(name))|;
            Scan(before + Upload(control, Encode(name)) + rest, base, LookOn(disk)) ==
            [Mark(base + next, disk[name][..4], true)] + Scan(rest, base + next, LookOn(disk))
  {
    EncodedInSymbols(name);
    ScanUpload(before, control, Encode(name), rest, base, LookOn(disk));
    assert name + [] == name;
    SampleReads(disk, name, []);
    assert Sample(disk, Encode(name)).0 == disk[name][..4];
  }
}
