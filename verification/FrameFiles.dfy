/** The byte-budgeted retention of frame files (`FrameFiles` in tools/graphics-patches.py): every
    transfer's file stays readable for a grace period, and all of them fit a fixed budget. */
module FrameRetention {
  /** One retained file: its number, when it was sent, and its length. */
  datatype Entry = Entry(sequence: nat, sent: real, length: nat)

  /** A file that was unlinked, and when. */
  datatype Unlinked = Unlinked(entry: Entry, at: real)

  function Sum(entries: seq<Entry>): nat {
    if entries == [] then 0 else entries[0].length + Sum(entries[1..])
  }

  lemma {:induction false} SumJoined(a: seq<Entry>, b: seq<Entry>)
    ensures Sum(a + b) == Sum(a) + Sum(b)
  {
    if a == [] {
      assert a + b == b;
    } else {
      assert (a + b)[1..] == a[1..] + b;
      SumJoined(a[1..], b);
    }
  }

  function Entries(unlinked: seq<Unlinked>): seq<Entry> {
    seq(|unlinked|, k requires 0 <= k < |unlinked| => unlinked[k].entry)
  }

  /** Sent times never decrease. */
  predicate InOrder(entries: seq<Entry>) {
    forall j, k | 0 <= j < k < |entries| :: entries[j].sent <= entries[k].sent
  }

  lemma LaterInOrder(earlier: seq<Entry>, later: seq<Entry>)
    requires InOrder(earlier + later)
    ensures InOrder(later)
  {
    assert forall k | 0 <= k < |later| :: later[k] == (earlier + later)[|earlier| + k];
  }

  class FrameFiles {
    const retainSeconds: real
    const maxBytes: nat
    var pending: seq<Entry>
    var bytes: nat
    var sequence: nat

    /** The monotone clock, which moves on between readings as `drift` says. */
    const drift: nat -> real
    var now: real
    var readings: nat

    /** The files on disk, and the history of what was sent and what was unlinked when. */
    var onDisk: set<nat>
    ghost var sent: seq<Entry>
    ghost var gone: seq<Unlinked>

    /** How often the sender has waited. */
    ghost var waits: nat

    ghost predicate Valid()
      reads this
    {
      && (forall k :: drift(k) >= 0.0)
      && bytes == Sum(pending) <= maxBytes
      && onDisk == (set e | e in pending :: e.sequence)
      && |sent| == sequence
      && sent == Entries(gone) + pending
      && (forall k | 0 <= k < |sent| :: sent[k].sequence == k && sent[k].sent <= now)
      && InOrder(sent)
      && (forall u | u in gone :: u.entry.sent + retainSeconds <= u.at <= now)
    }

    constructor (retainSeconds: real, maxBytes: nat, drift: nat -> real)
      requires forall k :: drift(k) >= 0.0
      ensures Valid() && pending == [] && sent == [] && gone == []
      ensures this.retainSeconds == retainSeconds && this.maxBytes == maxBytes
    {
      this.retainSeconds, this.maxBytes, this.drift := retainSeconds, maxBytes, drift;
      pending, bytes, sequence, now, readings, onDisk := [], 0, 0, 0.0, 0, {};
      sent, gone, waits := [], [], 0;
    }

    /** `time.monotonic()`. */
    method Monotonic() returns (t: real)
      requires forall k :: drift(k) >= 0.0
      modifies this`now, this`readings
      ensures t == now >= old(now)
    {
      now := now + drift(readings);
      readings := readings + 1;
      t := now;
    }

    /** `time.sleep`, which never returns early. */
    method Sleep(seconds: real)
      requires seconds >= 0.0 && forall k :: drift(k) >= 0.0
      modifies this`now, this`readings, this`waits
      ensures now >= old(now) + seconds && waits == old(waits) + 1
    {
      waits := waits + 1;
      now := now + seconds + drift(readings);
      readings := readings + 1;
    }

    /** Unlinking the oldest file, once its grace period is over. */
    method UnlinkOldest()
      requires Valid() && pending != [] && pending[0].sent + retainSeconds <= now
      modifies this`pending, this`bytes, this`onDisk, this`gone
      ensures Valid() && pending == old(pending)[1..] && bytes <= old(bytes)
      ensures gone == old(gone) + [Unlinked(old(pending)[0], now)]
    {
      var oldest := pending[0];
      ghost var rest := pending[1..];
      assert pending == [oldest] + rest;
      assert Entries(gone) + pending == Entries(gone) + [oldest] + rest;
      gone := gone + [Unlinked(oldest, now)];
      assert Entries(gone) == Entries(old(gone)) + [oldest];
      assert forall k | 0 <= k < |pending| :: pending[k] == sent[|old(gone)| + k];
      onDisk := onDisk - {oldest.sequence};
      pending := pending[1..];
      bytes := bytes - oldest.length;
    }

    /** Writing the new file, transmitting it and retaining it. */
    method Append(length: nat)
      requires Valid() && bytes + length <= maxBytes
      modifies this
      ensures Valid() && gone == old(gone) && now >= old(now) && waits == old(waits)
      ensures sent == old(sent) + [Entry(old(sequence), now, length)]
      ensures pending == old(pending) + [Entry(old(sequence), now, length)]
      ensures old(sequence) !in old(onDisk)
    {
      var number := sequence;
      assert number !in onDisk by {
        assert forall k | 0 <= k < |pending| :: pending[k] == sent[|gone| + k];
      }
      sequence := sequence + 1;
      var time := Monotonic();
      var entry := Entry(number, time, length);
      SumJoined(pending, [entry]);
      sent := sent + [entry];
      assert Entries(gone) + pending + [entry] == Entries(gone) + (pending + [entry]);
      pending := pending + [entry];
      onDisk := onDisk + {number};
      bytes := bytes + length;
    }

    /** `send`: the budget and the grace period hold at every step, so a full budget slows the
        producer down instead of deleting a file early. A transfer that fits does not wait, and no
        file stays whose grace period was over before. */
    method Send(length: nat) returns (accepted: bool)
      requires Valid()
      modifies this
      ensures Valid()
      ensures accepted <==> length <= maxBytes
      ensures !accepted ==> sent == old(sent) && gone == old(gone) && pending == old(pending)
      ensures accepted ==> |sent| == |old(sent)| + 1 && old(sent) <= sent && sent[|sent| - 1].length == length
      ensures accepted ==> pending != [] && pending[|pending| - 1] == sent[|sent| - 1]
      ensures old(gone) <= gone && old(now) <= now
      ensures old(bytes) + length <= maxBytes ==> waits == old(waits)
      ensures length > maxBytes ==> waits == old(waits)
      ensures accepted ==>
                forall k | 0 <= k < |pending| - 1 :: pending[k].sent + retainSeconds > old(now)
    {
      if length > maxBytes {
        return false;
      }
      ghost var rested := false;
      while pending != []
        invariant Valid() && sent == old(sent) && sequence == old(sequence) && old(gone) <= gone && old(now) <= now
        invariant bytes <= old(bytes) && (old(bytes) + length <= maxBytes ==> waits == old(waits))
        invariant waits >= old(waits)
        invariant rested ==> pending != [] ==> pending[0].sent + retainSeconds <= now
        decreases |pending|, if rested then 0 else 1
      {
        var oldest := pending[0];
        var time := Monotonic();
        var remaining := oldest.sent + retainSeconds - time;
        if remaining > 0.0 {
          if bytes + length <= maxBytes {
            break;
          }
          Sleep(remaining);
          rested := true;
          continue;
        }
        UnlinkOldest();
        rested := false;
      }
      assert pending == [] ==> bytes == 0;
      LaterInOrder(Entries(gone), pending);
      accepted := true;
      Append(length);
    }

    /** `drain`: afterwards every retained file has had its grace period. */
    method Drain()
      requires Valid()
      modifies this`now, this`readings, this`waits
      ensures Valid()
      ensures forall e | e in pending :: e.sent + retainSeconds <= now
    {
      if pending != [] {
        var last := pending[|pending| - 1];
        var time := Monotonic();
        var remaining := last.sent + retainSeconds - time;
        Sleep(if remaining > 0.0 then remaining else 0.0);
        forall e | e in pending
          ensures e.sent <= last.sent
        {
          var k :| 0 <= k < |pending| && pending[k] == e;
          assert sent[|gone| + k] == e && sent[|gone| + |pending| - 1] == last;
        }
      }
    }
  }

  /** What every run of sends guarantees: the budget holds, unlinking is first in, first out, and no
      file went before its grace period was over. */
  method SendAll(retainSeconds: real, maxBytes: nat, drift: nat -> real, lengths: seq<nat>) returns (files: FrameFiles)
    requires forall k :: drift(k) >= 0.0
    ensures fresh(files) && files.Valid() && files.maxBytes == maxBytes && files.retainSeconds == retainSeconds
    ensures files.bytes == Sum(files.pending) <= maxBytes
    ensures files.sent == Entries(files.gone) + files.pending
    ensures forall u | u in files.gone :: u.at >= u.entry.sent + retainSeconds
    ensures |files.sent| <= |lengths|
    ensures (forall n | n in lengths :: n <= maxBytes) ==>
              |files.sent| == |lengths| && forall k | 0 <= k < |lengths| :: files.sent[k].length == lengths[k]
  {
    files := new FrameFiles(retainSeconds, maxBytes, drift);
    for i := 0 to |lengths|
      invariant fresh(files) && files.Valid() && files.maxBytes == maxBytes && files.retainSeconds == retainSeconds
      invariant |files.sent| <= i
      invariant (forall n | n in lengths :: n <= maxBytes) ==>
                  |files.sent| == i && forall k | 0 <= k < i :: files.sent[k].length == lengths[k]
    {
      var accepted := files.Send(lengths[i]);
      assert lengths[i] in lengths;
    }
  }
}
