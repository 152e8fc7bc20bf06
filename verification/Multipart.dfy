/** Multipart upload sessions: parts arrive in any order, may overlap, repeat and
    reuse part numbers, and completion is allowed only when a byte counter and an
    interval list agree. */
module Multipart {
  import opened ByteRanges
  import opened PartLog
  import opened StreamDigest

  const MAX_PART_NUMBER := 10000
  const MAX_INT64 := 0x7FFF_FFFF_FFFF_FFFF

  datatype UploadPart = UploadPart(offset: int, size: nat, uploadedSize: nat, completed: bool)

  datatype PartResult = Accepted | Closed | NotActive | PartNumberTooLarge | InvalidOffset | BeyondEnd | WriteFailed

  datatype CompleteResult =
    | Incomplete
    | CoverageGap
    | PartNotCompleted
    | SyncFailed
    | CloseFailed
    | HashFailed
    | HashMismatch
    | Ready(content: seq<Byte>)

  /** Whether a normal interval list covers [0, total) without a gap. */
  method IsFullyCovered(ranges: seq<ByteRange>, total: nat) returns (full: bool)
    requires Normal(ranges)
    ensures full <==> Covered(ranges) == Bytes(0, total)
  {
    CoversAllIsSingleton(ranges, total);
    if |ranges| == 0 {
      return total == 0;
    }
    if ranges[0].start != 0 || ranges[|ranges| - 1].end != total {
      return false;
    }
    for i := 1 to |ranges|
      invariant forall j :: 1 <= j < i ==> ranges[j].start == ranges[j - 1].end
    {
      assert ranges[i - 1].end < ranges[i].start;
      if ranges[i].start != ranges[i - 1].end {
        return false;
      }
    }
    return true;
  }

  class Session {
    const totalSize: nat
    const hash: string
    var file: seq<Byte>
    var parts: map<int, UploadPart>
    var uploadedSize: int
    var chunkCount: nat
    var coveredRanges: seq<ByteRange>
    var active: bool
    var closed: bool
    ghost var accepted: seq<Part>

    ghost predicate Valid()
      reads this
    {
      && AllWithin(accepted, totalSize)
      && file == FileOf(accepted, totalSize)
      && coveredRanges == Ranges(accepted)
      && uploadedSize == Carried(accepted)
      && chunkCount == |accepted|
      && (forall n :: n in parts ==> parts[n].completed)
    }

    constructor (totalSize: nat, hash: string)
      ensures Valid() && accepted == [] && active && !closed
      ensures this.totalSize == totalSize && this.hash == hash
    {
      this.totalSize, this.hash := totalSize, hash;
      file, parts := Zeros(totalSize), map[];
      uploadedSize, chunkCount, coveredRanges := 0, 0, [];
      active, closed, accepted := true, false, [];
    }

    /** Merges [start, end) into the interval list, widening it over every
        interval it overlaps or touches. */
    method AddCoveredRange(start0: int, end0: int)
      requires Normal(coveredRanges)
      modifies this`coveredRanges
      ensures coveredRanges == Insert(old(coveredRanges), start0, end0)
    {
      if start0 >= end0 {
        return;
      }
      var ranges := coveredRanges;
      var start, end := start0, end0;
      var merged: seq<ByteRange> := [];
      var inserted := false;
      for i := 0 to |ranges|
        invariant start < end
        invariant inserted ==> i > 0 && end < ranges[i - 1].start
        invariant Insert(ranges, start0, end0) == Finish(merged, ranges[i..], start, end, inserted)
      {
        var r := ranges[i];
        FinishNext(merged, ranges, i, start, end, inserted);
        if r.end < start {
          merged := merged + [r];
        } else if r.start > end {
          if !inserted {
            merged := merged + [ByteRange(start, end)];
            inserted := true;
          }
          merged := merged + [r];
        } else {
          start, end := Min(r.start, start), Max(r.end, end);
        }
      }
      if !inserted {
        merged := merged + [ByteRange(start, end)];
      }
      coveredRanges := merged;
    }

    /** One part call. `writeOk` is whether the write to the temp file succeeds;
        a failed write leaves the file as it was. */
    method UploadPartData(partNumber: int, offset: int, data: seq<Byte>, writeOk: bool) returns (r: PartResult)
      requires Valid()
      requires offset + |data| <= MAX_INT64
      modifies this
      ensures Valid() && closed == old(closed) && active == old(active)
      ensures r == PartOutcome(old(closed), old(active), totalSize, partNumber, offset, data, writeOk)
      ensures r.Closed? <==> old(closed)
      ensures r.NotActive? <==> !old(closed) && !old(active)
      ensures r.PartNumberTooLarge? <==> !old(closed) && old(active) && partNumber > 10000
      ensures r.InvalidOffset? <==> !old(closed) && old(active) && partNumber <= 10000 && offset < 0
      ensures r.BeyondEnd? <==>
        !old(closed) && old(active) && partNumber <= 10000 && offset >= 0 && offset + |data| > totalSize
      ensures r.WriteFailed? ==> !writeOk
      ensures accepted == if r.Accepted? then old(accepted) + [Part(offset, data)] else old(accepted)
      ensures r.Accepted? ==> parts == RecordPart(old(parts), partNumber, offset, |data|)
      ensures chunkCount == |accepted| && uploadedSize == Carried(accepted)
      ensures !r.Accepted? ==> unchanged(this)
    {
      if closed { return Closed; }
      if !active { return NotActive; }
      if partNumber > MAX_PART_NUMBER { return PartNumberTooLarge; }
      if offset < 0 { return InvalidOffset; }
      if offset + |data| > totalSize { return BeyondEnd; }
      if !writeOk { return WriteFailed; }
      Store(partNumber, Part(offset, data));
      return Accepted;
    }

    method Store(partNumber: int, p: Part)
      requires Valid() && p.Within(totalSize)
      modifies this`file, this`parts, this`coveredRanges, this`uploadedSize, this`chunkCount, this`accepted
      ensures Valid() && accepted == old(accepted) + [p]
      ensures parts == RecordPart(old(parts), partNumber, p.offset, |p.data|)
    {
      LogSnoc(accepted, p, totalSize);
      RangesNormal(accepted);
      file := WriteAt(file, p);
      parts := RecordPart(parts, partNumber, p.offset, |p.data|);
      AddCoveredRange(p.offset, p.End());
      uploadedSize := uploadedSize + |p.data|;
      chunkCount := chunkCount + 1;
      accepted := accepted + [p];
    }

    /** Completion checks, up to the point where the content goes to storage. The hash
        is that of what can be read back of the temporary file. */
    method Complete<S>(h: Hasher<S>, disk: Disk) returns (r: CompleteResult)
      requires Valid()
      modifies this`closed
      ensures Valid()
      ensures r.Ready? <==>
        && Tiles(accepted, totalSize) && disk.syncOk && disk.closeOk
        && (hash == "" || (disk.openOk && DigestOf(h, Readable(file, disk.readable)) == hash))
      ensures r.Ready? ==> r.content == file && |r.content| == totalSize
      ensures r.Ready? && hash != "" ==>
        (hash == DigestOf(h, file) <==> DigestOf(h, Readable(file, disk.readable)) == DigestOf(h, file))
      ensures r.Incomplete? || r.CoverageGap? <==> !Tiles(accepted, totalSize)
      ensures r.Incomplete? <==> Carried(accepted) != totalSize
      ensures r.SyncFailed? <==> Tiles(accepted, totalSize) && !disk.syncOk
      ensures r.CloseFailed? <==> Tiles(accepted, totalSize) && disk.syncOk && !disk.closeOk
      ensures r.HashFailed? <==>
        Tiles(accepted, totalSize) && disk.syncOk && disk.closeOk && hash != "" && !disk.openOk
      ensures r.HashMismatch? ==> hash != "" && disk.openOk
      ensures !r.PartNotCompleted?
      ensures closed == (old(closed) || Tiles(accepted, totalSize))
    {
      CompletesIffTiles(accepted, totalSize);
      RangesCorrect(accepted);
      if uploadedSize != totalSize { return Incomplete; }
      var full := IsFullyCovered(coveredRanges, totalSize);
      if !full { return CoverageGap; }
      if n :| n in parts && !parts[n].completed { return PartNotCompleted; }
      closed := true;
      if !disk.syncOk { return SyncFailed; }
      if !disk.closeOk { return CloseFailed; }
      if hash != "" {
        if !disk.openOk { return HashFailed; }
        var computed := DigestFile(h, file, disk.readable);
        if computed != hash { return HashMismatch; }
      }
      return Ready(file);
    }
  }

  /** The list the merge loop is heading for, from where it stands. */
  function Finish(merged: seq<ByteRange>, rest: seq<ByteRange>, start: int, end: int, inserted: bool): seq<ByteRange> {
    merged + if inserted then rest else Insert(rest, start, end)
  }

  /** One turn of the merge loop keeps to that list. */
  lemma FinishNext(merged: seq<ByteRange>, rs: seq<ByteRange>, i: nat, start: int, end: int, inserted: bool)
    requires Normal(rs) && i < |rs| && start < end && (inserted ==> i > 0 && end < rs[i - 1].start)
    ensures var r, rest := rs[i], rs[i + 1..];
      Finish(merged, rs[i..], start, end, inserted) ==
        if r.end < start then Finish(merged + [r], rest, start, end, inserted)
        else if r.start > end then
          Finish(if inserted then merged + [r] else merged + [ByteRange(start, end)] + [r], rest, start, end, true)
        else Finish(merged, rest, Min(r.start, start), Max(r.end, end), inserted)
    ensures inserted ==> end < rs[i].start
  {
    var r, rest := rs[i], rs[i + 1..];
    assert rs[i..] == [r] + rest && rs[i..][1..] == rest;
    if inserted {
      assert merged + ([r] + rest) == merged + [r] + rest;
    } else if r.end < start {
      assert merged + ([r] + Insert(rest, start, end)) == merged + [r] + Insert(rest, start, end);
    } else if r.start > end {
      assert merged + ([ByteRange(start, end)] + ([r] + rest)) == merged + [ByteRange(start, end)] + [r] + rest;
    }
  }

  /** A new part number is recorded as completed; a known one accumulates. */
  function RecordPart(parts: map<int, UploadPart>, n: int, offset: int, size: nat): (r: map<int, UploadPart>)
    ensures r.Keys == parts.Keys + {n}
    ensures (forall k :: k in parts ==> parts[k].completed) ==> forall k :: k in r ==> r[k].completed
  {
    if n !in parts then parts[n := UploadPart(offset, size, size, true)]
    else
      var seen := parts[n];
      var uploaded := seen.uploadedSize + size;
      parts[n := seen.(uploadedSize := uploaded, completed := seen.completed || uploaded >= seen.size)]
  }

  /** An accepted part call: its number, offset and size. */
  datatype Call = Call(number: int, offset: int, size: nat)

  /** The part table after a sequence of accepted calls. */
  function Recorded(calls: seq<Call>): map<int, UploadPart> {
    if calls == [] then map[]
    else
      var c := calls[|calls| - 1];
      RecordPart(Recorded(calls[..|calls| - 1]), c.number, c.offset, c.size)
  }

  /** Bytes sent under a part number. */
  function SentUnder(calls: seq<Call>, n: int): nat {
    if calls == [] then 0
    else SentUnder(calls[..|calls| - 1], n) + if calls[|calls| - 1].number == n then calls[|calls| - 1].size else 0
  }

  /** The first call under a part number. */
  function FirstUnder(calls: seq<Call>, n: int): (c: Call)
    requires exists i :: 0 <= i < |calls| && calls[i].number == n
    ensures c.number == n && c in calls
  {
    if calls[0].number == n then calls[0]
    else
      assert exists i :: 0 <= i < |calls[1..]| && calls[1..][i].number == n by {
        var i :| 0 <= i < |calls| && calls[i].number == n;
        assert calls[1..][i - 1].number == n;
      }
      FirstUnder(calls[1..], n)
  }

  lemma FirstSnoc(calls: seq<Call>, c: Call, n: int)
    requires exists i :: 0 <= i < |calls| && calls[i].number == n
    ensures exists i :: 0 <= i < |calls + [c]| && (calls + [c])[i].number == n
    ensures FirstUnder(calls + [c], n) == FirstUnder(calls, n)
    decreases |calls|
  {
    var i :| 0 <= i < |calls| && calls[i].number == n;
    assert (calls + [c])[i].number == n;
    if calls[0].number != n {
      assert calls[1..][i - 1].number == n;
      assert (calls + [c])[1..] == calls[1..] + [c];
      FirstSnoc(calls[1..], c, n);
    }
  }

  lemma FirstOfNew(calls: seq<Call>, c: Call)
    requires forall i :: 0 <= i < |calls| ==> calls[i].number != c.number
    ensures (calls + [c])[|calls|].number == c.number
    ensures FirstUnder(calls + [c], c.number) == c
    decreases |calls|
  {
    assert (calls + [c])[|calls|].number == c.number;
    if calls != [] {
      assert (calls + [c])[1..] == calls[1..] + [c];
      FirstOfNew(calls[1..], c);
    }
  }

  /** The part table read off the calls: a number is in it exactly if a call used it, with
      the offset and size of its first call and all the bytes sent under it. */
  lemma {:induction false} RecordedTotals(calls: seq<Call>, n: int)
    ensures n in Recorded(calls) <==> exists i :: 0 <= i < |calls| && calls[i].number == n
    ensures n in Recorded(calls) ==>
      && var first := FirstUnder(calls, n);
         Recorded(calls)[n] == UploadPart(first.offset, first.size, SentUnder(calls, n), true)
  {
    if calls != [] {
      var before, c := calls[..|calls| - 1], calls[|calls| - 1];
      assert calls == before + [c];
      RecordedTotals(before, n);
      if i :| 0 <= i < |before| && before[i].number == n {
        FirstSnoc(before, c, n);
      } else {
        NothingSent(before, n);
        if c.number == n { FirstOfNew(before, c); }
      }
    }
  }

  lemma {:induction false} NothingSent(calls: seq<Call>, n: int)
    requires forall i :: 0 <= i < |calls| ==> calls[i].number != n
    ensures SentUnder(calls, n) == 0
  {
    if calls != [] { NothingSent(calls[..|calls| - 1], n); }
  }

  /** The first check a part call fails, in the order they are made. */
  function PartOutcome(closed: bool, active: bool, total: nat, partNumber: int, offset: int,
                       data: seq<Byte>, writeOk: bool): (r: PartResult)
    ensures r.Accepted? <==>
      !closed && active && partNumber <= MAX_PART_NUMBER && Part(offset, data).Within(total) && writeOk
  {
    if closed then Closed
    else if !active then NotActive
    else if partNumber > MAX_PART_NUMBER then PartNumberTooLarge
    else if offset < 0 then InvalidOffset
    else if offset + |data| > total then BeyondEnd
    else if !writeOk then WriteFailed
    else Accepted
  }

  /** The counter and the coverage check as completion makes them. */
  ghost predicate PassesChecks(uploaded: int, ranges: seq<ByteRange>, total: nat) {
    uploaded == total && Covered(ranges) == Bytes(0, total)
  }

  /** The two checks together hold exactly when the accepted parts cut the file
      into disjoint pieces. Neither check alone is enough. */
  lemma CompletesIffTiles(ps: seq<Part>, total: nat)
    requires AllWithin(ps, total)
    ensures PassesChecks(Carried(ps), Ranges(ps), total) <==> Tiles(ps, total)
  {
    RangesCorrect(ps);
    CarriedVersusTouched(ps);
    assert |Bytes(0, total)| == total;
  }

  /** A completed upload survives any reordering of its parts: the checks still
      pass and the same bytes are stored. */
  lemma ReorderingCompletes(ps: seq<Part>, qs: seq<Part>, total: nat)
    requires AllWithin(ps, total) && multiset(ps) == multiset(qs)
    requires PassesChecks(Carried(ps), Ranges(ps), total)
    ensures AllWithin(qs, total)
    ensures PassesChecks(Carried(qs), Ranges(qs), total)
    ensures FileOf(qs, total) == FileOf(ps, total)
  {
    forall i | 0 <= i < |qs| ensures qs[i].Within(total) {
      assert qs[i] in multiset(ps);
    }
    OrderIrrelevant(ps, qs, total);
    CompletesIffTiles(ps, total);
    assert forall p :: p in ps <==> p in multiset(ps);
    assert forall p :: p in qs <==> p in multiset(qs);
    FileDependsOnPartSet(ps, qs, total);
  }

  /** Part calls split into the three steps that other calls can interleave with:
      the unlocked file write, the recording under the parts lock, and the atomic
      add to the counter. */
  datatype Concurrent = Concurrent(
    written: seq<Part>,
    recorded: seq<Part>,
    counted: seq<Part>,
    toRecord: multiset<Part>,
    toCount: multiset<Part>)

  datatype Step = Write(p: Part) | Record(p: Part) | Count(p: Part)

  predicate Enabled(s: Concurrent, step: Step, total: nat) {
    match step
    case Write(p) => p.Within(total)
    case Record(p) => p in s.toRecord
    case Count(p) => p in s.toCount
  }

  function Apply(s: Concurrent, step: Step): Concurrent {
    match step
    case Write(p) => s.(written := s.written + [p], toRecord := s.toRecord + multiset{p})
    case Record(p) =>
      s.(recorded := s.recorded + [p], toRecord := s.toRecord - multiset{p}, toCount := s.toCount + multiset{p})
    case Count(p) => s.(counted := s.counted + [p], toCount := s.toCount - multiset{p})
  }

  const FRESH := Concurrent([], [], [], multiset{}, multiset{})

  function Run(steps: seq<Step>): Concurrent {
    if steps == [] then FRESH else Apply(Run(steps[..|steps| - 1]), steps[|steps| - 1])
  }

  predicate LegalRun(steps: seq<Step>, total: nat) {
    steps != [] ==>
      && LegalRun(steps[..|steps| - 1], total)
      && Enabled(Run(steps[..|steps| - 1]), steps[|steps| - 1], total)
  }

  predicate Quiescent(s: Concurrent) {
    s.toRecord == multiset{} && s.toCount == multiset{}
  }

  ghost predicate Conserves(s: Concurrent, total: nat) {
    && AllWithin(s.written, total)
    && multiset(s.written) == multiset(s.recorded) + s.toRecord
    && multiset(s.recorded) == multiset(s.counted) + s.toCount
  }

  /** Moving a part from one side of a sum to the other keeps the sum. */
  lemma Passes(done: multiset<Part>, todo: multiset<Part>, p: Part)
    requires p in todo
    ensures (done + multiset{p}) + (todo - multiset{p}) == done + todo
  {
  }

  lemma StepConserves(s: Concurrent, step: Step, total: nat)
    requires Conserves(s, total) && Enabled(s, step, total)
    ensures Conserves(Apply(s, step), total)
  {
    match step
    case Write(p) =>
    case Record(p) => Passes(multiset(s.recorded), s.toRecord, p);
    case Count(p) => Passes(multiset(s.counted), s.toCount, p);
  }

  lemma {:induction false} StepsConserve(steps: seq<Step>, total: nat)
    requires LegalRun(steps, total)
    ensures Conserves(Run(steps), total)
  {
    if steps != [] {
      StepsConserve(steps[..|steps| - 1], total);
      StepConserves(Run(steps[..|steps| - 1]), steps[|steps| - 1], total);
    }
  }

  /** The parts that are written, in the order of their writes. */
  function PartsWritten(steps: seq<Step>): seq<Part> {
    if steps == [] then []
    else
      var last := steps[|steps| - 1];
      PartsWritten(steps[..|steps| - 1]) + if last.Write? then [last.p] else []
  }

  lemma {:induction false} RunWrites(steps: seq<Step>)
    ensures Run(steps).written == PartsWritten(steps)
  {
    if steps != [] { RunWrites(steps[..|steps| - 1]); }
  }

  /** For every interleaving of the three steps of any number of part calls: once
      no call is in flight, the counter and the interval list left behind pass the
      completion checks exactly when the written parts tile the file, and then
      each stored byte is the one its only covering part carried. */
  lemma InterleavedCompletion(steps: seq<Step>, total: nat)
    requires LegalRun(steps, total) && Quiescent(Run(steps))
    ensures var s := Run(steps);
      && s.written == PartsWritten(steps) && AllWithin(s.written, total)
      && (PassesChecks(Carried(s.counted), Ranges(s.recorded), total) <==> Tiles(s.written, total))
      && (Tiles(s.written, total) ==>
            forall p, x :: p in s.written && p.Has(x) ==>
              0 <= x < total && FileOf(s.written, total)[x] == p.data[x - p.offset])
  {
    StepsConserve(steps, total);
    RunWrites(steps);
    var s := Run(steps);
    OrderIrrelevant(s.written, s.recorded, total);
    OrderIrrelevant(s.written, s.counted, total);
    CompletesIffTiles(s.written, total);
    if Tiles(s.written, total) {
      forall p, x | p in s.written && p.Has(x)
        ensures 0 <= x < total && FileOf(s.written, total)[x] == p.data[x - p.offset]
      {
        StoredByte(s.written, total, p, x);
      }
    }
  }
}
