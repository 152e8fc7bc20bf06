/** Single-stream upload sessions. While chunks arrive strictly in order an
    incremental digest is kept, and completion trusts it instead of re-reading
    the temp file. */
module SequentialUpload {
  import opened ByteRanges
  import opened PartLog
  import opened StreamDigest

  datatype ChunkResult = Accepted | Closed | InvalidOffset | BeyondEnd | WriteFailed

  datatype CompleteResult =
    | Incomplete
    | SyncFailed
    | CloseFailed
    | HashFailed
    | HashMismatch
    | Ready(content: seq<Byte>, hashProvided: bool, hashVerified: bool)

  const MAX_INT64 := 0x7FFF_FFFF_FFFF_FFFF

  /** A temp file is only pre-sized for a positive size. */
  function Capacity(totalSize: int): nat {
    if totalSize > 0 then totalSize else 0
  }

  /** Every chunk starts where the bytes before it ended. */
  predicate InOrder(ps: seq<Part>) {
    ps != [] ==> InOrder(Init(ps)) && Last(ps).offset == Carried(Init(ps))
  }

  /** The chunks' bytes, joined in arrival order: what the digest has absorbed. */
  function Joined(ps: seq<Part>): seq<Byte> {
    if ps == [] then [] else Joined(Init(ps)) + Last(ps).data
  }

  lemma JoinedSnoc(ps: seq<Part>, p: Part)
    ensures InOrder(ps + [p]) <==> InOrder(ps) && p.offset == Carried(ps)
    ensures Joined(ps + [p]) == Joined(ps) + p.data
  {
    assert Init(ps + [p]) == ps && Last(ps + [p]) == p;
  }

  /** Chunks that arrived in order leave their joined bytes as the file's prefix. */
  lemma {:induction false} InOrderPrefix(ps: seq<Part>, total: nat)
    requires AllWithin(ps, total) && InOrder(ps)
    ensures |Joined(ps)| == Carried(ps) <= total
    ensures FileOf(ps, total)[..Carried(ps)] == Joined(ps)
  {
    if ps != [] {
      InOrderPrefix(Init(ps), total);
      var before, after := FileOf(Init(ps), total), FileOf(ps, total);
      var n := Carried(Init(ps));
      assert after == before[..n] + Last(ps).data + before[Last(ps).End()..];
      assert after[..n] == before[..n];
      assert after[n..Carried(ps)] == Last(ps).data;
      assert after[..Carried(ps)] == after[..n] + after[n..Carried(ps)];
    }
  }

  /** Chunks that arrived in order and carried the whole size tile the file. */
  lemma {:induction false} InOrderTiles(ps: seq<Part>)
    requires InOrder(ps)
    ensures Touched(ps) == Bytes(0, Carried(ps)) && Disjoint(ps)
  {
    if ps != [] {
      InOrderTiles(Init(ps));
      CarriedVersusTouched(ps);
    }
  }

  /** Without a client hash completion only compares byte counts. The file is then
      fully written exactly when no two chunks overlapped. */
  lemma CountOnlyCoverage(ps: seq<Part>, total: nat)
    requires AllWithin(ps, total) && Carried(ps) == total
    ensures Touched(ps) == Bytes(0, total) <==> Disjoint(ps)
  {
    CarriedVersusTouched(ps);
    TouchedWithin(ps, total);
    assert |Bytes(0, total)| == total;
    if Disjoint(ps) {
      assert |Bytes(0, total) - Touched(ps)| == 0;
    }
  }

  /** Resending the first byte of a two-byte file passes the count with the second
      byte never written. */
  lemma CountOnlyMissesGap()
    ensures var ps := [Part(0, [7]), Part(0, [7])];
      AllWithin(ps, 2) && Carried(ps) == 2 && 1 !in Touched(ps) && !Disjoint(ps)
  {
    var ps := [Part(0, [7]), Part(0, [7])];
    assert Init(ps) == [Part(0, [7])] && Init(Init(ps)) == [];
    assert Carried(Init(ps)) == 1;
    TouchedAt(ps, 1);
    assert !ps[0].Apart(ps[1]);
  }

  /** Completion with the digest always recomputed from the file. */
  function CompleteByReread<S>(h: Hasher<S>, hash: string, totalSize: int, uploaded: int,
                               file: seq<Byte>, disk: Disk): CompleteResult
  {
    if uploaded != totalSize then Incomplete
    else if !disk.syncOk then SyncFailed
    else if !disk.closeOk then CloseFailed
    else if hash != "" && !disk.openOk then HashFailed
    else if hash != "" && DigestOf(h, Readable(file, disk.readable)) != hash then HashMismatch
    else Ready(file, hash != "", hash != "")
  }

  /** The disk as the re-read meets it: with the digest shortcut there is none to fail. */
  function Met(disk: Disk, shortcut: bool, file: seq<Byte>): Disk {
    if shortcut then disk.(openOk := true, readable := |file|) else disk
  }

  /** Whether a complete file is accepted under a client hash. */
  predicate Passes<S>(h: Hasher<S>, hash: string, file: seq<Byte>, disk: Disk) {
    hash != "" && CompleteByReread(h, hash, |file|, |file|, file, disk).Ready?
  }

  /** Of a file that is complete and can be synced, closed and opened, every client hash
      that passes is the digest of the content, if and only if the digest shortcut is in
      use or what can be read back has the digest of the whole. A digest is never empty. */
  lemma HashAttestsIff<S>(h: Hasher<S>, file: seq<Byte>, disk: Disk, shortcut: bool)
    requires disk.syncOk && disk.closeOk && disk.openOk && DigestOf(h, Readable(file, disk.readable)) != ""
    ensures (forall hash :: Passes(h, hash, file, Met(disk, shortcut, file)) ==> hash == DigestOf(h, file)) <==>
      shortcut || DigestOf(h, Readable(file, disk.readable)) == DigestOf(h, file)
  {
    assert !shortcut ==> Passes(h, DigestOf(h, Readable(file, disk.readable)), file, Met(disk, shortcut, file));
  }

  /** An upload whose chunks arrive out of order and whose re-read fails at once passes
      with a hash that is not that of its content. */
  method ShortReadPasses<S>(h: Hasher<S>) returns (hash: string, r: CompleteResult)
    requires DigestOf(h, []) != "" && DigestOf(h, []) != DigestOf(h, [7, 8])
    ensures r.Ready? && r.hashVerified && r.content == [7, 8] && hash != DigestOf(h, r.content)
  {
    hash := DigestOf(h, []);
    var s := LastChunkFirst(h, hash);
    r := s.Complete(Disk(true, true, true, 0));
  }

  method LastChunkFirst<S>(h: Hasher<S>, hash: string) returns (s: Session<S>)
    requires hash != ""
    ensures fresh(s) && s.Valid() && !s.closed && s.h == h && s.hash == hash && s.totalSize == 2
    ensures s.file == [7, 8] && Carried(s.accepted) == 2 && !InOrder(s.accepted)
  {
    s := new Session(h, 2, hash);
    var second := s.UploadChunk([8], 1, true);
    var first := s.UploadChunk([7], 0, true);
    TwoChunks(s.accepted, s.file);
  }

  lemma TwoChunks(ps: seq<Part>, file: seq<Byte>)
    requires ps == [Part(1, [8]), Part(0, [7])] && AllWithin(ps, 2) && file == FileOf(ps, 2)
    ensures file == [7, 8] && Carried(ps) == 2 && !InOrder(ps)
  {
    assert Init(ps) == [Part(1, [8])] && Init(Init(ps)) == [];
    assert Carried(Init(ps)) == 1;
    assert Disjoint(ps);
    StoredByte(ps, 2, ps[1], 0);
    StoredByte(ps, 2, ps[0], 1);
  }

  /** The first check a chunk call fails, in the order they are made. */
  function ChunkOutcome(closed: bool, totalSize: int, offset: int, data: seq<Byte>, writeOk: bool): (r: ChunkResult)
    ensures r.Accepted? <==> !closed && Part(offset, data).Within(Capacity(totalSize)) && totalSize >= 0 && writeOk
  {
    if closed then Closed
    else if offset < 0 then InvalidOffset
    else if offset + |data| > totalSize then BeyondEnd
    else if !writeOk then WriteFailed
    else Accepted
  }

  class Session<S> {
    const h: Hasher<S>
    const totalSize: int
    const hash: string
    var file: seq<Byte>
    var uploadedSize: int
    var chunkCount: nat
    var hashState: S
    var lastOffset: int
    var hashValid: bool
    var closed: bool
    ghost var accepted: seq<Part>

    ghost predicate Valid()
      reads this
    {
      && AllWithin(accepted, Capacity(totalSize))
      && file == FileOf(accepted, Capacity(totalSize))
      && uploadedSize == Carried(accepted)
      && chunkCount == |accepted|
      && hashValid == (hash != "" && InOrder(accepted))
      && (hashValid ==> lastOffset == Carried(accepted) && hashState == Absorb(h, h.init, Joined(accepted)))
    }

    constructor (h: Hasher<S>, totalSize: int, hash: string)
      ensures Valid() && accepted == [] && !closed
      ensures this.h == h && this.totalSize == totalSize && this.hash == hash
    {
      this.h, this.totalSize, this.hash := h, totalSize, hash;
      file := Zeros(Capacity(totalSize));
      uploadedSize, chunkCount, lastOffset := 0, 0, 0;
      hashState, hashValid := h.init, hash != "";
      closed, accepted := false, [];
    }

    method UploadChunk(data: seq<Byte>, offset: int, writeOk: bool) returns (r: ChunkResult)
      requires Valid()
      requires offset + |data| <= MAX_INT64
      modifies this
      ensures Valid() && closed == old(closed)
      ensures r == ChunkOutcome(old(closed), totalSize, offset, data, writeOk)
      ensures r.Closed? <==> old(closed)
      ensures r.InvalidOffset? <==> !old(closed) && offset < 0
      ensures r.BeyondEnd? <==> !old(closed) && offset >= 0 && offset + |data| > totalSize
      ensures r.Accepted? <==> !old(closed) && 0 <= offset && offset + |data| <= totalSize && writeOk
      ensures accepted == if r.Accepted? then old(accepted) + [Part(offset, data)] else old(accepted)
      ensures hashValid == (old(hashValid) && (r.Accepted? ==> offset == old(lastOffset)))
      ensures chunkCount == |accepted| && uploadedSize == Carried(accepted)
      ensures !r.Accepted? ==> unchanged(this)
    {
      if closed { return Closed; }
      if offset < 0 { return InvalidOffset; }
      if offset + |data| > totalSize { return BeyondEnd; }
      if !writeOk { return WriteFailed; }
      Store(Part(offset, data));
      return Accepted;
    }

    method Store(p: Part)
      requires Valid() && p.Within(Capacity(totalSize))
      modifies this`file, this`hashState, this`lastOffset, this`hashValid, this`uploadedSize, this`chunkCount, this`accepted
      ensures Valid() && accepted == old(accepted) + [p]
      ensures hashValid == (old(hashValid) && p.offset == old(lastOffset))
    {
      LogSnoc(accepted, p, Capacity(totalSize));
      JoinedSnoc(accepted, p);
      file := WriteAt(file, p);
      if hashValid {
        if p.offset == lastOffset {
          AbsorbConcat(h, h.init, Joined(accepted), p.data);
          hashState := Absorb(h, hashState, p.data);
          lastOffset := p.End();
        } else {
          hashValid := false;
        }
      }
      uploadedSize := uploadedSize + |p.data|;
      chunkCount := chunkCount + 1;
      accepted := accepted + [p];
    }

    /** While the digest is marked valid, what it has absorbed is the file up to
        the last offset, and that is all that was uploaded. */
    lemma DigestTracksFile()
      requires Valid() && hashValid
      ensures uploadedSize == lastOffset <= |file|
      ensures hashState == Absorb(h, h.init, file[..lastOffset])
    {
      InOrderPrefix(accepted, Capacity(totalSize));
    }

    /** Completion answers as one that re-reads the file. With the digest shortcut it
        answers as one whose re-read cannot fail. */
    method Complete(disk: Disk) returns (r: CompleteResult)
      requires Valid()
      modifies this`closed
      ensures Valid() && closed == (old(closed) || !r.Incomplete?)
      ensures r == CompleteByReread(h, hash, totalSize, uploadedSize, file, Met(disk, hashValid, file))
      ensures r.Incomplete? <==> Carried(accepted) != totalSize
      ensures r.Ready? <==>
        && Carried(accepted) == totalSize && disk.syncOk && disk.closeOk
        && (hash == "" || (if InOrder(accepted) then DigestOf(h, file) == hash
                           else disk.openOk && DigestOf(h, Readable(file, disk.readable)) == hash))
      ensures r.SyncFailed? <==> Carried(accepted) == totalSize && !disk.syncOk
      ensures r.CloseFailed? <==> Carried(accepted) == totalSize && disk.syncOk && !disk.closeOk
      ensures r.HashFailed? <==>
        && Carried(accepted) == totalSize && disk.syncOk && disk.closeOk
        && hash != "" && !InOrder(accepted) && !disk.openOk
      ensures r.HashMismatch? ==> hash != ""
      ensures r.Ready? ==>
        && r.content == file == FileOf(accepted, Capacity(totalSize)) && |file| == totalSize
        && r.hashProvided == r.hashVerified == (hash != "")
      ensures r.Ready? && hash != "" ==>
        (hash == DigestOf(h, file) <==> hashValid || DigestOf(h, Readable(file, disk.readable)) == DigestOf(h, file))
    {
      if uploadedSize != totalSize { return Incomplete; }
      closed := true;
      if !disk.syncOk { return SyncFailed; }
      if !disk.closeOk { return CloseFailed; }
      if hash != "" {
        var computed: string;
        if hashValid {
          DigestTracksFile();
          assert file[..lastOffset] == file;
          computed := h.sum(hashState);
        } else {
          if !disk.openOk { return HashFailed; }
          computed := DigestFile(h, file, disk.readable);
        }
        if computed != hash { return HashMismatch; }
      }
      return Ready(file, hash != "", hash != "");
    }
  }
}
