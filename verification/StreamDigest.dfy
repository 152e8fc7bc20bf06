/** SHA-256 as an uninterpreted streaming function: a state that absorbs one
    byte at a time and a sum read off it. Nothing else about the digest is used. */
module StreamDigest {

  type Byte = x: int | 0 <= x < 256

  datatype Hasher<!S> = Hasher(init: S, absorb: (S, Byte) -> S, sum: S -> string)

  /** The hasher state after `data` has been written to it. */
  function Absorb<S>(h: Hasher<S>, state: S, data: seq<Byte>): S {
    if data == [] then state
    else h.absorb(Absorb(h, state, data[..|data| - 1]), data[|data| - 1])
  }

  /** The digest of a whole byte string. */
  function DigestOf<S>(h: Hasher<S>, data: seq<Byte>): string {
    h.sum(Absorb(h, h.init, data))
  }

  /** Writing two pieces in turn leaves the state of writing them joined. */
  lemma {:induction false} AbsorbConcat<S>(h: Hasher<S>, state: S, a: seq<Byte>, b: seq<Byte>)
    ensures Absorb(h, state, a + b) == Absorb(h, Absorb(h, state, a), b)
  {
    if b == [] {
      assert a + b == a;
    } else {
      assert (a + b)[..|a + b| - 1] == a + b[..|b| - 1];
      AbsorbConcat(h, state, a, b[..|b| - 1]);
    }
  }

  const BUFFER_SIZE := 256 * 1024

  /** How a temporary file behaves when its upload is completed: whether it can be
      synced, closed and opened again, and after how many bytes reading it fails. */
  datatype Disk = Disk(syncOk: bool, closeOk: bool, openOk: bool, readable: nat)

  /** What of a file can be read. */
  function Readable(file: seq<Byte>, n: nat): seq<Byte> {
    if n < |file| then file[..n] else file
  }

  /** Re-reads a file through a fixed buffer. A read may return fewer bytes than asked
      for; the digest does not depend on how the file was cut up. A read that fails ends
      the loop like the end of the file, so the digest is that of what could be read. */
  method DigestFile<S>(h: Hasher<S>, file: seq<Byte>, readable: nat) returns (digest: string)
    ensures digest == DigestOf(h, Readable(file, readable))
  {
    var state, pos := h.init, 0;
    ghost var seen := Readable(file, readable);
    while pos < |file| && pos < readable
      invariant 0 <= pos <= |seen| && file[..pos] == seen[..pos]
      invariant state == Absorb(h, h.init, file[..pos])
    {
      var n: nat :| 1 <= n <= BUFFER_SIZE && pos + n <= |file| && pos + n <= readable;
      AbsorbConcat(h, h.init, file[..pos], file[pos..pos + n]);
      assert file[..pos] + file[pos..pos + n] == file[..pos + n];
      state := Absorb(h, state, file[pos..pos + n]);
      pos := pos + n;
    }
    assert file[..pos] == seen;
    digest := h.sum(state);
  }
}
