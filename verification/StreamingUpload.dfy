/** The bounded streaming copy of an upload (`app/storage/upload.py`, `app/storage/hashing.py`).
    I/O errors, chunk lengths and short writes come from oracle functions of the call number. */
module StreamingUpload {
  import opened Prelude

  datatype UploadError = EmptyFile | PayloadTooLarge | StorageFailure

  datatype CopyResult = CopyResult(sizeBytes: nat, sha256: Digest, sample: Bytes)

  /** Incremental hashing. `consumed` stands for the hasher's internal state. */
  class StreamingSHA256 {
    const hash: Hash
    var consumed: Bytes
    var bytesProcessed: nat

    constructor (hash: Hash)
      ensures this.hash == hash && consumed == [] && bytesProcessed == 0
    {
      this.hash := hash;
      consumed, bytesProcessed := [], 0;
    }

    ghost predicate Valid()
      reads this
    {
      bytesProcessed == |consumed|
    }

    method Update(chunk: Bytes)
      requires Valid()
      modifies this
      ensures Valid() && consumed == old(consumed) + chunk
    {
      if chunk == [] {
        return;
      }
      consumed := consumed + chunk;
      bytesProcessed := bytesProcessed + |chunk|;
    }

    method HexDigest() returns (digest: Digest)
      ensures digest == hash(consumed)
    {
      digest := hash(consumed);
    }
  }

  /** A binary stream: call number n returns at most `cut(n)` bytes, or fails. */
  class Source {
    const cut: nat -> nat
    const fails: nat -> bool
    var rest: Bytes
    var calls: nat

    constructor (data: Bytes, cut: nat -> nat, fails: nat -> bool)
      ensures rest == data && this.cut == cut && this.fails == fails
    {
      this.cut, this.fails := cut, fails;
      rest, calls := data, 0;
    }

    ghost predicate Healthy() {
      forall n :: !fails(n)
    }

    /** None is an I/O error. The empty chunk marks the end of the stream. */
    method Read(limit: nat) returns (chunk: Option<Bytes>)
      requires limit > 0
      modifies this
      ensures chunk.None? ==> rest == old(rest) && !Healthy()
      ensures chunk.Some? ==> chunk.value + rest == old(rest) && |chunk.value| <= limit
      ensures chunk.Some? ==> (chunk.value == [] <==> old(rest) == [])
    {
      calls := calls + 1;
      if fails(calls - 1) {
        return None;
      }
      var n := Min(Min(limit, |rest|), cut(calls - 1) + 1);
      chunk := Some(rest[..n]);
      rest := rest[n..];
    }
  }

  /** A file open for writing: call number n accepts `accepts(n)` bytes, or fails. */
  class Descriptor {
    const accepts: nat -> int
    const fails: nat -> bool
    var content: Bytes
    var calls: nat

    constructor (accepts: nat -> int, fails: nat -> bool)
      ensures content == [] && this.accepts == accepts && this.fails == fails
    {
      this.accepts, this.fails := accepts, fails;
      content, calls := [], 0;
    }

    ghost predicate Healthy() {
      forall n :: !fails(n) && accepts(n) > 0
    }

    /** os.write: None is an I/O error, otherwise the number of bytes written. */
    method Write(view: Bytes) returns (written: Option<int>)
      modifies this
      ensures written.None? ==> content == old(content) && !Healthy()
      ensures written.Some? && written.value <= 0 ==> content == old(content) && (!Healthy() || view == [])
      ensures written.Some? && written.value > 0 ==>
                written.value <= |view| && content == old(content) + view[..written.value]
    {
      calls := calls + 1;
      if fails(calls - 1) {
        return None;
      }
      var n := Min(accepts(calls - 1), |view|);
      if n > 0 {
        content := content + view[..n];
      }
      written := Some(n);
    }
  }

  /** Writes the whole chunk however the system splits it, and always ends. */
  method WriteAll(descriptor: Descriptor, chunk: Bytes) returns (ok: bool)
    modifies descriptor
    ensures ok ==> descriptor.content == old(descriptor.content) + chunk
    ensures !ok ==> exists k: nat :: k < |chunk| && descriptor.content == old(descriptor.content) + chunk[..k]
    ensures descriptor.Healthy() ==> ok
  {
    var view := chunk;
    ghost var done: nat := 0;
    assert old(descriptor.content) + chunk[..0] == old(descriptor.content);
    while view != []
      invariant done <= |chunk| && view == chunk[done..]
      invariant descriptor.content == old(descriptor.content) + chunk[..done]
      decreases |view|
    {
      var written := descriptor.Write(view);
      if written == None || written.value <= 0 {
        return false;
      }
      assert chunk[..done] + view[..written.value] == chunk[..done + written.value];
      view := view[written.value..];
      done := done + written.value;
    }
    assert chunk[..done] == chunk;
    ok := true;
  }

  /** The sample and the next chunk give the next sample. */
  lemma SampleGrows(data: Bytes, consumed: Bytes, chunk: Bytes, rest: Bytes, sampleSize: nat)
    requires consumed + (chunk + rest) == data
    ensures consumed + chunk + rest == data
    ensures var sample := data[..Min(sampleSize, |consumed|)];
            data[..Min(sampleSize, |consumed + chunk|)]
            == if |sample| < sampleSize then sample + chunk[..Min(sampleSize - |sample|, |chunk|)] else sample
  {
  }

  /** _copy_stream. `descriptor` is the file that os.open creates; `opens` says whether it does. */
  method CopyStream(hash: Hash, source: Source, descriptor: Descriptor, opens: bool, syncs: bool,
                    maxSize: nat, chunkSize: nat, sampleSize: nat)
    returns (result: Result<CopyResult, UploadError>)
    requires chunkSize > 0 && descriptor.content == []
    modifies source, descriptor
    ensures descriptor.content <= old(source.rest) && |descriptor.content| <= maxSize
    ensures result.Success? ==> descriptor.content == old(source.rest) && 0 < |descriptor.content|
    ensures result.Success? ==>
              var data := old(source.rest);
              result.value == CopyResult(|data|, hash(data), data[..Min(sampleSize, |data|)])
    ensures !opens ==> result == Failure(StorageFailure)
    ensures result == Failure(PayloadTooLarge) ==> |old(source.rest)| > maxSize
    ensures result == Failure(EmptyFile) ==> old(source.rest) == []
    ensures source.Healthy() && descriptor.Healthy() && opens && syncs ==>
              && (result == Failure(PayloadTooLarge) <==> |old(source.rest)| > maxSize)
              && (result == Failure(EmptyFile) <==> old(source.rest) == [])
              && result != Failure(StorageFailure)
  {
    var digest := new StreamingSHA256(hash);
    var sample: Bytes := [];
    if !opens {
      return Failure(StorageFailure);
    }
    ghost var data := source.rest;
    while true
      invariant digest.Valid() && digest.consumed + source.rest == data
      invariant descriptor.content == digest.consumed && |digest.consumed| <= maxSize
      invariant sample == data[..Min(sampleSize, |digest.consumed|)]
      decreases |source.rest|
    {
      var chunk := source.Read(chunkSize);
      if chunk == None {
        return Failure(StorageFailure);
      }
      if chunk.value == [] {
        break;
      }
      if digest.bytesProcessed + |chunk.value| > maxSize {
        return Failure(PayloadTooLarge);
      }
      SampleGrows(data, digest.consumed, chunk.value, source.rest, sampleSize);
      digest.Update(chunk.value);
      if |sample| < sampleSize {
        sample := sample + chunk.value[..Min(sampleSize - |sample|, |chunk.value|)];
      }
      var ok := WriteAll(descriptor, chunk.value);
      if !ok {
        return Failure(StorageFailure);
      }
    }
    assert digest.consumed == data;
    if digest.bytesProcessed == 0 {
      return Failure(EmptyFile);
    }
    if !syncs {
      return Failure(StorageFailure);
    }
    var hex := digest.HexDigest();
    result := Success(CopyResult(digest.bytesProcessed, hex, sample));
  }

  /** sha256_stream: hashing in chunks gives the digest and the length of the whole. */
  method Sha256Stream(hash: Hash, source: Source, chunkSize: nat) returns (result: Option<(Digest, nat)>)
    requires chunkSize > 0
    modifies source
    ensures result.Some? ==> result.value == (hash(old(source.rest)), |old(source.rest)|)
    ensures source.Healthy() ==> result.Some?
  {
    var digest := new StreamingSHA256(hash);
    while true
      invariant digest.Valid() && digest.consumed + source.rest == old(source.rest)
      decreases |source.rest|
    {
      var chunk := source.Read(chunkSize);
      if chunk == None {
        return None;
      }
      if chunk.value == [] {
        break;
      }
      digest.Update(chunk.value);
    }
    assert digest.consumed == old(source.rest);
    var hex := digest.HexDigest();
    result := Some((hex, digest.bytesProcessed));
  }
}
