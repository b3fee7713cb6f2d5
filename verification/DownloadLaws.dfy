/** From the archive on the agent to the file on the client. */
module DownloadLaws {
  import opened Basics
  import opened Lines
  import opened Bundles
  import opened Download

  // ----- the chunks partition the file -----

  function Concatenated(chunks: seq<Chunk>): (s: seq<byte>) {
    if chunks == [] then [] else chunks[0].data + Concatenated(chunks[1..])
  }

  /** The chunk carries the bytes that the file has at its offset. */
  predicate Carries(file: seq<byte>, chunk: Chunk) {
    chunk.offset + |chunk.data| <= |file| && chunk.data == file[chunk.offset..chunk.offset + |chunk.data|]
  }

  lemma {:induction false} ChunksFromPartition(file: seq<byte>, total: nat, offset: nat)
    requires offset <= |file|
    ensures var chunks := ChunksFrom(file, total, offset);
      && Concatenated(chunks) == file[offset..]
      && (forall k :: 0 <= k < |chunks| ==>
            && chunks[k].offset == offset + k * CHUNK_SIZE
            && chunks[k].total == total
            && Carries(file, chunks[k])
            && 0 < |chunks[k].data| <= CHUNK_SIZE
            && (k < |chunks| - 1 ==> |chunks[k].data| == CHUNK_SIZE)
            && (chunks[k].eof <==> chunks[k].offset + |chunks[k].data| == total))
    decreases |file| - offset
  {
    if offset < |file| {
      var next := if |file| - offset > CHUNK_SIZE then offset + CHUNK_SIZE else |file|;
      ChunksFromPartition(file, total, next);
      var rest := ChunksFrom(file, total, next);
      var chunks := ChunksFrom(file, total, offset);
      assert chunks[1..] == rest;
      assert file[offset..] == file[offset..next] + file[next..];
      forall k | 0 <= k < |chunks| ensures chunks[k].offset == offset + k * CHUNK_SIZE {
        if k > 0 {
          assert chunks[k] == rest[k - 1];
          assert next == offset + CHUNK_SIZE;
        }
      }
    }
  }

  /** Served from a file of the announced size: contiguous 64 KiB pieces, `eof` on the last one only. */
  lemma ChunksPartitionTheFile(file: seq<byte>)
    ensures var chunks := Chunks(file, |file|);
      && Concatenated(chunks) == file
      && (forall k :: 0 <= k < |chunks| ==>
            && chunks[k].offset == k * 65536
            && Carries(file, chunks[k])
            && 0 < |chunks[k].data| <= 65536
            && (chunks[k].eof <==> k == |chunks| - 1))
  {
    var chunks := Chunks(file, |file|);
    ChunksFromPartition(file, |file|, 0);
    hide ChunksFrom;
    assert file[0..] == file;
    forall k | 0 <= k < |chunks| ensures chunks[k].eof <==> k == |chunks| - 1 {
      if k < |chunks| - 1 {
        assert chunks[k + 1].offset < |file|;
      } else {
        LastChunkEnds(chunks, k * CHUNK_SIZE, file);
      }
    }
  }

  lemma {:induction false} DataAddsUp(chunks: seq<Chunk>, from: nat)
    requires forall k :: 0 <= k < |chunks| ==> chunks[k].offset == from + k * CHUNK_SIZE
    requires forall k :: 0 <= k < |chunks| - 1 ==> |chunks[k].data| == CHUNK_SIZE
    requires chunks != []
    ensures from + |Concatenated(chunks)| == chunks[|chunks| - 1].offset + |chunks[|chunks| - 1].data|
  {
    var rest := chunks[1..];
    if rest != [] {
      forall k | 0 <= k < |rest| ensures rest[k].offset == from + CHUNK_SIZE + k * CHUNK_SIZE {
        assert rest[k] == chunks[k + 1];
      }
      DataAddsUp(rest, from + CHUNK_SIZE);
    }
  }

  lemma LastChunkEnds(chunks: seq<Chunk>, offset: nat, file: seq<byte>)
    requires chunks == Chunks(file, |file|) && chunks != [] && offset == (|chunks| - 1) * CHUNK_SIZE
    ensures chunks[|chunks| - 1].offset + |chunks[|chunks| - 1].data| == |file|
  {
    ChunksFromPartition(file, |file|, 0);
    hide ChunksFrom;
    DataAddsUp(chunks, 0);
    assert file[0..] == file;
  }

  // ----- safety: whatever is delivered -----

  /** The client's file is always the front of the bundle while no chunk has been refused. */
  predicate Follows(r: Reception, bundle: seq<byte>) {
    r.failed || (r.received <= |bundle| && r.file == bundle[..r.received])
  }

  lemma {:induction false} ReceptionFollows(r: Reception, delivered: seq<Delivery>, bundle: seq<byte>, total: nat)
    requires Follows(r, bundle)
    requires forall k :: 0 <= k < |delivered| ==> Carries(bundle, delivered[k].chunk)
    ensures Follows(ReceivedAll(r, delivered, total), bundle)
    decreases |delivered|
  {
    if !r.failed && delivered != [] {
      var c := delivered[0].chunk;
      assert Carries(bundle, c);
      var next := Received(r, delivered[0], total);
      if !next.failed {
        assert bundle[..next.received] == bundle[..r.received] + bundle[c.offset..c.offset + |c.data|];
      }
      ReceptionFollows(next, delivered[1..], bundle, total);
    }
  }

  /** Chunks may be lost, repeated or reordered in any way: as long as each one delivered carries the
      bundle's bytes at its offset, the client reports success only for a file equal to the bundle. */
  lemma ReadyMeansEqual(bundle: seq<byte>, delivered: seq<Delivery>, finished: bool)
    requires forall k :: 0 <= k < |delivered| ==> Carries(bundle, delivered[k].chunk)
    ensures var r := ReceivedAll(FRESH, delivered, |bundle|);
      Outcome(r, finished, |bundle|).Ready? ==> r.file == bundle && Outcome(r, finished, |bundle|).received == |bundle|
  {
    assert FRESH.file == bundle[..0];
    ReceptionFollows(FRESH, delivered, bundle, |bundle|);
    var r := ReceivedAll(FRESH, delivered, |bundle|);
    assert r.received == |bundle| ==> bundle[..r.received] == bundle;
  }

  // ----- when a download succeeds -----

  /** Each delivered chunk starts where those before it ended, names the right total and can be written. */
  predicate InOrder(delivered: seq<Delivery>, from: nat, total: nat)
    decreases |delivered|
  {
    delivered == [] || (
      && delivered[0].chunk.offset == from
      && delivered[0].chunk.total == total
      && delivered[0].writable
      && InOrder(delivered[1..], from + |delivered[0].chunk.data|, total))
  }

  function Bytes(delivered: seq<Delivery>): (n: nat) {
    if delivered == [] then 0 else |delivered[0].chunk.data| + Bytes(delivered[1..])
  }

  lemma {:induction false} FailureSticks(r: Reception, delivered: seq<Delivery>, total: nat)
    requires !r.failed
    ensures var s := ReceivedAll(r, delivered, total);
      && (s.failed <==> !InOrder(delivered, r.received, total))
      && (!s.failed ==> s.received == r.received + Bytes(delivered))
    decreases |delivered|
  {
    if delivered != [] {
      var next := Received(r, delivered[0], total);
      if !next.failed {
        FailureSticks(next, delivered[1..], total);
      }
    }
  }

  /** A download succeeds exactly when the call ends well and what arrived is one gapless run of writable
      chunks of the announced total; otherwise the first of these that fails is reported. */
  lemma ReadyExactlyWhen(delivered: seq<Delivery>, finished: bool, total: nat)
    ensures var outcome := Outcome(ReceivedAll(FRESH, delivered, total), finished, total);
      var inOrder, complete := InOrder(delivered, 0, total), Bytes(delivered) == total;
      && (outcome.Ready? <==> finished && inOrder && complete)
      && (outcome.Ready? ==> outcome.received == total)
      && (outcome == InvalidOrUnwritable <==> !inOrder)
      && (outcome == TransportError <==> inOrder && !finished)
      && (outcome == SizeMismatch <==> inOrder && finished && !complete)
  {
    FailureSticks(FRESH, delivered, total);
  }

  lemma {:induction false} ProgressGrows(r: Reception, delivered: seq<Delivery>, total: nat)
    requires !r.failed
    ensures var s, n := ReceivedAll(r, delivered, total), |r.progress|;
      && r.progress <= s.progress && |s.progress| <= n + |delivered|
      && (!s.failed ==> |s.progress| == n + |delivered|)
      && forall i :: n <= i < |s.progress| ==> s.progress[i] == r.received + Bytes(delivered[..i - n + 1])
    decreases |delivered|
  {
    if delivered != [] {
      var next, n := Received(r, delivered[0], total), |r.progress|;
      if !next.failed {
        ProgressGrows(next, delivered[1..], total);
        var s := ReceivedAll(next, delivered[1..], total);
        forall i | n <= i < |s.progress| ensures s.progress[i] == r.received + Bytes(delivered[..i - n + 1]) {
          assert delivered[..i - n + 1][1..] == delivered[1..][..i - n];
          assert i == n ==> s.progress[i] == next.progress[n];
        }
      }
    }
  }

  /** Progress is reported for each chunk accepted: the number of bytes of the chunks so far, which on
      success ends at the announced total. */
  lemma ProgressIsBytes(delivered: seq<Delivery>, finished: bool, total: nat)
    ensures var r := ReceivedAll(FRESH, delivered, total);
      && |r.progress| <= |delivered|
      && (forall i :: 0 <= i < |r.progress| ==> r.progress[i] == Bytes(delivered[..i + 1]))
      && (Outcome(r, finished, total).Ready? ==>
            && |r.progress| == |delivered|
            && (total > 0 ==> delivered != [] && r.progress[|delivered| - 1] == total))
  {
    ProgressGrows(FRESH, delivered, total);
    ReadyExactlyWhen(delivered, finished, total);
    hide ReceivedAll, InOrder;
    assert delivered[..|delivered|] == delivered;
  }

  /** The first chunks of a list arrive, each with its own luck in being written. */
  predicate Arrives(delivered: seq<Delivery>, chunks: seq<Chunk>) {
    |delivered| <= |chunks| && forall k :: 0 <= k < |delivered| ==> delivered[k].chunk == chunks[k]
  }

  predicate AllWritable(delivered: seq<Delivery>) {
    forall k :: 0 <= k < |delivered| ==> delivered[k].writable
  }

  lemma {:induction false} PrefixOfChunks(file: seq<byte>, total: nat, offset: nat, delivered: seq<Delivery>)
    requires offset <= |file|
    requires Arrives(delivered, ChunksFrom(file, total, offset))
    ensures InOrder(delivered, offset, total) <==> AllWritable(delivered)
    ensures offset + Bytes(delivered) == Min(offset + |delivered| * CHUNK_SIZE, |file|)
    decreases |delivered|
  {
    if delivered != [] {
      var next := if |file| - offset > CHUNK_SIZE then offset + CHUNK_SIZE else |file|;
      var chunks, rest := ChunksFrom(file, total, offset), delivered[1..];
      assert delivered[0].chunk == chunks[0];
      assert chunks[1..] == ChunksFrom(file, total, next);
      assert forall k :: 0 <= k < |rest| ==> rest[k] == delivered[k + 1];
      PrefixOfChunks(file, total, next, rest);
    }
  }

  /** One download from the archive to the file, whatever part of it can be read, whatever size the registry
      announces, and wherever it is cancelled, refused, cut or unwritable: `delivered` is what arrives of what
      the agent sends, and the client sees an OK status only after all of it and only if the agent ended in
      one. Success is reported exactly when it sees one, every chunk could be written, and the chunks sent
      reach exactly to the announced size; the file is then that much of the archive. */
  lemma {:induction false} DownloadSucceedsExactlyWhen(
    readable: seq<byte>, damaged: bool, totalSize: nat, cancelAt: nat, accepts: nat,
    delivered: seq<Delivery>, finished: bool)
    requires Arrives(delivered, ChunksSent(readable, totalSize, cancelAt, accepts))
    requires finished ==>
      && EndsInOk(readable, damaged, totalSize, cancelAt, accepts)
      && |delivered| == |ChunksSent(readable, totalSize, cancelAt, accepts)|
    ensures var r := ReceivedAll(FRESH, delivered, totalSize);
      && (Outcome(r, finished, totalSize).Ready? <==>
            && finished && AllWritable(delivered)
            && Min(Min(cancelAt, accepts) * 65536, |readable|) == totalSize)
      && (Outcome(r, finished, totalSize).Ready? ==> r.file == readable[..totalSize])
  {
    hide ReceivedAll, InOrder, Bytes, EmptyRounds, AllWritable;
    var all := Chunks(readable, totalSize);
    PrefixOfChunks(readable, totalSize, 0, delivered);
    ReadyExactlyWhen(delivered, finished, totalSize);
    ChunksFromPartition(readable, totalSize, 0);
    ChunksCover(readable, totalSize);
    hide ChunksFrom;
    forall k | 0 <= k < |delivered| ensures Carries(readable, delivered[k].chunk) {
      assert delivered[k].chunk == all[k];
    }
    assert FRESH.file == readable[..0];
    ReceptionFollows(FRESH, delivered, readable, totalSize);
  }

  lemma ChunksCover(file: seq<byte>, total: nat)
    ensures (|Chunks(file, total)| - 1) * CHUNK_SIZE < |file| <= |Chunks(file, total)| * CHUNK_SIZE || file == []
  {
    ChunksCoverFrom(file, total, 0);
  }

  lemma {:induction false} ChunksCoverFrom(file: seq<byte>, total: nat, offset: nat)
    requires offset <= |file|
    ensures var n := |ChunksFrom(file, total, offset)|;
      && |file| <= offset + n * CHUNK_SIZE
      && (n > 0 ==> offset + (n - 1) * CHUNK_SIZE < |file|)
    decreases |file| - offset
  {
    if offset < |file| {
      var next := if |file| - offset > CHUNK_SIZE then offset + CHUNK_SIZE else |file|;
      ChunksCoverFrom(file, total, next);
    }
  }

  function Deliveries(chunks: seq<Chunk>): (d: seq<Delivery>)
    ensures |d| == |chunks|
    ensures forall k :: 0 <= k < |d| ==> d[k] == Delivery(chunks[k], true)
  {
    seq(|chunks|, k requires 0 <= k < |chunks| => Delivery(chunks[k], true))
  }

  /** A stream cut short after any number of chunks: success exactly when all of them arrived. */
  lemma CutStreamSucceedsExactlyWhen(bundle: seq<byte>, n: nat, finished: bool)
    requires n <= |Chunks(bundle, |bundle|)|
    ensures var all := Chunks(bundle, |bundle|);
      var r := ReceivedAll(FRESH, Deliveries(all[..n]), |bundle|);
      && (Outcome(r, finished, |bundle|).Ready? <==> finished && n == |all|)
      && (n == |all| ==> r.file == bundle)
  {
    hide ReceivedAll, InOrder, Bytes;
    var all := Chunks(bundle, |bundle|);
    var d := Deliveries(all[..n]);
    PrefixOfChunks(bundle, |bundle|, 0, d);
    ChunksCoverFrom(bundle, |bundle|, 0);
    hide ChunksFrom;
    ReadyExactlyWhen(d, finished, |bundle|);
    ReadyExactlyWhen(d, true, |bundle|);
    ChunksPartitionTheFile(bundle);
    forall k | 0 <= k < |d| ensures Carries(bundle, d[k].chunk) {
      assert d[k].chunk == all[k];
    }
    ReadyMeansEqual(bundle, d, true);
  }

  // ----- the status -----

  lemma ChunkCount(file: seq<byte>, total: nat)
    ensures var n := |Chunks(file, total)|;
      n == |file| / 65536 + (if |file| % 65536 == 0 then 0 else 1)
  {
    ChunksCoverFrom(file, total, 0);
    hide ChunksFrom;
  }

  /** In bytes: the call ends in OK exactly when the client stopped taking chunks before the end, or it was
      cancelled by the round that sees the end, or the archive could be read to its end and has the announced
      size. */
  lemma StatusExactlyWhen(readable: seq<byte>, damaged: bool, totalSize: nat, cancelAt: nat, accepts: nat)
    ensures EndsInOk(readable, damaged, totalSize, cancelAt, accepts) <==>
      || accepts * 65536 < |readable|
      || cancelAt <= |readable| / 65536 + 1
      || (!damaged && |readable| == totalSize)
  {
    ChunkCount(readable, totalSize);
    hide ChunksFrom;
  }

  /** Nothing disturbs the call: the agent's chunks and its status make the client report the whole bundle. */
  lemma UndisturbedDownloadSucceeds(bundle: seq<byte>, cancelAt: nat, accepts: nat)
    requires cancelAt > |bundle| / 65536 + 1 && accepts * 65536 >= |bundle|
    ensures var sent := ChunksSent(bundle, |bundle|, cancelAt, accepts);
      var ok := EndsInOk(bundle, false, |bundle|, cancelAt, accepts);
      var r := ReceivedAll(FRESH, Deliveries(sent), |bundle|);
      && Outcome(r, ok, |bundle|) == Ready(|bundle|)
      && r.file == bundle
  {
    hide ReceivedAll, ChunksFrom, EndsInOk, InOrder, Bytes;
    var all := Chunks(bundle, |bundle|);
    ChunkCount(bundle, |bundle|);
    StatusExactlyWhen(bundle, false, |bundle|, cancelAt, accepts);
    assert all[..|all|] == all;
    CutStreamSucceedsExactlyWhen(bundle, |all|, true);
    ReadyExactlyWhen(Deliveries(all), true, |bundle|);
  }
}
