/** The chunked download of a diagnostic bundle: the agent's chunk loop and the client's receiver. */
module Download {
  import opened Basics
  import opened Lines
  import opened Bundles

  const CHUNK_SIZE: nat := 65536

  datatype Chunk = Chunk(data: seq<byte>, offset: nat, total: nat, eof: bool)

  // ----- the agent -----

  /** The chunks that a file yields from `offset` on when the registry says it has `total` bytes. */
  function ChunksFrom(file: seq<byte>, total: nat, offset: nat): (chunks: seq<Chunk>)
    requires offset <= |file|
    decreases |file| - offset
  {
    if offset == |file| then []
    else
      var next := if |file| - offset > CHUNK_SIZE then offset + CHUNK_SIZE else |file|;
      [Chunk(file[offset..next], offset, total, next == total)] + ChunksFrom(file, total, next)
  }

  function Chunks(file: seq<byte>, total: nat): (chunks: seq<Chunk>) {
    ChunksFrom(file, total, 0)
  }

  function Min(a: nat, b: nat): nat {
    if a < b then a else b
  }

  /** Whether the loop needs one more round, which reads nothing, to see the end of the file. */
  function EmptyRounds(file: seq<byte>): nat {
    if |file| % CHUNK_SIZE == 0 then 1 else 0
  }

  lemma NextChunk(file: seq<byte>, total: nat, offset: nat, rounds: nat)
    requires offset == rounds * CHUNK_SIZE <= |file|
    ensures var count := Min(CHUNK_SIZE, |file| - offset);
      && ChunksFrom(file, total, offset) ==
           (if count == 0 then []
            else [Chunk(file[offset..offset + count], offset, total, offset + count == total)]
                 + ChunksFrom(file, total, offset + count))
      && (count < CHUNK_SIZE ==> ChunksFrom(file, total, offset + count) == [])
      && (count < CHUNK_SIZE ==> offset + count == |file| && EmptyRounds(file) == if count == 0 then 1 else 0)
  {
  }

  /** What is written: chunks until the file ends, the client takes no more, or the call is cancelled. */
  function ChunksSent(readable: seq<byte>, totalSize: nat, cancelAt: nat, accepts: nat): (sent: seq<Chunk>) {
    var all := Chunks(readable, totalSize);
    all[..Min(|all|, Min(cancelAt, accepts))]
  }

  /** When the call ends with an OK status: a cut stream does, a complete one if it was read well. */
  predicate EndsInOk(readable: seq<byte>, damaged: bool, totalSize: nat, cancelAt: nat, accepts: nat) {
    var all := Chunks(readable, totalSize);
    || |all| > Min(cancelAt, accepts)
    || cancelAt <= |all| + EmptyRounds(readable)
    || (!damaged && |readable| == totalSize)
  }

  /** `readable` is the part of the archive that can be read before a device error, if `damaged`. The client
      takes `accepts` chunks before `Write` fails, and cancellation shows after `cancelAt` rounds. */
  method DownloadDiagnosticBundle(
    readable: seq<byte>, damaged: bool, totalSize: nat, cancelAt: nat, accepts: nat)
    returns (sent: seq<Chunk>, ok: bool)
    ensures sent == ChunksSent(readable, totalSize, cancelAt, accepts)
    ensures ok <==> EndsInOk(readable, damaged, totalSize, cancelAt, accepts)
  {
    hide ChunksFrom, EmptyRounds;
    var offset: nat, rounds: nat := 0, 0;
    var input := true;
    sent := [];
    ghost var all := Chunks(readable, totalSize);
    ghost var rest := all;
    while rounds < cancelAt && input
      invariant offset <= |readable|
      invariant all == sent + rest
      invariant rest == ChunksFrom(readable, totalSize, offset)
      invariant rounds <= cancelAt && |sent| <= rounds && |sent| <= accepts
      invariant input ==> offset == rounds * CHUNK_SIZE && |sent| == rounds
      invariant !input ==> offset == |readable| && rest == [] && rounds == |all| + EmptyRounds(readable)
      decreases input, |readable| - offset
    {
      NextChunk(readable, totalSize, offset, rounds);
      var count := if |readable| - offset < CHUNK_SIZE then |readable| - offset else CHUNK_SIZE;
      input := count == CHUNK_SIZE;
      rounds := rounds + 1;
      if count == 0 {
        break;
      }
      var chunk := Chunk(readable[offset..offset + count], offset, totalSize, offset + count == totalSize);
      if |sent| == accepts {
        return sent, true;
      }
      offset := offset + count;
      rest := ChunksFrom(readable, totalSize, offset);
      Associate(sent, [chunk], rest);
      sent := sent + [chunk];
    }
    if rounds >= cancelAt {
      return sent, true;
    }
    ok := !damaged && offset == totalSize;
  }

  // ----- the client -----

  datatype DownloadOutcome =
    | CreateFailed
    | CannotOpen
    | InvalidOrUnwritable
    | TransportError
    | SizeMismatch
    | Ready(received: nat)

  /** A chunk that arrives, and whether the local write of its data succeeds. */
  datatype Delivery = Delivery(chunk: Chunk, writable: bool)

  /** `progress` is the number of bytes reported after each chunk. */
  datatype Reception = Reception(received: nat, file: seq<byte>, failed: bool, progress: seq<nat>)

  const FRESH := Reception(0, [], false, [])

  /** What the callback does with one chunk. */
  function Received(r: Reception, d: Delivery, total: nat): Reception {
    if d.chunk.offset != r.received || d.chunk.total != total || !d.writable then r.(failed := true)
    else
      var received := r.received + |d.chunk.data|;
      Reception(received, r.file + d.chunk.data, false, r.progress + [received])
  }

  /** The client stops reading after the first chunk that its callback refuses. */
  function ReceivedAll(r: Reception, delivered: seq<Delivery>, total: nat): Reception
    decreases |delivered|
  {
    if r.failed || delivered == [] then r
    else ReceivedAll(Received(r, delivered[0], total), delivered[1..], total)
  }

  function Outcome(r: Reception, finished: bool, total: nat): DownloadOutcome {
    if r.failed then InvalidOrUnwritable
    else if !finished then TransportError
    else if r.received != total then SizeMismatch
    else Ready(r.received)
  }

  class DiagnosticReceiver {
    const total: nat
    var received: nat
    var file: seq<byte>
    var localWriteFailed: bool
    var progress: seq<nat>

    constructor (total: nat)
      ensures this.total == total && State() == FRESH
    {
      this.total := total;
      received, file, localWriteFailed, progress := 0, [], false, [];
    }

    function State(): Reception
      reads this
    {
      Reception(received, file, localWriteFailed, progress)
    }

    method OnChunk(d: Delivery) returns (more: bool)
      requires !localWriteFailed
      modifies this
      ensures State() == Received(old(State()), d, total)
      ensures more == !localWriteFailed
    {
      if d.chunk.offset != received || d.chunk.total != total {
        localWriteFailed := true;
        return false;
      }
      if !d.writable {
        localWriteFailed := true;
        return false;
      }
      file := file + d.chunk.data;
      received := received + |d.chunk.data|;
      progress := progress + [received];
      return true;
    }

    /** Reads the stream until it ends or a chunk is refused. */
    method ReadAll(delivered: seq<Delivery>)
      requires !localWriteFailed
      modifies this
      ensures State() == ReceivedAll(old(State()), delivered, total)
    {
      var i := 0;
      assert delivered[0..] == delivered;
      while i < |delivered|
        invariant 0 <= i <= |delivered|
        invariant !localWriteFailed
        invariant ReceivedAll(old(State()), delivered, total) == ReceivedAll(State(), delivered[i..], total)
      {
        assert delivered[i..][1..] == delivered[i + 1..];
        var more := OnChunk(delivered[i]);
        i := i + 1;
        if !more {
          return;
        }
      }
    }
  }

  /** `before` is what the destination held; `delivered` is whatever part of the stream arrives, `finished`
      whether the call then ends with an OK status, `lost` what is on disk instead if closing the file fails,
      and `removable` whether a failed download's file can be removed. Nobody looks at how closing went. */
  method CreateAndDownloadDiagnostic(
    createdTotal: Option<nat>, before: Option<seq<byte>>, openable: bool,
    delivered: seq<Delivery>, finished: bool, lost: Option<seq<byte>>, removable: bool)
    returns (outcome: DownloadOutcome, destination: Option<seq<byte>>, progress: seq<nat>)
    ensures createdTotal.None? ==> outcome == CreateFailed && destination == before && progress == []
    ensures createdTotal.Some? && !openable ==> outcome == CannotOpen && destination == before && progress == []
    ensures createdTotal.Some? && openable ==>
      var r := ReceivedAll(FRESH, delivered, createdTotal.value);
      && outcome == Outcome(r, finished, createdTotal.value)
      && progress == r.progress
      && (outcome.Ready? ==> destination == if lost.None? then Some(r.file) else lost)
      && (!outcome.Ready? ==> (destination == None <==> removable))
  {
    progress := [];
    if createdTotal.None? {
      return CreateFailed, before, progress;
    }
    if !openable {
      return CannotOpen, before, progress;
    }
    var receiver := new DiagnosticReceiver(createdTotal.value);
    receiver.ReadAll(delivered);
    progress := receiver.progress;
    destination := if lost.None? then Some(receiver.file) else lost;
    if receiver.localWriteFailed || !finished || receiver.received != createdTotal.value {
      if removable {
        destination := None;
      }
      if receiver.localWriteFailed {
        outcome := InvalidOrUnwritable;
      } else if !finished {
        outcome := TransportError;
      } else {
        outcome := SizeMismatch;
      }
      return;
    }
    outcome := Ready(receiver.received);
  }
}
