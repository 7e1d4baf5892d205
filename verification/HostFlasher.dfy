/** The host side of the flash download (scripts/runner/ardep-uds.py), run against the engine. */
module HostFlasher {
  import opened Iso14229
  import opened Sequences
  import opened Blocks
  import opened NorFlash
  import opened UploadDownload
  import opened TransferRuns
  import FileTransfer

  /** Each block's last write block, padding included, still lies on the device. */
  predicate PaddingFits(blocks: seq<seq<byte>>, at: nat, writeBlock: nat, flashSize: nat)
    requires writeBlock > 0
  {
    blocks == [] ||
    (at + Padded(|blocks[0]|, writeBlock) <= flashSize && PaddingFits(blocks[1..], at + |blocks[0]|, writeBlock, flashSize))
  }

  /** When the block size is a multiple of the write block size no block but the last is padded, a base aligned to the
      write block keeps every block aligned, and the padding stays inside the requested range. */
  lemma {:induction false} OnlyLastBlockPadded(image: seq<byte>, blockSize: nat, writeBlock: nat, at: nat,
                                               flashSize: nat)
    requires blockSize > 0 && writeBlock > 0 && blockSize % writeBlock == 0
    requires at + |Split(image, blockSize)| * blockSize <= flashSize
    ensures forall i :: 0 <= i < |Split(image, blockSize)| - 1 ==>
              Padded(|Split(image, blockSize)[i]|, writeBlock) == |Split(image, blockSize)[i]|
    ensures PaddingFits(Split(image, blockSize), at, writeBlock, flashSize)
    decreases |image|
  {
    SplitCovers(image, blockSize);
    var blocks := Split(image, blockSize);
    if image == [] {
    } else if |image| <= blockSize {
      PaddedIsLeastMultiple(|image|, writeBlock, blockSize);
    } else {
      var rest := image[blockSize..];
      var tail := Split(rest, blockSize);
      assert blocks[1..] == tail && |blocks[0]| == blockSize;
      assert |blocks| * blockSize == |tail| * blockSize + blockSize;
      OnlyLastBlockPadded(rest, blockSize, writeBlock, at + blockSize, flashSize);
      forall i | 0 <= i < |blocks| - 1
        ensures Padded(|blocks[i]|, writeBlock) == |blocks[i]|
      {
        if i > 0 {
          assert blocks[i] == tail[i - 1];
        }
      }
    }
  }

  datatype Outcome = Finished | Refused(nrc: Nrc) | Aborted(block: nat, nrc: Nrc)

  function DataRequest(data: seq<byte>, faults: (Fault, Fault)): Event
  {
    TransferData(data, 0, Environment(faults.0, faults.1, false, FileTransfer.Fails(0),
                                      FileTransfer.ReadTry(0, FileTransfer.Fails(0), false, Positive)))
  }

  /** The engine in the middle of taking an image: k bytes of it have landed. */
  ghost predicate Taking(engine: Engine, before: seq<byte>, image: seq<byte>, at: nat, total: nat, k: nat)
    reads engine, engine.cells, engine.files
  {
    && engine.Valid() && engine.mode == Downloading && engine.files.mode == FileTransfer.Idle
    && engine.startAddress == at && engine.totalSize == total && engine.writeBlockSize == engine.board.writeBlock
    && engine.currentAddress == at + k
    && ImageUpTo(before, engine.cells[..], at, image, k)
  }

  /** One TransferData request with the next block: it lands, or the device fails and the rest is as before. */
  method TransferBlock(engine: Engine, ghost before: seq<byte>, ghost image: seq<byte>, ghost at: nat,
                       ghost total: nat, ghost k: nat, data: seq<byte>, faults: (Fault, Fault)) returns (nrc: Nrc)
    requires Taking(engine, before, image, at, total, k)
    requires IsPiece(image, k, data) && 0 < |data| < 0x1_0000 && k + |data| <= total
    modifies engine, engine.cells, engine.files
    ensures nrc == Positive || nrc == GeneralProgrammingFailure
    ensures Taking(engine, before, image, at, total, if nrc == Positive then k + |data| else k)
    ensures faults == (NoFault, NoFault) ==>
              (nrc == Positive <==> at + k + Padded(|data|, engine.board.writeBlock) <= engine.cells.Length)
  {
    ghost var m := engine.Now();
    nrc := HandleData(engine, data, faults);
    PieceSettles(before, image, at, k, m, data, faults, engine.Now(), nrc);
  }

  method HandleData(engine: Engine, data: seq<byte>, faults: (Fault, Fault)) returns (nrc: Nrc)
    requires engine.Valid() && engine.mode == Downloading && |data| < 0x1_0000
    modifies engine, engine.cells, engine.files
    ensures engine.Valid() && DownloadStep(old(engine.Now()), data, faults.0, faults.1, engine.Now(), nrc)
  {
    ghost var m := engine.Now();
    ghost var e := DataRequest(data, faults);
    var a := engine.Handle(DataRequest(data, faults));
    DataStep(engine.board, m, e, a, engine.Now());
    nrc := a.nrc;
  }

  lemma PieceSettles(before: seq<byte>, image: seq<byte>, at: nat, k: nat, m: State, data: seq<byte>,
                     faults: (Fault, Fault), s: State, nrc: Nrc)
    requires m.t.mode == Downloading && m.t.block > 0 && DownloadStep(m, data, faults.0, faults.1, s, nrc)
    requires m.t.cursor == at + k && IsPiece(image, k, data) && data != []
    requires m.t.cursor + |data| <= m.t.start + m.t.total && ImageUpTo(before, m.flash, at, image, k)
    ensures ImageUpTo(before, s.flash, at, image, if nrc == Positive then k + |data| else k)
  {
    if nrc == Positive {
      ChunkLands(before, m.flash, at, image, k, |data|);
    } else {
      ChunkTears(before, m.flash, s.flash, at, image, k, |data|);
    }
  }

  /** The host's loop over the blocks. */
  method SendBlocks(engine: Engine, ghost before: seq<byte>, ghost image: seq<byte>, ghost at: nat, ghost total: nat,
                    allBlocks: seq<seq<byte>>, faults: nat -> (Fault, Fault)) returns (aborted: Option<nat>)
    requires Taking(engine, before, image, at, total, 0) && |image| <= total
    requires Concat(allBlocks) == image && forall j :: 0 <= j < |allBlocks| ==> 0 < |allBlocks[j]| < 0x1_0000
    modifies engine, engine.cells, engine.files
    ensures aborted.None? ==> Taking(engine, before, image, at, total, |image|)
    ensures aborted.Some? ==> exists k :: Taking(engine, before, image, at, total, k)
    ensures (forall i :: faults(i) == (NoFault, NoFault)) ==>
              (aborted.None? <==> PaddingFits(allBlocks, at, engine.board.writeBlock, engine.cells.Length))
  {
    var blocks, blockCount := allBlocks, |allBlocks|;
    ghost var k: nat := 0;
    for i := 0 to blockCount
      invariant |blocks| == blockCount - i
      invariant Taking(engine, before, image, at, total, k) && k <= |image| && Concat(blocks) == image[k..]
      invariant forall j :: 0 <= j < |blocks| ==> 0 < |blocks[j]| < 0x1_0000
      invariant (forall j :: faults(j) == (NoFault, NoFault)) ==>
                  (PaddingFits(allBlocks, at, engine.board.writeBlock, engine.cells.Length) <==>
                   PaddingFits(blocks, at + k, engine.board.writeBlock, engine.cells.Length))
    {
      var data := blocks[0];
      NextPiece(image, k, blocks);
      var nrc := TransferBlock(engine, before, image, at, total, k, data, faults(i));
      if nrc != Positive {
        return Some(i);
      }
      blocks, k := blocks[1..], k + |data|;
    }
    return None;
  }

  lemma NextPiece(image: seq<byte>, k: nat, blocks: seq<seq<byte>>)
    requires k <= |image| && blocks != [] && Concat(blocks) == image[k..]
    ensures IsPiece(image, k, blocks[0])
    ensures Concat(blocks[1..]) == image[k + |blocks[0]|..]
  {
    var data := blocks[0];
    assert data + Concat(blocks[1..]) == image[k..];
    assert data == image[k..][..|data|] == image[k..k + |data|];
    assert Concat(blocks[1..]) == image[k..][|data|..] == image[k + |data|..];
  }

  /** upload_firmware: request the range, send the blocks one by one, exit. A negative answer raises, so the host
      stops there. The device's faults are arbitrary. */
  method UploadFirmware(engine: Engine, image: seq<byte>, base: nat, blockSize: nat, faults: nat -> (Fault, Fault))
    returns (outcome: Outcome)
    requires engine.Valid() && 0 < blockSize < 0x1_0000 && base < WORD
    requires Normalise(engine.board, base) + |Split(image, blockSize)| * blockSize < WORD
    requires Normalise(engine.board, base) + |image| <= engine.cells.Length ==>
               ErasedFrom(engine.cells[..], Normalise(engine.board, base), |image|)
    modifies engine, engine.cells, engine.files
    ensures engine.Valid()
    // only the download request can be refused for its range; later failures are the device's
    ensures outcome.Refused? <==>
              !(&& engine.board.ready && engine.board.writeBlock <= MAX_WRITE_BLOCK
                && InRange(engine.board, engine.cells.Length, base, |Split(image, blockSize)| * blockSize)
                && ExitCode(old(engine.Now())) != GeneralProgrammingFailure)
    ensures outcome.Refused? ==> engine.cells[..] == old(engine.cells[..])
    ensures outcome.Aborted? ==> outcome.nrc == GeneralProgrammingFailure
    // nothing outside the image's place changes, and a finished transfer has put the image there
    ensures !outcome.Refused? ==>
              var at := if base <= engine.board.flashBase then base else base - engine.board.flashBase;
              && at + |image| <= engine.cells.Length
              && (forall i :: 0 <= i < engine.cells.Length && !(at <= i < at + |image|) ==>
                    engine.cells[i] == old(engine.cells[..])[i])
              && (outcome.Finished? ==>
                    && engine.mode == Idle && engine.files.mode == FileTransfer.Idle
                    && engine.cells[at..at + |image|] == image)
    // on a device without faults an accepted transfer finishes exactly when the padding fits on the device
    ensures !outcome.Refused? && (forall i :: faults(i) == (NoFault, NoFault)) ==>
              (outcome.Finished? <==>
               PaddingFits(Split(image, blockSize), Normalise(engine.board, base), engine.board.writeBlock,
                           engine.cells.Length))
  {
    ghost var before := engine.cells[..];
    var blocks := Split(image, blockSize);
    SplitCovers(image, blockSize);
    var a := engine.Handle(RequestDownload(base, |blocks| * blockSize, 0));
    if a.nrc != Positive {
      return Refused(a.nrc);
    }
    ghost var at := Normalise(engine.board, base);
    ErasedIsProgrammable(before, at, image);
    var aborted := SendBlocks(engine, before, image, at, |blocks| * blockSize, blocks, faults);
    if aborted.Some? {
      return Aborted(aborted.value, GeneralProgrammingFailure);
    }
    a := engine.Handle(TransferExit);
    return Finished;
  }

  // ---- reading back ------------------------------------------------------------------------------------------------

  /** Reading a range that holds an image returns the image, in any run of data requests that may fail no read. */
  lemma UploadReturnsImage(board: Board, states: seq<State>, events: seq<Event>, answers: seq<Answer>,
                           image: seq<byte>, at: nat, i: nat)
    requires Run(board, states, events, answers) && DataRequests(events)
    requires states[0].Valid() && Fits(board, |states[0].flash|)
    requires states[0].t.mode == Uploading && states[0].t.cursor == states[0].t.start == at
    requires states[0].t.total == |image| <= i < |events|
    requires states[0].flash[at..at + |image|] == image
    ensures Sent(answers, i) == image
  {
    UploadFinishes(board, states, events, answers, i);
  }

  function ReadRequest(limit: nat): Event
  {
    TransferData([], limit, Environment(NoFault, NoFault, false, FileTransfer.Fails(0),
                                        FileTransfer.ReadTry(0, FileTransfer.Fails(0), false, Positive)))
  }

  /** The engine in the middle of sending an image back. */
  ghost predicate Sending(engine: Engine, image: seq<byte>, at: nat, sent: seq<byte>)
    reads engine, engine.cells, engine.files
  {
    && engine.Valid() && engine.mode == Uploading && engine.files.mode == FileTransfer.Idle
    && engine.startAddress == at && engine.totalSize == |image| && engine.currentAddress == at + |sent|
    && at + |image| <= engine.cells.Length && engine.cells[at..at + |image|] == image
    && |sent| <= |image| && sent == image[..|sent|]
  }

  lemma NextSlice(cells: seq<byte>, image: seq<byte>, at: nat, k: nat, n: nat)
    requires at + |image| <= |cells| && cells[at..at + |image|] == image && k + n <= |image|
    ensures image[..k] + cells[at + k..at + k + n] == image[..k + n]
  {
    SliceOfSlice(cells, at, at + |image|, k, k + n);
  }

  lemma SliceOfSlice<T>(s: seq<T>, a: nat, b: nat, c: nat, d: nat)
    requires a <= b <= |s| && c <= d <= b - a
    ensures s[a..b][c..d] == s[a + c..a + d]
  {
    var x, y := s[a..b][c..d], s[a + c..a + d];
    forall j | 0 <= j < |x|
      ensures x[j] == y[j]
    {
      assert x[j] == s[a..b][c + j] == s[a + (c + j)];
    }
  }

  method ReadBlock(engine: Engine, ghost image: seq<byte>, ghost at: nat, sent: seq<byte>, limit: nat)
    returns (more: seq<byte>)
    requires Sending(engine, image, at, sent)
    modifies engine, engine.cells, engine.files
    ensures Sending(engine, image, at, sent + more)
    ensures limit > 0 && |sent| < |image| ==> more != []
  {
    ghost var m, e := engine.Now(), ReadRequest(limit);
    var a := engine.Handle(ReadRequest(limit));
    DataStep(engine.board, m, e, a, engine.Now());
    more := a.sent;
    NextSlice(m.flash, image, at, |sent|, |more|);
  }

  /** Flashing an image and reading the range back with an upload: a flash that finished is followed by an accepted
      upload, whose responses are the image from its beginning, however they are cut, and all of it once there were as
      many requests as bytes. */
  method FlashAndReadBack(engine: Engine, image: seq<byte>, base: nat, blockSize: nat, faults: nat -> (Fault, Fault),
                          maxBlock: nat, limits: seq<nat>) returns (outcome: Outcome, sent: seq<byte>)
    requires engine.Valid() && 0 < blockSize < 0x1_0000 && base < WORD
    requires Normalise(engine.board, base) + |Split(image, blockSize)| * blockSize < WORD
    requires Normalise(engine.board, base) + |image| <= engine.cells.Length ==>
               ErasedFrom(engine.cells[..], Normalise(engine.board, base), |image|)
    modifies engine, engine.cells, engine.files
    ensures outcome.Finished? ==>
              var at := if base <= engine.board.flashBase then base else base - engine.board.flashBase;
              Sending(engine, image, at, sent)
    ensures outcome.Finished? ==> |sent| <= |image| && sent == image[..|sent|]
    ensures outcome.Finished? && (forall i :: 0 <= i < |limits| ==> limits[i] > 0) && |limits| >= |image| ==> sent == image
  {
    sent := [];
    outcome := UploadFirmware(engine, image, base, blockSize, faults);
    if !outcome.Finished? {
      return;
    }
    ghost var at := Normalise(engine.board, base);
    SplitCovers(image, blockSize);
    var a := engine.Handle(RequestUpload(base, |image|, maxBlock));
    for i := 0 to |limits|
      invariant Sending(engine, image, at, sent)
      invariant (forall k :: 0 <= k < |limits| ==> limits[k] > 0) ==> |sent| >= Least(i, |image|)
    {
      var more := ReadBlock(engine, image, at, sent, limits[i]);
      sent := sent + more;
    }
  }
}
