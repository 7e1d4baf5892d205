/** The flash transfers and their coupling to the file transfers (lib/uds/upload_download.c). */
module UploadDownload {
  import opened Iso14229
  import opened NorFlash
  import opened Blocks
  import FileTransfer

  const MAX_WRITE_BLOCK := 32
  const WORD: nat := 0x1_0000_0000

  /** uintptr_t arithmetic on the 32-bit target. */
  function Wrap(n: nat): (r: nat)
    ensures r < WORD && (n < WORD ==> r == n) && (WORD <= n < 2 * WORD ==> r == n - WORD)
  {
    n % WORD
  }

  datatype Mode = Idle | Downloading | Uploading

  datatype Transfer = Transfer(mode: Mode, start: nat, cursor: nat, total: nat, block: nat)
  {
    ghost predicate Valid(flashSize: nat)
    {
      && (mode != Idle ==> start <= cursor <= start + total <= flashSize)
      && (mode == Downloading ==> 0 < block <= MAX_WRITE_BLOCK)
    }
  }

  /** The device and the configuration the code is built for. */
  datatype Board = Board(ready: bool, flashBase: nat, writeBlock: nat, maxPayload: nat)

  /** Sums of a flash address and a 16-bit length stay inside a machine word. */
  ghost predicate Fits(board: Board, flashSize: nat)
  {
    board.writeBlock > 0 && board.maxPayload > 0 && flashSize + 0x1_0000 <= WORD
  }

  /** An address above the flash base becomes an offset; the base itself is left as it is. */
  function Normalise(board: Board, addr: nat): nat
  {
    if addr > board.flashBase then addr - board.flashBase else addr
  }

  /** Bytes from a machine address onward: the offset meant by an address inside the flash is the one computed
      exactly when the address is not the flash base itself (or the flash sits at zero). */
  lemma NormaliseIsOffset(board: Board, addr: nat)
    requires board.flashBase <= addr
    ensures Normalise(board, addr) == addr - board.flashBase <==> addr != board.flashBase || board.flashBase == 0
  {
  }

  predicate InRange(board: Board, flashSize: nat, addr: nat, size: nat)
  {
    size != 0 && Wrap(Normalise(board, addr) + size) <= flashSize
  }

  /** The range check admits only ranges inside the flash, exactly as long as address plus size does not wrap. */
  lemma AcceptedRangeInsideFlash(board: Board, flashSize: nat, addr: nat, size: nat)
    requires flashSize < WORD
    requires InRange(board, flashSize, addr, size)
    ensures Normalise(board, addr) + size <= flashSize <==> Normalise(board, addr) + size < WORD
  {
  }

  lemma WrappedRangeIsAdmitted()
    ensures InRange(Board(true, 0, 8, 128), 0x8_0000, 0xFFFF_FFF0, 0x20)
    ensures Normalise(Board(true, 0, 8, 128), 0xFFFF_FFF0) + 0x20 > 0x8_0000
  {
  }

  /** How a download request is answered. */
  function DownloadCode(board: Board, flashSize: nat, addr: nat, size: nat, format: nat): Nrc
  {
    if !board.ready then UploadDownloadNotAccepted
    else if !InRange(board, flashSize, addr, size) || format != 0 then RequestOutOfRange
    else if board.writeBlock > MAX_WRITE_BLOCK then UploadDownloadNotAccepted
    else Positive
  }

  function UploadCode(board: Board, flashSize: nat, addr: nat, size: nat): Nrc
  {
    if !board.ready then UploadDownloadNotAccepted
    else if !InRange(board, flashSize, addr, size) then RequestOutOfRange
    else Positive
  }

  /** Exactly which start requests are accepted, said by the request: an address up to the flash base is taken as it is,
      one above it loses the base, and the sum of address and size is that of machine words. */
  lemma AcceptedExactly(board: Board, flashSize: nat, addr: nat, size: nat, format: nat)
    requires addr < WORD && size < WORD
    ensures var end := (if addr <= board.flashBase then addr else addr - board.flashBase) + size;
            var fits := size != 0 && (end <= flashSize || (end >= 0x1_0000_0000 && end - 0x1_0000_0000 <= flashSize));
            && (DownloadCode(board, flashSize, addr, size, format) == Positive <==>
                  board.ready && fits && format == 0 && board.writeBlock <= 32)
            && (UploadCode(board, flashSize, addr, size) == Positive <==> board.ready && fits)
            && (!board.ready || (fits && format == 0 && board.writeBlock > 32) ==>
                  DownloadCode(board, flashSize, addr, size, format) == UploadDownloadNotAccepted)
            && (board.ready && !(fits && format == 0) ==>
                  DownloadCode(board, flashSize, addr, size, format) == RequestOutOfRange)
            && (!board.ready ==> UploadCode(board, flashSize, addr, size) == UploadDownloadNotAccepted)
            && (board.ready && !fits ==> UploadCode(board, flashSize, addr, size) == RequestOutOfRange)
  {
  }

  datatype Event =
    | RequestDownload(addr: nat, size: nat, format: nat)
    | RequestUpload(addr: nat, size: nat, maxBlock: nat)
    | RequestFile(file: FileTransfer.FileRequest)
    | TransferData(data: seq<byte>, limit: nat, environment: Environment)
    | TransferExit
    | OtherEvent

  /** What the flash, the file system and the response buffer decide while one data request runs. */
  datatype Environment = Environment(
    first: Fault,
    second: Fault,
    readFails: bool,
    fileWrite: FileTransfer.FsMove,
    fileRead: FileTransfer.ReadTry)

  /** `maxBlock` is the block length granted by a start request that negotiates one. */
  datatype Answer = Answer(nrc: Nrc, sent: seq<byte>, maxBlock: nat := 0)

  /** The bytes of a TransferData response in front of the data. */
  const RESPONSE_HEAD: nat := 2

  /** The whole state: the transfer, the flash cells and the file transfer. */
  datatype State = State(t: Transfer, flash: seq<byte>, file: FileTransfer.FileState)
  {
    /** At most one transfer runs, and a running flash transfer stays inside the flash. */
    ghost predicate Valid()
    {
      t.Valid(|flash|) && file.Valid() && (t.mode == Idle || file.mode == FileTransfer.Idle)
    }
  }

  /** A chunk is refused for its range, or lands at the cursor whole, or tears and leaves the cursor. */
  ghost predicate DownloadStep(s: State, data: seq<byte>, first: Fault, second: Fault, s': State, nrc: Nrc)
    requires s.t.mode == Downloading && s.t.block > 0
  {
    && s'.file == s.file
    && |s'.flash| == |s.flash|
    && (nrc == RequestOutOfRange <==> data == [] || s.t.cursor + |data| > s.t.start + s.t.total)
    && (nrc == RequestOutOfRange ==> s' == s)
    && (nrc != RequestOutOfRange ==>
        (nrc == Positive || nrc == GeneralProgrammingFailure) &&
        (nrc == Positive <==>
         && (|data| >= s.t.block ==> first.NoFault?)
         && (|data| % s.t.block != 0 ==> second.NoFault?)
         && s.t.cursor + Padded(|data|, s.t.block) <= |s.flash|))
    && (nrc == Positive ==> && s.t.cursor + |data| <= |s.flash|
                            && s'.flash == Programmed(s.flash, s.t.cursor, data)
                            && s'.t == s.t.(cursor := s.t.cursor + |data|))
    && (nrc == GeneralProgrammingFailure ==> s'.t == s.t && Torn(s.flash, s'.flash, s.t.cursor, data))
  }

  function Least(a: nat, b: nat): (r: nat)
    ensures r <= a && r <= b && (r == a || r == b)
  {
    if a < b then a else b
  }

  /** The next bytes of the range, as many as the limits allow. */
  ghost predicate UploadStep(s: State, maxPayload: nat, limit: nat, readFails: bool, s': State, a: Answer)
    requires s.t.start <= s.t.cursor <= s.t.start + s.t.total <= |s.flash|
  {
    var left := s.t.start + s.t.total - s.t.cursor;
    var n := Least(maxPayload, Least(limit, left));
    && s'.file == s.file && s'.flash == s.flash
    && (left == 0 ==> s' == s && a == Answer(RequestSequenceError, []))
    && (left > 0 && readFails ==> s' == s && a == Answer(GeneralProgrammingFailure, []))
    && (left > 0 && !readFails ==>
        && s'.t == s.t.(cursor := s.t.cursor + n)
        && a == Answer(Positive, s.flash[s.t.cursor..s.t.cursor + n]))
  }

  /** The bytes that do not fill a block go out as one block padded with 0xFF. */
  method WriteTail(cells: array<byte>, ghost before: seq<byte>, block: nat, at: nat, data: seq<byte>, whole: nat,
                   fault: Fault) returns (ok: bool)
    requires 0 < block && at + |data| <= cells.Length
    requires whole < |data| < whole + block && |before| == cells.Length
    requires cells[..] == Programmed(before, at, data[..whole])
    modifies cells
    ensures ok <==> fault.NoFault? && at + whole + block <= cells.Length
    ensures ok ==> cells[..] == Programmed(before, at, data)
    ensures !ok ==> Torn(before, cells[..], at, data)
  {
    ghost var middle := cells[..];
    var lastBytes := data[whole..] + seq(whole + block - |data|, _ => 0xFF);
    WholeBlocks(block, block);
    ok := FlashWrite(cells, block, at + whole, lastBytes, fault);
    if ok {
      TwoWritesProgramChunk(before, middle, at, data, whole, lastBytes);
    } else {
      TornTail(before, middle, cells[..], at, data, whole, lastBytes);
    }
  }

  /** The controller takes whole write blocks only: the chunk goes out as its whole blocks and then, if bytes are
      left, one padded block. To the flash the two writes are one program of the chunk. */
  method WriteBlocks(cells: array<byte>, block: nat, at: nat, data: seq<byte>, first: Fault, second: Fault)
    returns (ok: bool)
    requires 0 < block && data != [] && at + |data| <= cells.Length
    modifies cells
    ensures ok <==> && (|data| >= block ==> first.NoFault?)
                    && (|data| % block != 0 ==> second.NoFault?)
                    && at + Padded(|data|, block) <= cells.Length
    ensures ok ==> cells[..] == Programmed(old(cells[..]), at, data)
    ensures !ok ==> Torn(old(cells[..]), cells[..], at, data)
  {
    ghost var before := cells[..];
    WholeBlocks(|data|, block);
    var overflow := |data| % block;
    var firstWrite := |data| - overflow;
    if firstWrite > 0 {
      ok := FlashWrite(cells, block, at, data[..firstWrite], first);
      if !ok {
        TornPart(before, cells[..], at, data, 0, data[..firstWrite]);
        return;
      }
    }
    assert cells[..] == Programmed(before, at, data[..firstWrite]);
    if overflow != 0 {
      ok := WriteTail(cells, before, block, at, data, firstWrite, second);
    } else {
      assert data[..firstWrite] == data;
      ok := true;
    }
  }

  class Engine {
    const board: Board
    const cells: array<byte>
    const files: FileTransfer.FileEngine
    var mode: Mode
    var startAddress: nat
    var currentAddress: nat
    var totalSize: nat
    var writeBlockSize: nat

    ghost function Now(): State
      reads this, cells, files
    {
      State(Transfer(mode, startAddress, currentAddress, totalSize, writeBlockSize), cells[..], files.Snapshot())
    }

    ghost predicate Valid()
      reads this, cells, files
    {
      Fits(board, cells.Length) && Now().Valid() && files.Valid()
    }

    constructor (board: Board, cells: array<byte>, files: FileTransfer.FileEngine)
      requires Fits(board, cells.Length) && files.Valid()
      ensures Valid() && this.board == board && this.cells == cells && this.files == files && mode == Idle
    {
      this.board, this.cells, this.files := board, cells, files;
      mode, startAddress, currentAddress, totalSize, writeBlockSize := Idle, 0, 0, 0, 0;
    }

    method StartDownload(addr: nat, size: nat, format: nat) returns (nrc: Nrc)
      requires Valid() && mode == Idle && files.mode == FileTransfer.Idle
      modifies this
      ensures Normalise(board, addr) + size < WORD ==> Valid()
      ensures cells[..] == old(cells[..])
      ensures nrc == DownloadCode(board, cells.Length, addr, size, format)
      ensures mode == if nrc == Positive then Downloading else Idle
      ensures nrc == Positive ==> startAddress == currentAddress == Normalise(board, addr) && totalSize == size
                                  && writeBlockSize == board.writeBlock
      ensures nrc == Positive ==>
                if addr <= board.flashBase then startAddress == addr else startAddress + board.flashBase == addr
    {
      if !board.ready {
        return UploadDownloadNotAccepted;
      }
      if size == 0 {
        return RequestOutOfRange;
      }
      var address := Normalise(board, addr);
      if Wrap(address + size) > cells.Length {
        return RequestOutOfRange;
      }
      if format != 0 {
        return RequestOutOfRange;
      }
      startAddress, currentAddress, totalSize := address, address, size;
      writeBlockSize := board.writeBlock;
      if writeBlockSize > MAX_WRITE_BLOCK {
        return UploadDownloadNotAccepted;
      }
      mode := Downloading;
      return Positive;
    }

    method StartUpload(addr: nat, size: nat, maxBlock: nat) returns (nrc: Nrc, granted: nat)
      requires Valid() && files.mode == FileTransfer.Idle
      modifies this
      ensures Normalise(board, addr) + size < WORD ==> Valid()
      ensures cells[..] == old(cells[..])
      ensures nrc == if old(mode) != Idle then RequestSequenceError else UploadCode(board, cells.Length, addr, size)
      ensures granted == if nrc == Positive then Least(board.maxPayload + RESPONSE_HEAD, maxBlock) else 0
      ensures nrc == Positive ==> mode == Uploading && totalSize == size
                                  && startAddress == currentAddress == Normalise(board, addr)
                                  && writeBlockSize == old(writeBlockSize)
      ensures nrc == Positive ==>
                if addr <= board.flashBase then startAddress == addr else startAddress + board.flashBase == addr
      ensures nrc != Positive ==> Now() == old(Now())
    {
      if mode != Idle {
        return RequestSequenceError, 0;
      }
      if !board.ready {
        return UploadDownloadNotAccepted, 0;
      }
      if size == 0 {
        return RequestOutOfRange, 0;
      }
      var address := Normalise(board, addr);
      if Wrap(address + size) > cells.Length {
        return RequestOutOfRange, 0;
      }
      startAddress, currentAddress, totalSize := address, address, size;
      mode := Uploading;
      return Positive, Least(board.maxPayload + RESPONSE_HEAD, maxBlock);
    }

    method ContinueDownload(data: seq<byte>, first: Fault, second: Fault) returns (nrc: Nrc)
      requires Valid() && mode == Downloading && |data| < 0x1_0000
      modifies this, cells
      ensures Valid() && DownloadStep(old(Now()), data, first, second, Now(), nrc)
    {
      if |data| == 0 || Wrap(currentAddress + |data|) > Wrap(startAddress + totalSize) {
        return RequestOutOfRange;
      }
      var ok := WriteBlocks(cells, writeBlockSize, currentAddress, data, first, second);
      if !ok {
        return GeneralProgrammingFailure;
      }
      currentAddress := currentAddress + |data|;
      return Positive;
    }

    method ContinueUpload(limit: nat, readFails: bool) returns (a: Answer)
      requires Valid() && mode == Uploading
      modifies this
      ensures Valid() && UploadStep(old(Now()), board.maxPayload, limit, readFails, Now(), a)
      ensures a.nrc == Positive ==>
                var left := old(startAddress + totalSize - currentAddress);
                && |a.sent| <= board.maxPayload && |a.sent| <= limit && |a.sent| <= left
                && (|a.sent| == board.maxPayload || |a.sent| == limit || |a.sent| == left)
      ensures if old(currentAddress == startAddress + totalSize) then a == Answer(RequestSequenceError, [])
              else if readFails then a == Answer(GeneralProgrammingFailure, []) else a.nrc == Positive
    {
      if Wrap(currentAddress) >= Wrap(startAddress + totalSize) {
        return Answer(RequestSequenceError, []);
      }
      var length := Least(board.maxPayload, Least(limit, startAddress + totalSize - currentAddress));
      if readFails {
        return Answer(GeneralProgrammingFailure, []);
      }
      var buffer := cells[currentAddress..currentAddress + length];
      currentAddress := currentAddress + length;
      return Answer(Positive, buffer);
    }

    method Reset() returns (nrc: Nrc)
      requires Valid()
      modifies this
      ensures Valid() && mode == Idle && cells[..] == old(cells[..])
      ensures nrc == if old(mode) == Idle then RequestSequenceError else Positive
      ensures old(mode) == Idle ==> Now() == old(Now())
      ensures writeBlockSize == old(writeBlockSize)
      ensures old(mode) != Idle ==> startAddress == currentAddress == totalSize == 0
    {
      if mode == Idle {
        return RequestSequenceError;
      }
      mode, startAddress, currentAddress, totalSize := Idle, 0, 0, 0;
      return Positive;
    }

    /** Both transfers end. The assertion in the middle is the source's own. */
    method Exit() returns (nrc: Nrc)
      requires Valid()
      modifies this, files
      ensures Valid() && mode == Idle && files.mode == FileTransfer.Idle
      ensures cells[..] == old(cells[..]) && files.files == old(files.files)
      ensures StartsClean(old(Now()), Now()) && writeBlockSize == old(writeBlockSize)
      ensures nrc == ExitCode(old(Now()))
      ensures old(mode) != Idle ==> nrc == Positive
      ensures old(mode) == Idle && old(files.mode) == FileTransfer.Idle ==> nrc == RequestSequenceError
      ensures old(mode) == Idle && old(files.mode) != FileTransfer.Idle ==>
                nrc == if old(files.mode == FileTransfer.Read || files.expectedSize == 0
                              || files.transferred == files.expectedSize) then Positive
                       else GeneralProgrammingFailure
    {
      var flash := Reset();
      var file := files.Exit();
      assert flash == RequestSequenceError || file == RequestSequenceError;
      return if flash == RequestSequenceError then file else flash;
    }

    /** The single handler of all five events. */
    method Handle(event: Event) returns (a: Answer)
      requires Valid() && Admissible(Now(), event)
      modifies this, cells, files
      ensures Step(board, old(Now()), event, Now(), a)
      // a range whose end wraps around can be admitted without lying inside the flash
      ensures NoWrap(board, event) ==> Valid()
    {
      if event.RequestDownload? || event.RequestUpload? || event.RequestFile? {
        var nrc := Exit();
        if nrc != Positive && nrc != RequestSequenceError {
          return Answer(nrc, []);
        }
      }
      match event
      case RequestDownload(addr, size, format) =>
        var nrc := StartDownload(addr, size, format);
        return Answer(nrc, []);
      case RequestUpload(addr, size, maxBlock) =>
        var nrc, granted := StartUpload(addr, size, maxBlock);
        return Answer(nrc, [], granted);
      case RequestFile(request) =>
        var nrc := files.Request(request);
        return Answer(nrc, [], if nrc == Positive then files.blockLength else 0);
      case TransferData(data, limit, environment) =>
        if files.mode != FileTransfer.Idle {
          if files.mode == FileTransfer.Write {
            var nrc := files.WriteChunk(data, environment.fileWrite);
            return Answer(nrc, []);
          }
          var answer := files.ReadChunk(environment.fileRead);
          return Answer(answer.nrc, answer.sent);
        }
        if mode == Downloading {
          var nrc := ContinueDownload(data, environment.first, environment.second);
          return Answer(nrc, []);
        }
        if mode == Uploading {
          a := ContinueUpload(limit, environment.readFails);
          return a;
        }
        return Answer(RequestSequenceError, []);
      case TransferExit =>
        var nrc := Exit();
        return Answer(nrc, []);
      case OtherEvent =>
        return Answer(Misuse, []);
    }
  }

  /** The end of the range a start request names is not beyond the last machine address. */
  predicate NoWrap(board: Board, e: Event)
  {
    e.RequestDownload? || e.RequestUpload? ==> Normalise(board, e.addr) + e.size < WORD
  }

  /** The part of a chunk a physical write carries, from an offset on, padded with 0xFF past the chunk's end. */
  ghost predicate IsPart(data: seq<byte>, from: nat, part: seq<byte>)
  {
    from <= |data| && forall k :: 0 <= k < |part| ==> part[k] == if from + k < |data| then data[from + k] else 0xFF
  }

  /** Whole blocks, then the rest padded with 0xFF: the padding programs nothing, so both program the chunk. */
  lemma TwoWritesProgramChunk(f: seq<byte>, m: seq<byte>, at: nat, data: seq<byte>, whole: nat, last: seq<byte>)
    requires whole <= |data| && at + |data| <= at + whole + |last| <= |f| && IsPart(data, whole, last)
    requires m == Programmed(f, at, data[..whole])
    ensures Programmed(m, at + whole, last) == Programmed(f, at, data)
  {
    var g, h := Programmed(m, at + whole, last), Programmed(f, at, data);
    forall i | 0 <= i < |f|
      ensures g[i] == h[i]
    {
      if i < at + whole {
        assert g[i] == m[i] == h[i];
      } else if i < at + whole + |last| {
        assert m[i] == f[i] && g[i] == m[i] & last[i - at - whole];
        PaddingCell(f[i], g[i]);
      } else {
        assert g[i] == m[i] == f[i] == h[i];
      }
    }
  }

  /** The second write fails: the chunk is torn. */
  lemma TornTail(f: seq<byte>, m: seq<byte>, g: seq<byte>, at: nat, data: seq<byte>, whole: nat, last: seq<byte>)
    requires whole <= |data| && at + |data| <= |f| && IsPart(data, whole, last)
    requires m == Programmed(f, at, data[..whole])
    requires g == m || Torn(m, g, at + whole, last)
    ensures Torn(f, g, at, data)
  {
    ProgrammedIsTorn(f, at, data[..whole]);
    TornPart(f, m, at, data, 0, data[..whole]);
    if g != m {
      TornPart(m, g, at, data, whole, last);
      TornComposes(f, m, g, at, data);
    }
  }

  /** Inputs the file system can produce in the state, and chunk lengths the request format can carry. */
  ghost predicate Admissible(s: State, e: Event)
    requires s.Valid()
  {
    e.TransferData? ==>
      && |e.data| < 0x1_0000
      && (e.environment.fileWrite.Moves? ==> e.environment.fileWrite.count <= |e.data|)
      && (s.file.mode == FileTransfer.Read ==> FileTransfer.ReadTryPossible(s.file, e.environment.fileRead))
  }

  /** Requests out of turn: with nothing running there is nothing to continue or to end, a transfer that cannot be ended
      lets no other start, and events of others are not for this handler. */
  lemma OutOfTurn(board: Board, s: State, e: Event, s': State, a: Answer)
    requires s.Valid() && Admissible(s, e) && Step(board, s, e, s', a)
    ensures var idle := s.t.mode == Idle && s.file.mode == FileTransfer.Idle;
            && (idle && e.TransferData? ==> s' == s && a.nrc == RequestSequenceError && a.sent == [])
            && (idle && e.TransferExit? ==> a.nrc == RequestSequenceError)
            && (e.OtherEvent? ==> s' == s && a.nrc == Misuse)
            && (s.file.mode == FileTransfer.Write && 0 < s.file.transferred < s.file.expected
                && (e.RequestDownload? || e.RequestUpload? || e.RequestFile?) ==>
                  a.nrc == GeneralProgrammingFailure && s'.t.mode == Idle && s'.file.mode == FileTransfer.Idle
                  && s'.flash == s.flash && s'.file.files == s.file.files)
  {
  }

  /** What one request may do, said without its control flow. */
  ghost predicate Step(board: Board, s: State, e: Event, s': State, a: Answer)
    requires s.Valid() && Admissible(s, e)
  {
    var size := |s.flash|;
    match e
    case OtherEvent => s' == s && a == Answer(Misuse, [])
    case TransferExit =>
      && StartsClean(s, s') && s'.flash == s.flash && s'.file.files == s.file.files
      && s'.t.mode == Idle && s'.file.mode == FileTransfer.Idle && s'.file.Valid() && a == Answer(ExitCode(s), [])
    case RequestDownload(addr, n, format) =>
      && s'.flash == s.flash && s'.file.files == s.file.files && s'.file.mode == FileTransfer.Idle
      && s'.file.Valid() && a.sent == []
      && a.nrc == (if ExitCode(s) == GeneralProgrammingFailure then GeneralProgrammingFailure
                   else DownloadCode(board, size, addr, n, format))
      && (a.nrc == Positive ==>
          s'.t == Transfer(Downloading, Normalise(board, addr), Normalise(board, addr), n, board.writeBlock))
      && (a.nrc != Positive ==> s'.t.mode == Idle)
    case RequestUpload(addr, n, maxBlock) =>
      && a.maxBlock == (if a.nrc == Positive then Least(board.maxPayload + RESPONSE_HEAD, maxBlock) else 0)
      && s'.flash == s.flash && s'.file.files == s.file.files && s'.file.mode == FileTransfer.Idle
      && s'.file.Valid() && a.sent == []
      && a.nrc == (if ExitCode(s) == GeneralProgrammingFailure then GeneralProgrammingFailure
                   else UploadCode(board, size, addr, n))
      && (a.nrc == Positive ==>
          s'.t == Transfer(Uploading, Normalise(board, addr), Normalise(board, addr), n, s.t.block))
      && (a.nrc != Positive ==> s'.t.mode == Idle)
    case RequestFile(request) =>
      && s'.flash == s.flash && s'.t.mode == Idle && s'.file.Valid() && a.sent == []
      && a.nrc == (if ExitCode(s) == GeneralProgrammingFailure then GeneralProgrammingFailure
                   else FileTransfer.RequestCode(s.file.files, request))
      && (a.nrc == Positive ==> a.maxBlock == s'.file.block)
      && (s'.file.mode != FileTransfer.Idle ==>
          a.nrc == Positive && s'.file.transferred == 0 && s'.file.path == request.path)
      && (a.nrc != Positive ==> s'.file.mode == FileTransfer.Idle && s'.file.files == s.file.files)
    case TransferData(data, limit, environment) =>
      if s.file.mode == FileTransfer.Write then
        s' == s.(file := s'.file) && (s'.file, a.nrc) == FileTransfer.WriteResult(s.file, data, environment.fileWrite)
        && a.sent == []
      else if s.file.mode == FileTransfer.Read then
        s' == s.(file := s'.file) &&
        (s'.file, FileTransfer.ReadAnswer(a.nrc, a.sent)) == FileTransfer.ReadResult(s.file, environment.fileRead)
      else if s.t.mode == Downloading then
        DownloadStep(s, data, environment.first, environment.second, s', a.nrc) && a.sent == []
      else if s.t.mode == Uploading then
        UploadStep(s, board.maxPayload, limit, environment.readFails, s', a)
      else s' == s && a == Answer(RequestSequenceError, [])
  }

  ghost predicate StartsClean(s: State, s': State)
  {
    s.t.mode != Idle ==> s'.t.start == s'.t.cursor == s'.t.total == 0
  }

  function ExitCode(s: State): Nrc
  {
    if s.t.mode != Idle then Positive
    else if s.file.mode == FileTransfer.Idle then RequestSequenceError
    else if s.file.mode == FileTransfer.Write && s.file.expected > 0 && s.file.transferred != s.file.expected then
      GeneralProgrammingFailure
    else Positive
  }
}
