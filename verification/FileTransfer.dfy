/** RequestFileTransfer over a file system of named byte strings (lib/uds/upload_download_file_transfer.c). */
module FileTransfer {
  import opened Iso14229
  import opened Sequences

  const EPERM := 1
  const ENOENT := 2
  const EACCES := 13
  const MAX_PATH := 256

  datatype Mode = Idle | Write | Read

  datatype Moop = AddFile | DeleteFile | ReplaceFile | ReadFile | OtherMoop

  type Path = seq<char>

  /** Outcomes the file system chooses for a start request: error numbers, zero for success. */
  datatype FsStart = FsStart(openError: nat, statError: nat, unlinkError: nat, isDirectory: bool)

  datatype FileRequest = FileRequest(moop: Moop, path: Path, size: nat, maxBlock: nat, fs: FsStart)

  /** A write or a read either fails with an error number or moves some number of bytes. */
  datatype FsMove = Fails(error: nat) | Moves(count: nat)

  /** The transfer's bookkeeping together with the file system below it. */
  datatype FileState = FileState(
    mode: Mode,
    path: Path,
    expected: nat,
    transferred: nat,
    block: nat,
    position: nat,
    files: map<Path, seq<byte>>)
  {
    ghost predicate Valid()
    {
      && (mode != Idle ==> path in files)
      && (mode == Idle ==> expected == 0 && transferred == 0 && block == 0)
      && (mode == Write ==> expected > 0 ==> transferred <= expected)
      && (mode == Write ==> position == |files[path]| && transferred <= position)
      && (mode == Read ==> expected == |files[path]| && transferred <= position <= expected)
    }

    function Content(): seq<byte>
      requires mode != Idle && path in files
    {
      files[path]
    }
  }

  function ErrorToNrc(error: nat): Nrc
  {
    if error == ENOENT then RequestOutOfRange
    else if error == EPERM || error == EACCES then SecurityAccessDenied
    else UploadDownloadNotAccepted
  }

  function ReadCode(files: map<Path, seq<byte>>, r: FileRequest): Nrc
  {
    if r.fs.openError != 0 then ErrorToNrc(r.fs.openError)
    else if r.path !in files then ErrorToNrc(ENOENT)
    else if r.fs.statError != 0 then ErrorToNrc(r.fs.statError)
    else if r.fs.isDirectory then RequestOutOfRange
    else Positive
  }

  /** How a file request is answered. */
  function RequestCode(files: map<Path, seq<byte>>, r: FileRequest): Nrc
  {
    if r.path == [] || |r.path| >= MAX_PATH then RequestOutOfRange
    else
      match r.moop
      case AddFile => if r.fs.openError == 0 then Positive else ErrorToNrc(r.fs.openError)
      case ReplaceFile => if r.fs.openError == 0 then Positive else ErrorToNrc(r.fs.openError)
      case DeleteFile =>
        if r.fs.unlinkError != 0 then ErrorToNrc(r.fs.unlinkError)
        else if r.path !in files then ErrorToNrc(ENOENT)
        else Positive
      case ReadFile => ReadCode(files, r)
      case OtherMoop => RequestOutOfRange
  }

  function BlockLength(requested: nat, mtu: nat): (r: nat)
    ensures r <= mtu && (0 < requested <= mtu ==> r == requested)
    ensures requested == 0 || requested > mtu ==> r == mtu
  {
    if 0 < requested < mtu then requested else mtu
  }

  /** A whole chunk lands, or the request says why not. */
  function WriteResult(s: FileState, data: seq<byte>, move: FsMove): (r: (FileState, Nrc))
    requires s.mode == Write && s.Valid() && (move.Moves? ==> move.count <= |data|)
    ensures r.0.Valid() && r.0.mode == Write && r.0.path == s.path && r.0.expected == s.expected
    ensures forall p :: p in s.files && p != s.path ==> p in r.0.files && r.0.files[p] == s.files[p]
  {
    if data == [] then (s, RequestOutOfRange)
    else if s.expected > 0 && s.transferred + |data| > s.expected then (s, RequestOutOfRange)
    else if move.Fails? then (s, ErrorToNrc(move.error))
    else
      var landed := s.(files := s.files[s.path := s.Content() + data[..move.count]],
                       position := s.position + move.count);
      if move.count != |data| then (landed, UploadDownloadNotAccepted)
      else (landed.(transferred := s.transferred + |data|), Positive)
  }

  datatype ReadAnswer = ReadAnswer(nrc: Nrc, sent: seq<byte>)

  datatype ReadTry = ReadTry(limit: nat, move: FsMove, canCopy: bool, copyStatus: Nrc)

  predicate ReadTryPossible(s: FileState, t: ReadTry)
    requires s.mode == Read && s.Valid()
  {
    t.move.Moves? ==>
      var left := s.expected - s.transferred;
      t.move.count <= (if t.limit < left then t.limit else left) && s.position + t.move.count <= s.expected
  }

  function ReadResult(s: FileState, t: ReadTry): (r: (FileState, ReadAnswer))
    requires s.mode == Read && s.Valid() && ReadTryPossible(s, t)
    ensures r.0.Valid() && r.0.mode == Read && r.0.path == s.path && r.0.expected == s.expected
    ensures r.0.files == s.files
  {
    if !t.canCopy then (s, ReadAnswer(Misuse, []))
    else if s.expected == s.transferred then (s, ReadAnswer(RequestSequenceError, []))
    else if t.move.Fails? then (s, ReadAnswer(ErrorToNrc(t.move.error), []))
    else if t.move.count == 0 then (s, ReadAnswer(RequestSequenceError, []))
    else
      var moved := s.(position := s.position + t.move.count);
      if t.copyStatus != Positive then (moved, ReadAnswer(t.copyStatus, []))
      else (moved.(transferred := s.transferred + t.move.count),
            ReadAnswer(Positive, s.Content()[s.position..s.position + t.move.count]))
  }

  // ---- what the answers say ----------------------------------------------------------------------------------

  /** A file that is not there is out of range, one that may not be touched is denied, anything else is not accepted. */
  lemma ErrorCodes(error: nat)
    ensures ErrorToNrc(error) == RequestOutOfRange <==> error == 2
    ensures ErrorToNrc(error) == SecurityAccessDenied <==> error == 1 || error == 13
    ensures ErrorToNrc(error) == UploadDownloadNotAccepted <==> error != 1 && error != 2 && error != 13
  {
  }

  /** Exactly which file requests are accepted, and how the others are answered. */
  lemma RequestAnswers(files: map<Path, seq<byte>>, r: FileRequest)
    ensures var code := RequestCode(files, r);
            && (|r.path| == 0 || |r.path| >= 256 || r.moop == OtherMoop ==> code == RequestOutOfRange)
            && (0 < |r.path| < 256 && (r.moop == AddFile || r.moop == ReplaceFile) ==>
                  code == if r.fs.openError == 0 then Positive else ErrorToNrc(r.fs.openError))
            && (0 < |r.path| < 256 && r.moop == DeleteFile ==>
                  && (code == Positive <==> r.fs.unlinkError == 0 && r.path in files)
                  && (r.fs.unlinkError != 0 ==> code == ErrorToNrc(r.fs.unlinkError))
                  && (r.fs.unlinkError == 0 && r.path !in files ==> code == RequestOutOfRange))
            && (0 < |r.path| < 256 && r.moop == ReadFile ==>
                  && (code == Positive <==>
                        r.fs.openError == 0 && r.path in files && r.fs.statError == 0 && !r.fs.isDirectory)
                  && (r.fs.openError != 0 ==> code == ErrorToNrc(r.fs.openError))
                  && (r.fs.openError == 0 && r.path !in files ==> code == RequestOutOfRange)
                  && (r.fs.openError == 0 && r.path in files && r.fs.statError != 0 ==> code == ErrorToNrc(r.fs.statError))
                  && (r.fs.openError == 0 && r.path in files && r.fs.statError == 0 && r.fs.isDirectory ==>
                        code == RequestOutOfRange))
  {
  }

  /** A chunk is accepted exactly if it has bytes, does not pass the declared size, if one was declared, and lands whole;
      what is in the file and what is counted after each way to be answered. */
  lemma WriteAnswers(s: FileState, data: seq<byte>, move: FsMove)
    requires s.mode == Write && s.Valid() && (move.Moves? ==> move.count <= |data|)
    ensures var (s', nrc) := WriteResult(s, data, move);
            var inside := |data| > 0 && (s.expected == 0 || s.transferred + |data| <= s.expected);
            && (nrc == Positive <==> inside && move == Moves(|data|))
            && (nrc == Positive ==> s'.files[s.path] == s.files[s.path] + data && s'.transferred == s.transferred + |data|)
            && (!inside ==> nrc == RequestOutOfRange && s' == s)
            && (inside && move.Fails? ==> nrc == ErrorToNrc(move.error) && s' == s)
            && (inside && move.Moves? && move.count < |data| ==>
                  && nrc == UploadDownloadNotAccepted && s'.transferred == s.transferred
                  && s'.files[s.path] == s.files[s.path] + data[..move.count])
  {
    assert data[..|data|] == data;
  }

  /** A read is answered with the bytes the file system moved from the position on, and counted, exactly if there is a
      copy function, something is left, bytes come and the copy takes them; a copy that refuses still moves on. */
  lemma ReadAnswers(s: FileState, t: ReadTry)
    requires s.mode == Read && s.Valid()
    requires t.move.Moves? ==>
               && t.move.count <= t.limit && t.move.count <= s.expected - s.transferred
               && s.position + t.move.count <= |s.files[s.path]|
    ensures ReadTryPossible(s, t)
    ensures var (s', a) := ReadResult(s, t);
            var comes := t.canCopy && s.transferred < s.expected && t.move.Moves? && t.move.count > 0;
            && (a.nrc == Positive && a.sent != [] <==> comes && t.copyStatus == Positive)
            && (comes ==> s'.position == s.position + t.move.count)
            && (comes && t.copyStatus == Positive ==>
                  && a == ReadAnswer(Positive, s.files[s.path][s.position..s.position + t.move.count])
                  && s'.transferred == s.transferred + t.move.count)
            && (comes && t.copyStatus != Positive ==>
                  a == ReadAnswer(t.copyStatus, []) && s'.transferred == s.transferred)
            && (!comes ==> s' == s && a.sent == [])
            && (!t.canCopy ==> a.nrc == Misuse)
            && (t.canCopy && s.transferred == s.expected ==> a.nrc == RequestSequenceError)
            && (t.canCopy && s.transferred < s.expected && t.move.Fails? ==> a.nrc == ErrorToNrc(t.move.error))
            && (t.canCopy && s.transferred < s.expected && t.move == Moves(0) ==> a.nrc == RequestSequenceError)
  {
  }

  /** The singleton file_transfer_state, with the file system it works on. */
  class FileEngine {
    const mtu: nat
    var mode: Mode
    var fileOpen: bool
    var expectedSize: nat
    var transferred: nat
    var blockLength: nat
    var path: Path
    var position: nat
    var files: map<Path, seq<byte>>

    ghost function Snapshot(): FileState
      reads this
    {
      FileState(mode, path, expectedSize, transferred, blockLength, position, files)
    }

    ghost predicate Valid()
      reads this
    {
      Snapshot().Valid() && (fileOpen <==> mode != Idle)
    }

    constructor (mtu: nat, files: map<Path, seq<byte>>)
      ensures Valid() && mode == Idle && this.files == files && this.mtu == mtu
    {
      this.mtu := mtu;
      this.files := files;
      mode, fileOpen, expectedSize, transferred, blockLength := Idle, false, 0, 0, 0;
      path, position := [], 0;
    }

    method Reset()
      modifies this
      ensures Valid() && mode == Idle && files == old(files)
    {
      if fileOpen {
        position := 0;
      }
      mode, fileOpen, expectedSize, transferred, blockLength := Idle, false, 0, 0, 0;
    }

    method BeginWrite(request: FileRequest) returns (nrc: Nrc)
      requires Valid() && mode == Idle
      modifies this
      ensures Valid()
      ensures nrc == Positive <==> request.fs.openError == 0
      ensures nrc == Positive ==> mode == Write && path == request.path && expectedSize == request.size
                                  && transferred == 0 && blockLength == BlockLength(request.maxBlock, mtu)
                                  && files == old(files)[request.path := []]
      ensures nrc != Positive ==> nrc == ErrorToNrc(request.fs.openError) && Snapshot() == old(Snapshot())
    {
      if request.fs.openError != 0 {
        return ErrorToNrc(request.fs.openError);
      }
      files := files[request.path := []];
      path, position := request.path, 0;
      mode, fileOpen, expectedSize, transferred := Write, true, request.size, 0;
      blockLength := BlockLength(request.maxBlock, mtu);
      return Positive;
    }

    method BeginRead(request: FileRequest) returns (nrc: Nrc)
      requires Valid() && mode == Idle
      modifies this
      ensures Valid() && files == old(files)
      ensures nrc == ReadCode(files, request)
      ensures nrc == Positive ==> mode == Read && path == request.path && expectedSize == |files[request.path]|
                                  && transferred == 0 && position == 0
                                  && blockLength == BlockLength(request.maxBlock, mtu)
      ensures nrc != Positive ==> mode == Idle
    {
      var openError := if request.fs.openError == 0 && request.path !in files then ENOENT else request.fs.openError;
      if openError != 0 {
        return ErrorToNrc(openError);
      }
      if request.fs.statError != 0 {
        Reset();
        return ErrorToNrc(request.fs.statError);
      }
      if request.fs.isDirectory {
        Reset();
        return RequestOutOfRange;
      }
      path, position := request.path, 0;
      mode, fileOpen, expectedSize, transferred := Read, true, |files[request.path]|, 0;
      blockLength := BlockLength(request.maxBlock, mtu);
      return Positive;
    }

    method Request(request: FileRequest) returns (nrc: Nrc)
      requires Valid() && mode == Idle
      modifies this
      ensures Valid() && nrc == RequestCode(old(files), request)
      ensures nrc == Positive ==>
                mode == match request.moop
                        case AddFile => Write
                        case ReplaceFile => Write
                        case ReadFile => Read
                        case _ => Idle
      ensures mode != Idle ==> nrc == Positive && transferred == 0 && path == request.path
      ensures mode == Write ==> files == old(files)[request.path := []] && expectedSize == request.size
      ensures mode == Read ==> files == old(files) && position == 0 && expectedSize == |files[request.path]|
      ensures mode != Idle ==> blockLength == BlockLength(request.maxBlock, mtu)
      ensures nrc == Positive && mode == Idle ==> request.moop == DeleteFile && files == old(files) - {request.path}
      ensures nrc != Positive ==> mode == Idle && files == old(files)
    {
      if request.path == [] || |request.path| >= MAX_PATH {
        return RequestOutOfRange;
      }
      match request.moop
      case AddFile => nrc := BeginWrite(request);
      case ReplaceFile => nrc := BeginWrite(request);
      case DeleteFile =>
        var error := if request.fs.unlinkError == 0 && request.path !in files then ENOENT else request.fs.unlinkError;
        if error != 0 {
          return ErrorToNrc(error);
        }
        files := files - {request.path};
        return Positive;
      case ReadFile => nrc := BeginRead(request);
      case OtherMoop => nrc := RequestOutOfRange;
    }

    method WriteChunk(data: seq<byte>, move: FsMove) returns (nrc: Nrc)
      requires Valid() && mode == Write && (move.Moves? ==> move.count <= |data|)
      modifies this
      ensures Valid() && (Snapshot(), nrc) == WriteResult(old(Snapshot()), data, move)
    {
      if data == [] {
        return RequestOutOfRange;
      }
      if expectedSize > 0 && transferred + |data| > expectedSize {
        return RequestOutOfRange;
      }
      if move.Fails? {
        return ErrorToNrc(move.error);
      }
      files := files[path := files[path] + data[..move.count]];
      position := position + move.count;
      if move.count != |data| {
        return UploadDownloadNotAccepted;
      }
      transferred := transferred + |data|;
      return Positive;
    }

    method ReadChunk(t: ReadTry) returns (answer: ReadAnswer)
      requires Valid() && mode == Read && ReadTryPossible(Snapshot(), t)
      modifies this
      ensures Valid() && (Snapshot(), answer) == ReadResult(old(Snapshot()), t)
    {
      if !t.canCopy {
        return ReadAnswer(Misuse, []);
      }
      var remaining := 0;
      if expectedSize >= transferred {
        remaining := expectedSize - transferred;
      }
      if remaining == 0 {
        return ReadAnswer(RequestSequenceError, []);
      }
      if t.move.Fails? {
        return ReadAnswer(ErrorToNrc(t.move.error), []);
      }
      if t.move.count == 0 {
        return ReadAnswer(RequestSequenceError, []);
      }
      var bytes := files[path][position..position + t.move.count];
      position := position + t.move.count;
      if t.copyStatus != Positive {
        return ReadAnswer(t.copyStatus, []);
      }
      transferred := transferred + t.move.count;
      return ReadAnswer(Positive, bytes);
    }

    method Exit() returns (nrc: Nrc)
      requires Valid()
      modifies this
      ensures Valid() && mode == Idle && files == old(files)
      ensures old(mode) == Idle ==> nrc == RequestSequenceError
      ensures old(mode) != Idle ==>
                nrc == if old(mode == Read || expectedSize == 0 || transferred == expectedSize) then Positive
                       else GeneralProgrammingFailure
    {
      var complete := true;
      if mode == Idle {
        return RequestSequenceError;
      }
      if mode == Write && expectedSize > 0 && transferred != expectedSize {
        complete := false;
      }
      Reset();
      return if complete then Positive else GeneralProgrammingFailure;
    }
  }

  // ---- whole writes ------------------------------------------------------------------------------------------

  datatype WriteTry = WriteTry(data: seq<byte>, move: FsMove)

  predicate Possible(t: WriteTry)
  {
    t.move.Moves? ==> t.move.count <= |t.data|
  }

  predicate AllPossible(tries: seq<WriteTry>)
  {
    forall i :: 0 <= i < |tries| ==> Possible(tries[i])
  }

  /** Where a run of writes ends, the payloads it answered positively in order, and the number of bytes that
      short writes left in the file although their chunk was refused. */
  datatype WriteRun = WriteRun(end: FileState, accepted: seq<byte>, stray: nat)

  function Writes(s: FileState, tries: seq<WriteTry>): (r: WriteRun)
    requires s.mode == Write && s.Valid() && AllPossible(tries)
    ensures r.end.mode == Write && r.end.Valid() && r.end.path == s.path && r.end.expected == s.expected
    decreases |tries|
  {
    if tries == [] then WriteRun(s, [], 0)
    else
      var (s', nrc) := WriteResult(s, tries[0].data, tries[0].move);
      var rest := Writes(s', tries[1..]);
      OneWrite(s, tries[0]);
      if nrc == Positive then rest.(accepted := tries[0].data + rest.accepted)
      else rest.(stray := |s'.Content()| - |s.Content()| + rest.stray)
  }

  lemma OneWrite(s: FileState, t: WriteTry)
    requires s.mode == Write && s.Valid() && Possible(t)
    ensures var (s', nrc) := WriteResult(s, t.data, t.move);
            && (nrc == Positive ==> s'.Content() == s.Content() + t.data && s'.transferred == s.transferred + |t.data|)
            && (nrc != Positive ==> s'.transferred == s.transferred && s.Content() <= s'.Content())
  {
    if t.move.Moves? {
      assert t.move.count == |t.data| ==> t.data[..t.move.count] == t.data;
    }
  }

  /** Conservation: what the transfer counts is what it accepted; the file holds that and the stray bytes. */
  lemma {:induction false} WritesConserve(s: FileState, tries: seq<WriteTry>)
    requires s.mode == Write && s.Valid() && AllPossible(tries)
    ensures var r := Writes(s, tries);
            && r.end.transferred == s.transferred + |r.accepted|
            && |r.end.Content()| == |s.Content()| + |r.accepted| + r.stray
            && (r.stray == 0 ==> r.end.Content() == s.Content() + r.accepted)
    decreases |tries|
  {
    if tries != [] {
      var (s', nrc) := WriteResult(s, tries[0].data, tries[0].move);
      OneWrite(s, tries[0]);
      WritesConserve(s', tries[1..]);
      var rest := Writes(s', tries[1..]);
      if nrc == Positive {
        Associative(s.Content(), tries[0].data, rest.accepted);
      } else if |s'.Content()| == |s.Content()| {
        assert s'.Content() == s.Content();
      }
    }
  }

  /** A write that gets as far as the file system and lands only in part. */
  predicate Short(s: FileState, t: WriteTry)
  {
    && t.data != [] && (s.expected > 0 ==> s.transferred + |t.data| <= s.expected)
    && t.move.Moves? && 0 < t.move.count < |t.data|
  }

  predicate NoneShort(s: FileState, tries: seq<WriteTry>)
    requires s.mode == Write && s.Valid() && AllPossible(tries)
    decreases |tries|
  {
    tries == [] || (!Short(s, tries[0]) && NoneShort(WriteResult(s, tries[0].data, tries[0].move).0, tries[1..]))
  }

  lemma {:induction false} StrayIffShort(s: FileState, tries: seq<WriteTry>)
    requires s.mode == Write && s.Valid() && AllPossible(tries)
    ensures Writes(s, tries).stray == 0 <==> NoneShort(s, tries)
    decreases |tries|
  {
    if tries != [] {
      OneWrite(s, tries[0]);
      StrayIffShort(WriteResult(s, tries[0].data, tries[0].move).0, tries[1..]);
    }
  }

  /** For every file write from the empty file: the count is the length of the accepted payloads and never passes a
      declared size, and the file is their concatenation exactly when no write landed only in part. */
  lemma FileIsAcceptedPayloads(s: FileState, tries: seq<WriteTry>)
    requires s.mode == Write && s.Valid() && s.Content() == [] && s.transferred == 0 && AllPossible(tries)
    ensures var r := Writes(s, tries);
            && r.end.transferred == |r.accepted|
            && (r.end.expected > 0 ==> r.end.transferred <= r.end.expected)
            && (r.end.Content() == r.accepted <==> NoneShort(s, tries))
  {
    WritesConserve(s, tries);
    StrayIffShort(s, tries);
    assert s.Content() + Writes(s, tries).accepted == Writes(s, tries).accepted;
  }

  /** All-or-nothing writes never land in part, so the file is what was accepted. */
  lemma {:induction false} AllOrNothingIsNeverShort(s: FileState, tries: seq<WriteTry>)
    requires s.mode == Write && s.Valid()
    requires forall i :: 0 <= i < |tries| ==>
                tries[i].move.Fails? || tries[i].move.count == 0 || tries[i].move.count == |tries[i].data|
    ensures AllPossible(tries) && NoneShort(s, tries)
    decreases |tries|
  {
    if tries != [] {
      AllOrNothingIsNeverShort(WriteResult(s, tries[0].data, tries[0].move).0, tries[1..]);
    }
  }

  const JUST_OPENED := FileState(Write, "a", 0, 0, 8, 0, map["a" := []])

  /** A write for which it fails: one of two bytes lands, the request is refused, and the byte stays in the file. */
  lemma ShortWriteStays()
    ensures JUST_OPENED.Valid() && AllPossible([WriteTry([1, 2], Moves(1))])
    ensures var r := Writes(JUST_OPENED, [WriteTry([1, 2], Moves(1))]);
            r.accepted == [] && r.end.Content() == [1] && !NoneShort(JUST_OPENED, [WriteTry([1, 2], Moves(1))])
  {
    var t := WriteTry([1, 2], Moves(1));
    assert [t][1..] == [] && t.data[..1] == [1];
    assert WriteResult(JUST_OPENED, t.data, t.move).1 == UploadDownloadNotAccepted;
  }

  // ---- whole reads -------------------------------------------------------------------------------------------

  ghost predicate ReadsPossible(s: FileState, tries: seq<ReadTry>)
    requires s.mode == Read && s.Valid()
    decreases |tries|
  {
    tries != [] ==> ReadTryPossible(s, tries[0]) && ReadsPossible(ReadResult(s, tries[0]).0, tries[1..])
  }

  ghost function Reads(s: FileState, tries: seq<ReadTry>): (r: (FileState, seq<byte>))
    requires s.mode == Read && s.Valid() && ReadsPossible(s, tries)
    ensures r.0.mode == Read && r.0.Valid() && r.0.files == s.files && r.0.path == s.path
    decreases |tries|
  {
    if tries == [] then (s, [])
    else
      var (s', answer) := ReadResult(s, tries[0]);
      var (e, sent) := Reads(s', tries[1..]);
      (e, answer.sent + sent)
  }

  lemma OneRead(s: FileState, t: ReadTry)
    requires s.mode == Read && s.Valid() && ReadTryPossible(s, t)
    requires s.position == s.transferred && t.copyStatus == Positive
    ensures var (s', answer) := ReadResult(s, t);
            && s'.position == s'.transferred == s.transferred + |answer.sent| <= |s.Content()|
            && answer.sent == s.Content()[s.transferred..s'.transferred]
  {
  }

  /** For every file read whose copies succeed, the bytes sent are the prefix of the file of that length. */
  lemma {:induction false} BytesSentArePrefix(s: FileState, tries: seq<ReadTry>)
    requires s.mode == Read && s.Valid() && ReadsPossible(s, tries) && s.position == s.transferred
    requires forall i :: 0 <= i < |tries| ==> tries[i].copyStatus == Positive
    ensures var (e, sent) := Reads(s, tries);
            && e.position == e.transferred == s.transferred + |sent|
            && sent == s.Content()[s.transferred..e.transferred]
    decreases |tries|
  {
    if tries != [] {
      var (s', answer) := ReadResult(s, tries[0]);
      OneRead(s, tries[0]);
      BytesSentArePrefix(s', tries[1..]);
      var (e, sent) := Reads(s', tries[1..]);
      SlicesJoin(s.Content(), s.transferred, s'.transferred, e.transferred);
    }
  }

  /** Write then read: a file of which no write landed only in part reads back as the accepted payloads. */
  lemma WrittenFileReadsBack(s: FileState, writes: seq<WriteTry>, r: FileState, readTries: seq<ReadTry>)
    requires s.mode == Write && s.Valid() && s.Content() == [] && s.transferred == 0 && AllPossible(writes)
    requires r.mode == Read && r.Valid() && r.path == s.path && r.position == r.transferred == 0
    requires NoneShort(s, writes) && r.files == Writes(s, writes).end.files
    requires ReadsPossible(r, readTries) && forall i :: 0 <= i < |readTries| ==> readTries[i].copyStatus == Positive
    ensures var (w, (e, sent)) := (Writes(s, writes), Reads(r, readTries));
            && |sent| <= |w.accepted| && sent == w.accepted[..|sent|]
            && (e.transferred == e.expected ==> sent == w.accepted)
  {
    var w := Writes(s, writes);
    FileIsAcceptedPayloads(s, writes);
    assert r.Content() == w.accepted;
    BytesSentArePrefix(r, readTries);
  }
}
