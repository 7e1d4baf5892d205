/** What whole runs of the transfer engine keep and achieve. */
module TransferRuns {
  import opened Iso14229
  import opened NorFlash
  import opened UploadDownload
  import FileTransfer

  ghost predicate Legal(board: Board, s: State, e: Event, a: Answer, s': State)
  {
    s.Valid() ==> Admissible(s, e) && NoWrap(board, e) && Step(board, s, e, s', a)
  }

  /** A run: the states a sequence of requests passes through, with the answers given. */
  ghost predicate Run(board: Board, states: seq<State>, events: seq<Event>, answers: seq<Answer>)
  {
    && |states| == |events| + 1 && |answers| == |events|
    && forall i {:trigger events[i]} :: 0 <= i < |events| ==> Legal(board, states[i], events[i], answers[i], states[i + 1])
  }

  lemma StepKeepsValid(board: Board, s: State, e: Event, a: Answer, s': State)
    requires s.Valid() && Fits(board, |s.flash|) && Legal(board, s, e, a, s')
    ensures s'.Valid() && |s'.flash| == |s.flash|
  {
    match e
    case TransferData(data, limit, environment) =>
      if s.file.mode == FileTransfer.Write {
        assert s'.file == FileTransfer.WriteResult(s.file, data, environment.fileWrite).0;
      } else if s.file.mode == FileTransfer.Read {
        assert s'.file == FileTransfer.ReadResult(s.file, environment.fileRead).0;
      } else if s.t.mode == Downloading {
        assert DownloadStep(s, data, environment.first, environment.second, s', a.nrc);
      } else if s.t.mode == Uploading {
        assert UploadStep(s, board.maxPayload, limit, environment.readFails, s', a);
      }
    case RequestDownload(addr, size, format) =>
      if a.nrc == Positive {
        AcceptedRangeInsideFlash(board, |s.flash|, addr, size);
      }
    case RequestUpload(addr, size, _) =>
      if a.nrc == Positive {
        AcceptedRangeInsideFlash(board, |s.flash|, addr, size);
      }
    case _ =>
  }

  /** In every run at most one of the two transfers is active, a running flash transfer keeps
      start <= cursor <= start + total <= flash size, and the file bookkeeping is consistent. */
  lemma {:induction false} EveryStateValid(board: Board, states: seq<State>, events: seq<Event>, answers: seq<Answer>,
                                           i: nat)
    requires Run(board, states, events, answers) && states[0].Valid() && Fits(board, |states[0].flash|)
    requires i < |states|
    ensures states[i].Valid() && |states[i].flash| == |states[0].flash|
  {
    if i > 0 {
      EveryStateValid(board, states, events, answers, i - 1);
      StepKeepsValid(board, states[i - 1], events[i - 1], answers[i - 1], states[i]);
    }
  }

  predicate IsStart(e: Event)
  {
    e.RequestDownload? || e.RequestUpload? || e.RequestFile?
  }

  /** After a start request nothing of an earlier transfer is left, whatever the answer: the other transfer is idle,
      and a transfer that runs stands at its beginning. */
  lemma StartLeavesNothing(board: Board, s: State, e: Event, a: Answer, s': State)
    requires s.Valid() && Legal(board, s, e, a, s') && IsStart(e)
    ensures e.RequestFile? ==> s'.t.mode == Idle
    ensures !e.RequestFile? ==> s'.file.mode == FileTransfer.Idle && s'.file.expected == s'.file.transferred == 0
    ensures s'.t.mode != Idle ==> a.nrc == Positive && s'.t.cursor == s'.t.start && s'.t.total == e.size
    ensures s'.file.mode != FileTransfer.Idle ==> a.nrc == Positive && s'.file.transferred == 0
    ensures s'.flash == s.flash
  {
  }

  // ---- downloads ---------------------------------------------------------------------------------------------

  /** The chunks accepted among the first i requests. */
  function Accepted(events: seq<Event>, answers: seq<Answer>, i: nat): seq<byte>
    requires i <= |events| == |answers|
  {
    if i == 0 then []
    else
      Accepted(events, answers, i - 1) +
      if events[i - 1].TransferData? && answers[i - 1].nrc == Positive then events[i - 1].data else []
  }

  ghost predicate IsPiece(image: seq<byte>, k: int, data: seq<byte>)
  {
    0 <= k && k + |data| <= |image| && data == image[k..k + |data|]
  }

  /** The chunks that are not refused for their range are, from wherever the cursor stands, the next piece of an image,
      of any length. */
  ghost predicate SendsPieces(states: seq<State>, events: seq<Event>, answers: seq<Answer>, image: seq<byte>)
    requires |states| == |events| + 1 && |answers| == |events|
  {
    forall i {:trigger events[i]} :: 0 <= i < |events| ==>
      PieceSent(states[0], states[i], events[i], answers[i].nrc, image)
  }

  ghost predicate PieceSent(s: State, m: State, e: Event, nrc: Nrc, image: seq<byte>)
  {
    e.TransferData? && (nrc != RequestOutOfRange ==> IsPiece(image, m.t.cursor - s.t.start, e.data))
  }

  /** No byte outside a range differs. */
  ghost predicate SameOutside(f: seq<byte>, g: seq<byte>, start: nat, total: nat)
  {
    |g| == |f| && forall i :: 0 <= i < |f| && !(start <= i < start + total) ==> g[i] == f[i]
  }

  lemma StaysInside(f: seq<byte>, g: seq<byte>, h: seq<byte>, start: nat, total: nat, at: nat, data: seq<byte>)
    requires SameOutside(f, g, start, total) && start <= at && at + |data| <= start + total && at + |data| <= |g|
    requires h == Programmed(g, at, data) || Torn(g, h, at, data)
    ensures SameOutside(f, h, start, total)
  {
  }

  /** The image up to the cursor is in place; the rest can still be programmed; nothing else has changed. */
  ghost predicate ImageUpTo(f: seq<byte>, g: seq<byte>, base: nat, image: seq<byte>, k: nat)
  {
    && |g| == |f| && base + |image| <= |f| && k <= |image|
    && (forall i :: 0 <= i < |f| && !(base <= i < base + |image|) ==> g[i] == f[i])
    && (forall i :: base <= i < base + k ==> g[i] == image[i - base])
    && (forall i :: base + k <= i < base + |image| ==> g[i] & image[i - base] == image[i - base])
  }

  lemma ChunkLands(f: seq<byte>, g: seq<byte>, base: nat, image: seq<byte>, k: nat, n: nat)
    requires ImageUpTo(f, g, base, image, k) && k + n <= |image|
    ensures ImageUpTo(f, Programmed(g, base + k, image[k..k + n]), base, image, k + n)
  {
  }

  lemma ChunkTears(f: seq<byte>, g: seq<byte>, h: seq<byte>, base: nat, image: seq<byte>, k: nat, n: nat)
    requires ImageUpTo(f, g, base, image, k) && k + n <= |image|
    requires Torn(g, h, base + k, image[k..k + n])
    ensures ImageUpTo(f, h, base, image, k)
  {
    forall i | base + k <= i < base + |image|
      ensures h[i] & image[i - base] == image[i - base]
    {
      if i < base + k + n {
        assert image[k..k + n][i - (base + k)] == image[i - base];
        assert TornCell(g[i], h[i], image[i - base]);
        ByteFacts(g[i], h[i], image[i - base]);
      } else {
        assert h[i] == g[i];
      }
    }
  }

  lemma DataStep(board: Board, s: State, e: Event, a: Answer, s': State)
    requires s.Valid() && e.TransferData? && Legal(board, s, e, a, s')
    ensures s.t.mode == Downloading ==>
              DownloadStep(s, e.data, e.environment.first, e.environment.second, s', a.nrc)
    ensures s.t.mode == Uploading ==> UploadStep(s, board.maxPayload, e.limit, e.environment.readFails, s', a)
  {
  }

  /** Where a download that began in s stands in e after the chunks accepted so far. */
  ghost predicate Downloaded(s: State, e: State, accepted: seq<byte>, image: seq<byte>)
  {
    && |accepted| <= |image| && accepted == image[..|accepted|]
    && e.t == s.t.(cursor := s.t.start + |accepted|) && e.file == s.file
    && SameOutside(s.flash, e.flash, s.t.start, s.t.total)
    && ImageUpTo(s.flash, e.flash, s.t.start, image, |accepted|)
  }

  /** An accepted piece lands. */
  lemma PieceAccepted(s: State, m: State, data: seq<byte>, s': State, accepted: seq<byte>, image: seq<byte>)
    requires Downloaded(s, m, accepted, image) && |accepted| + |data| <= |image|
    requires data == image[|accepted|..|accepted| + |data|]
    requires s'.flash == Programmed(m.flash, m.t.cursor, data) && s'.file == m.file
    requires s'.t == m.t.(cursor := m.t.cursor + |data|) && m.t.cursor + |data| <= m.t.start + m.t.total
    ensures Downloaded(s, s', accepted + data, image)
  {
    StaysInside(s.flash, m.flash, s'.flash, s.t.start, s.t.total, m.t.cursor, data);
    ChunkLands(s.flash, m.flash, s.t.start, image, |accepted|, |data|);
    assert image[..|accepted|] + data == image[..|accepted| + |data|];
  }

  /** A piece that failed part way leaves the cursor and the landed pieces alone. */
  lemma PieceTorn(s: State, m: State, data: seq<byte>, s': State, accepted: seq<byte>, image: seq<byte>)
    requires Downloaded(s, m, accepted, image) && |accepted| + |data| <= |image|
    requires data == image[|accepted|..|accepted| + |data|]
    requires s'.t == m.t && s'.file == m.file && Torn(m.flash, s'.flash, m.t.cursor, data)
    requires m.t.cursor + |data| <= m.t.start + m.t.total
    ensures Downloaded(s, s', accepted, image)
  {
    StaysInside(s.flash, m.flash, s'.flash, s.t.start, s.t.total, m.t.cursor, data);
    ChunkTears(s.flash, m.flash, s'.flash, s.t.start, image, |accepted|, |data|);
  }

  ghost predicate DownloadAttempt(s: State, e: Event, s': State, nrc: Nrc)
  {
    && s.t.mode == Downloading && s.t.block > 0 && e.TransferData?
    && DownloadStep(s, e.data, e.environment.first, e.environment.second, s', nrc)
  }

  lemma PieceAnswered(s: State, m: State, e: Event, s': State, nrc: Nrc, accepted: seq<byte>, image: seq<byte>)
    requires DownloadAttempt(m, e, s', nrc) && PieceSent(s, m, e, nrc, image)
    requires Downloaded(s, m, accepted, image)
    ensures Downloaded(s, s', accepted + if nrc == Positive then e.data else [], image)
  {
    if nrc == Positive {
      PieceAccepted(s, m, e.data, s', accepted, image);
    } else {
      assert accepted + [] == accepted;
      if nrc == GeneralProgrammingFailure {
        PieceTorn(s, m, e.data, s', accepted, image);
      }
    }
  }

  /** A run of data requests seen by the flash download alone. */
  ghost predicate Downloads(states: seq<State>, events: seq<Event>, answers: seq<Answer>)
  {
    && |states| == |events| + 1 && |answers| == |events|
    && forall i {:trigger events[i]} :: 0 <= i < |events| ==> DownloadAttempt(states[i], events[i], states[i + 1], answers[i].nrc)
  }

  lemma {:induction false} RunDownloads(board: Board, states: seq<State>, events: seq<Event>, answers: seq<Answer>,
                                        i: nat)
    requires Run(board, states, events, answers) && i <= |events|
    requires forall k :: 0 <= k < |events| ==> events[k].TransferData?
    requires states[0].Valid() && Fits(board, |states[0].flash|) && states[0].t.mode == Downloading
    ensures states[i].t.mode == Downloading
    ensures Downloads(states[..i + 1], events[..i], answers[..i])
  {
    if i > 0 {
      RunDownloads(board, states, events, answers, i - 1);
      EveryStateValid(board, states, events, answers, i - 1);
      DataStep(board, states[i - 1], events[i - 1], answers[i - 1], states[i]);
    }
  }

  lemma {:induction false} ChainDownloads(states: seq<State>, events: seq<Event>, answers: seq<Answer>,
                                          image: seq<byte>, i: nat)
    requires Downloads(states, events, answers) && SendsPieces(states, events, answers, image) && i <= |events|
    requires states[0].t.cursor == states[0].t.start && Programmable(states[0].flash, states[0].t.start, image)
    ensures Downloaded(states[0], states[i], Accepted(events, answers, i), image)
  {
    if i > 0 {
      var k := i - 1;
      ChainDownloads(states, events, answers, image, k);
      var m, e, s', nrc := states[k], events[k], states[k + 1], answers[k].nrc;
      assert DownloadAttempt(m, e, s', nrc) && PieceSent(states[0], m, e, nrc, image);
      PieceAnswered(states[0], m, e, s', nrc, Accepted(events, answers, k), image);
    } else {
      DownloadBegins(states[0], image);
    }
  }

  lemma DownloadBegins(s: State, image: seq<byte>)
    requires s.t.cursor == s.t.start && Programmable(s.flash, s.t.start, image)
    ensures Downloaded(s, s, [], image)
  {
  }

  /** For every flash download: at each moment flash from start to the cursor is the concatenation of the chunks
      accepted so far, nothing outside the image or the requested range has changed, and chunks that failed part way did
      no harm. */
  lemma DownloadRun(board: Board, states: seq<State>, events: seq<Event>, answers: seq<Answer>, image: seq<byte>,
                    i: nat)
    requires Run(board, states, events, answers) && SendsPieces(states, events, answers, image) && i <= |events|
    requires states[0].Valid() && Fits(board, |states[0].flash|)
    requires states[0].t.mode == Downloading && states[0].t.cursor == states[0].t.start
    requires Programmable(states[0].flash, states[0].t.start, image)
    ensures Downloaded(states[0], states[i], Accepted(events, answers, i), image)
  {
    RunDownloads(board, states, events, answers, |events|);
    assert states[..|events| + 1] == states && events[..|events|] == events && answers[..|events|] == answers;
    ChainDownloads(states, events, answers, image, i);
  }

  /** What Downloaded means for a reader of the flash. */
  lemma DownloadedReadsBack(s: State, e: State, accepted: seq<byte>, image: seq<byte>)
    requires Downloaded(s, e, accepted, image)
    ensures e.flash[s.t.start..e.t.cursor] == accepted
    ensures forall i :: 0 <= i < |s.flash| && !(s.t.start <= i < s.t.start + s.t.total) ==> e.flash[i] == s.flash[i]
    ensures forall i :: 0 <= i < |s.flash| && !(s.t.start <= i < s.t.start + |image|) ==> e.flash[i] == s.flash[i]
  {
  }

  /** A chunk that failed part way, sent again and accepted, leaves what sending it once would have left. */
  lemma ResendSameResult(board: Board, s: State, e1: Event, a1: Answer, m: State, e2: Event, a2: Answer, s': State)
    requires s.Valid() && m.Valid() && s.t.mode == Downloading
    requires e1.TransferData? && e2.TransferData? && e1.data == e2.data
    requires Legal(board, s, e1, a1, m) && a1.nrc == GeneralProgrammingFailure
    requires Legal(board, m, e2, a2, s') && a2.nrc == Positive
    ensures s.t.cursor + |e1.data| <= |s.flash|
    ensures s' == s.(flash := Programmed(s.flash, s.t.cursor, e1.data), t := s.t.(cursor := s.t.cursor + |e1.data|))
  {
    ResendAfterTorn(s.flash, m.flash, s.t.cursor, e1.data);
  }

  // ---- uploads -----------------------------------------------------------------------------------------------

  function Sent(answers: seq<Answer>, i: nat): seq<byte>
    requires i <= |answers|
  {
    if i == 0 then [] else Sent(answers, i - 1) + answers[i - 1].sent
  }

  ghost predicate DataRequests(events: seq<Event>)
  {
    forall i :: 0 <= i < |events| ==>
      events[i].TransferData? && events[i].limit > 0 && !events[i].environment.readFails
  }

  /** Where an upload that began in s stands in e after sending some bytes. */
  ghost predicate Uploaded(s: State, e: State, sent: seq<byte>)
  {
    && e == s.(t := s.t.(cursor := e.t.cursor))
    && s.t.start <= e.t.cursor <= s.t.start + s.t.total <= |s.flash|
    && sent == s.flash[s.t.start..e.t.cursor]
    && |sent| + (s.t.start + s.t.total - e.t.cursor) == s.t.total
  }

  lemma UploadGrows(s: State, m: State, maxPayload: nat, limit: nat, s': State, a: Answer, sent: seq<byte>)
    requires Uploaded(s, m, sent) && UploadStep(m, maxPayload, limit, false, s', a) && maxPayload > 0 && limit > 0
    ensures Uploaded(s, s', sent + a.sent)
    ensures |sent + a.sent| >= Least(|sent| + 1, s.t.total)
  {
    assert s.flash[s.t.start..m.t.cursor] + s.flash[m.t.cursor..s'.t.cursor] == s.flash[s.t.start..s'.t.cursor];
  }

  /** For every upload: the responses so far are flash from start to the cursor, sent plus remaining is constant, and
      every request sends something until nothing remains. */
  lemma {:induction false} UploadRun(board: Board, states: seq<State>, events: seq<Event>, answers: seq<Answer>, i: nat)
    requires Run(board, states, events, answers) && DataRequests(events) && i <= |events|
    requires states[0].Valid() && Fits(board, |states[0].flash|)
    requires states[0].t.mode == Uploading && states[0].t.cursor == states[0].t.start
    ensures Uploaded(states[0], states[i], Sent(answers, i))
    ensures |Sent(answers, i)| >= Least(i, states[0].t.total)
  {
    if i > 0 {
      UploadRun(board, states, events, answers, i - 1);
      EveryStateValid(board, states, events, answers, i - 1);
      DataStep(board, states[i - 1], events[i - 1], answers[i - 1], states[i]);
      UploadGrows(states[0], states[i - 1], board.maxPayload, events[i - 1].limit, states[i], answers[i - 1],
                  Sent(answers, i - 1));
    }
  }

  /** At most `total` requests finish an upload; from then on each one gets the sequence error and changes nothing. */
  lemma UploadFinishes(board: Board, states: seq<State>, events: seq<Event>, answers: seq<Answer>, i: nat)
    requires Run(board, states, events, answers) && DataRequests(events)
    requires states[0].Valid() && Fits(board, |states[0].flash|)
    requires states[0].t.mode == Uploading && states[0].t.cursor == states[0].t.start
    requires states[0].t.total <= i < |events|
    ensures Sent(answers, i) == states[0].flash[states[0].t.start..states[0].t.start + states[0].t.total]
    ensures answers[i] == Answer(RequestSequenceError, []) && states[i + 1] == states[i]
  {
    UploadRun(board, states, events, answers, i);
    EveryStateValid(board, states, events, answers, i);
    DataStep(board, states[i], events[i], answers[i], states[i + 1]);
  }
}
