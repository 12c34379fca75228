/** Runs of a download: any sequence of callbacks, timer ticks, commands and job completions. */
module DownloadRun {
  import opened Bytes
  import opened Wrappers
  import opened FileRanges
  import opened FileMap
  import opened Range
  import opened Ownership
  import opened Thex
  import opened TreeShape
  import opened HashedParts
  import opened Downloads

  datatype Event =
    | Connected(who: nat, result: IoResult, input: Input)
    | HeadersSent(who: nat, result: IoResult, now: int)
    | HeadersReceived(who: nat, result: IoResult, response: Response, input: Input)
    | DataReceived(who: nat, result: IoResult, data: seq<byte>, input: Input)
    | Tick(inputs: nat -> Input, source: Option<Task>)
    | Giv(garbage: Task, input: Input, known: bool, room: bool)
    | JobStarted
    | JobDone(readable: bool, others: bool, copied: bool)
    | StopCommand
    | PauseCommand
    | ResumeCommand(canOpen: bool)
    | CancelCommand
  {
    predicate OfDownloader() { Connected? || HeadersSent? || HeadersReceived? || DataReceived? }

    predicate OfUser() { StopCommand? || PauseCommand? || ResumeCommand? || CancelCommand? }
  }

  ghost predicate Fits(e: Event, tiger: Hasher, size: nat) {
    match e
    case Connected(_, _, input) => input.Fits(tiger, size)
    case HeadersReceived(_, _, _, input) => input.Fits(tiger, size)
    case DataReceived(_, _, _, input) => input.Fits(tiger, size)
    case Giv(_, input, _, _) => input.Fits(tiger, size)
    case _ => true
  }

  /** The callback belongs to an operation of p that was started and is not over. */
  predicate Awaited(p: DownloaderImpl, e: Event)
    reads p
  {
    p.status.Closed? ||
    match e
    case Connected(_, _, _) => p.status.Connecting?
    case HeadersSent(_, _, _) => p.status.Chat?
    case HeadersReceived(_, _, response, _) => p.status.Chat? && !Overruns(response, p.task, p.myRange)
    case DataReceived(_, _, data, _) => p.status.Transfer? && p.active && |data| == p.requested
    case _ => true
  }

  /** The event can occur: a callback that somebody waits for, a job that is running, a command
      that the user interface allows. */
  predicate CanOccur(d: Download, e: Event)
    requires forall k :: 0 <= k < |d.created| ==> d.created[k] in d.everyone
    reads d, d.everyone
  {
    && (e.OfDownloader() ==> e.who < |d.created| && Awaited(d.created[e.who], e))
    && (e.JobStarted? ==> d.work.Working? && !d.work.running)
    && (e.JobDone? ==> d.work.Working? && d.work.running)
    && (e.ResumeCommand? ==> d.status in {Stopped, Paused})
  }

  /** A hash job of a live download is done, and its digest is the right one. */
  predicate Finds(d: Download, e: Event)
    reads d
  {
    && e.JobDone? && d.work.Live() && d.work.job.Hash?
    && d.Matches(d.work.job.range, Report(d, e))
  }

  /** What the hash job of the download reports: it has read the bytes of its range. */
  function Report(d: Download, e: Event): HashResult
    reads d
    requires e.JobDone?
  {
    if e.readable && d.work.Working? && d.work.job.Hash? && d.work.job.range.offset + d.work.job.range.length <= |d.content| then
      Computed(ThexRoot(d.tiger, d.content[d.work.job.range.offset..d.work.job.range.offset + d.work.job.range.length]), e.others)
    else FileError
  }

  /** A callback of the downloader p. */
  method Callback(d: Download, p: DownloaderImpl, e: Event)
    requires d.Valid() && Fits(e, d.tiger, d.size) && p in d.everyone && Awaited(p, e) && e.OfDownloader()
    modifies d, d.fileMap, d.everyone
    ensures d.Valid() && d.everyone == old(d.everyone) && d.created == old(d.created) && d.Learnt(old(d.tree), old(d.ttr))
    ensures Kept(old(d.fileMap.Bytes()), old(d.content), d.fileMap.Bytes(), d.content)
    ensures old(p.status.Closed?) ==> Idles(d, old(d.status), old(d.downloaders), old(d.work), old(d.fileMap.Bytes()))
    ensures e.result == Broken ==> p.status.Closed? && p !in d.downloaders
    ensures e.result == IoResult.Aborted || old(p.status.Closed?) ==> p.status == old(p.status) && d.fileMap.Bytes() == old(d.fileMap.Bytes())
    ensures e.Connected? && e.result == Good ==> p.status in {Chat, DownloaderStatus.Closed}
    ensures e.HeadersSent? && e.result == Good && !old(p.status.Closed?) ==> p.timestamp == e.now
    ensures e.HeadersReceived? && e.result == Good && !Accepts(e.response, old(p.task), old(p.myRange)) ==> p.status.Closed?
    ensures e.DataReceived? && e.result == Good && !old(p.status.Closed?) && old(p.task) == FileTask ==>
      old(InFile(p.myRange, d.size)) && d.content == Written(old(d.content), old(p.myRange.offset + p.offset), e.data)
  {
    hide Owned, Accepted, Flat, Contiguous, OrAll, OrRanges, Download.HashSound, Download.StatusSound, Download.PeersSound;
    d.Member(p);
    if p.status.Closed? { return; }
    match e {
      case Connected(_, result, input) => p.OnConnected(result, input);
      case HeadersSent(_, result, now) =>
        p.OnHeadersSent(result, now);
        SavedKept(old(d.fileMap.Bytes()), d.fileMap.Bytes(), d.content);
      case HeadersReceived(_, result, response, input) => var inside := p.OnHeadersReceived(result, response, input);
      case DataReceived(_, result, data, input) => p.OnTransfer(result, data, input);
      case _ =>
    }
  }

  method Command(d: Download, e: Event)
    requires d.Valid() && e.OfUser() && (e.ResumeCommand? ==> d.status in {Stopped, Paused})
    modifies d, d.fileMap, d.everyone
    ensures d.Valid() && d.everyone == old(d.everyone) && d.tree == old(d.tree) && d.ttr == old(d.ttr)
    ensures Kept(old(d.fileMap.Bytes()), old(d.content), d.fileMap.Bytes(), d.content)
    ensures if e.ResumeCommand? then d.status == if e.canOpen then Transferring else Failed
            else d.status == (if e.PauseCommand? then Paused else Stopped) && d.downloaders == {} && !d.work.Live()
  {
    match e {
      case StopCommand => d.Stop();
      case PauseCommand => d.Pause();
      case CancelCommand => d.Cancel();
      case ResumeCommand(canOpen) => d.Resume(canOpen);
      case _ =>
    }
    SavedKept(old(d.fileMap.Bytes()), d.fileMap.Bytes(), d.content);
  }

  /** The state, the downloaders, the job and the bytes are as they were. */
  ghost predicate Idles(d: Download, status: DownloadStatus, downloaders: set<DownloaderImpl>, work: Work, bytes: seq<Status>)
    reads d, d.fileMap
  {
    d.status == status && d.downloaders == downloaders && d.work == work && d.fileMap.Bytes() == bytes
  }

  /** One event. Bytes become VALID only when a hash job finds the right digest. */
  method Step(d: Download, e: Event)
    requires d.Valid() && Fits(e, d.tiger, d.size) && CanOccur(d, e)
    modifies d, d.fileMap, d.everyone
    ensures d.Valid() && fresh(d.everyone - old(d.everyone)) && d.Learnt(old(d.tree), old(d.ttr))
    ensures !old(Finds(d, e)) ==> Kept(old(d.fileMap.Bytes()), old(d.content), d.fileMap.Bytes(), d.content)
    ensures old(Finds(d, e)) ==>
      && old(InFile(d.work.job.range, d.size)) && old(AllAre(d.fileMap.Bytes(), d.work.job.range, FULL))
      && old(d.work.job.range.length != d.size ==> d.tree.Some? && d.PartOf(d.work.job.range, d.tree.value))
      && d.content == old(d.content) && d.tree == old(d.tree) && d.ttr == old(d.ttr)
      && d.fileMap.Bytes() == Overwritten(old(d.fileMap.Bytes()), old(d.work.job.range), VALID)
    ensures e.OfDownloader() && e.result == Broken ==> old(d.created[e.who]).status.Closed?
    ensures e.OfUser() && !e.ResumeCommand? ==> d.downloaders == {} && !d.work.Live()
    ensures old(Stuck(d)) && !e.OfUser() ==> Stuck(d) && d.fileMap.Bytes() == old(d.fileMap.Bytes()) && d.created == old(d.created)
  {
    hide Owned, Accepted, Flat, Contiguous, OrAll, OrRanges;
    if e.OfDownloader() {
      Callback(d, d.created[e.who], e);
    } else if e.OfUser() {
      Command(d, e);
    } else {
      match e {
        case Tick(inputs, source) => d.OnTimer(inputs, source);
        case Giv(garbage, input, known, room) => var handled := d.HandleGIV(garbage, input, known, room);
        case JobStarted => d.work := d.work.(running := true);
        case JobDone(_, _, copied) => EndJob(d, e, copied);
        case _ =>
      }
    }
  }

  method EndJob(d: Download, e: Event, copied: bool)
    requires d.Valid() && e.JobDone? && d.work.Working? && d.work.running
    modifies d, d.fileMap, d.everyone
    ensures d.Valid() && d.everyone == old(d.everyone) && d.content == old(d.content) && d.tree == old(d.tree) && d.ttr == old(d.ttr)
    ensures !old(Finds(d, e)) ==> Kept(old(d.fileMap.Bytes()), d.content, d.fileMap.Bytes(), d.content)
    ensures old(Finds(d, e)) ==>
      && old(InFile(d.work.job.range, d.size)) && old(AllAre(d.fileMap.Bytes(), d.work.job.range, FULL))
      && old(d.work.job.range.length != d.size ==> d.tree.Some? && d.PartOf(d.work.job.range, d.tree.value))
      && d.fileMap.Bytes() == Overwritten(old(d.fileMap.Bytes()), old(d.work.job.range), VALID)
    ensures !old(d.work.Live()) ==> d.fileMap.Bytes() == old(d.fileMap.Bytes()) && d.status == old(d.status) && d.work == NoWork && d.downloaders <= old(d.downloaders)
    ensures d.created == old(d.created)
    ensures old(d.work.Live()) && old(d.work.job.Hash?) && e.readable ==>
      if Uniform(d.fileMap.Bytes(), VALID) then d.status == Moving && d.work == Working(Copy(false), false, false)
      else if Uniform(d.fileMap.Bytes(), INVALID) then d.status == Moving && d.work == Working(Copy(true), false, false)
      else d.status == Transferring
  {
    hide Owned, Accepted, Flat, Contiguous, OrAll, OrRanges, HashAt;
    d.TaskDone(Report(d, e), copied);
  }

  /** When the bytes of the hashed range are those of the file whose tree is known, the job finds them
      right, unless the range is the end of the file and begins inside a slice. */
  lemma RightBytesFound(d: Download, e: Event, file: seq<byte>)
    requires d.Valid() && e.JobDone? && e.readable && d.work.Live() && d.work.job.Hash?
    requires d.tree.Some? && |file| == d.size && TreeOf(d.tiger, d.tree.value, file)
    requires var r := d.work.job.range;
      && (r.length == d.size || (d.tree.value.blockSize > 0 && r.offset % d.tree.value.blockSize == 0))
      && forall i :: r.Has(i) && 0 <= i < d.size ==> d.content[i] == file[i]
    ensures Finds(d, e)
  {
    hide Owned, Accepted, Flat, Contiguous, OrAll, OrRanges, TreeOf, HashAt, ThexRoot, Download.PeersSound;
    var r := d.work.job.range;
    assert d.content[r.offset..r.offset + r.length] == file[r.offset..r.offset + r.length];
    if r.length == d.size {
      RightRoot(d.tiger, d.tree.value, file);
      assert file[..d.size] == file;
    } else {
      RightPartPasses(d.tiger, d.tree.value, file, r);
    }
  }

  /** A part is found right exactly if its bytes have the digest of the slice in which it begins. At the end of
      the file that slice may begin before the part does, and then even the right bytes fail. */
  lemma PartFoundIff(d: Download, e: Event, file: seq<byte>, first: nat, end: nat)
    requires d.Valid() && e.JobDone? && e.readable && d.work.Live() && d.work.job.Hash? && d.work.job.range.length != d.size
    requires d.tree.Some? && |file| == d.size && TreeOf(d.tiger, d.tree.value, file) && d.tree.value.blockSize > 0
    requires var at, slice := d.work.job.range.offset, d.tree.value.blockSize;
      first == at - at % slice && end == if first + slice < d.size then first + slice else d.size
    ensures first <= end && d.work.job.range.offset + d.work.job.range.length <= |d.content|
    ensures Finds(d, e) <==>
      var r := d.work.job.range;
      ThexRoot(d.tiger, d.content[r.offset..r.offset + r.length]) == ThexRoot(d.tiger, file[first..end])
  {
    hide Owned, Accepted, Flat, Contiguous, OrAll, OrRanges, TreeOf, HashAt, ThexRoot, Download.PeersSound;
    PartHashIs(d.tiger, d.tree.value, file, d.work.job.range, first, end);
  }

  /** The digests that a run has compared, so far. */
  ghost predicate Checked(d: Download, parts: set<FileRange>)
    reads d, d.fileMap
  {
    Sure(d.tiger, d.tree, d.ttr, d.fileMap.Bytes(), d.content, parts)
  }

  /** An event, and what it adds to the parts that were found valid by their digest. */
  method CheckedStep(d: Download, e: Event, ghost parts: set<FileRange>) returns (ghost more: set<FileRange>)
    requires d.Valid() && Fits(e, d.tiger, d.size) && CanOccur(d, e)
    modifies d, d.fileMap, d.everyone
    ensures d.Valid() && fresh(d.everyone - old(d.everyone))
    ensures StillValid(old(d.fileMap.Bytes()), old(d.content), d.fileMap.Bytes(), d.content)
    ensures old(Checked(d, parts)) && !(e.JobDone? && e.others) ==> Checked(d, more)
  {
    hide Owned, Sure, Accepted, Flat, Contiguous, OrAll, OrRanges, Download.PeersSound;
    ghost var bytes, content, tree, root := d.fileMap.Bytes(), d.content, d.tree, d.ttr;
    ghost var found, part := Finds(d, e), d.work.Working? && d.work.job.Hash? && d.work.job.range.length != d.size;
    ghost var r := if d.work.Working? && d.work.job.Hash? then d.work.job.range else FileRange(0, 0);
    more := parts;
    Step(d, e);
    if !found {
      if Sure(d.tiger, tree, root, bytes, content, parts) {
        SureKept(d.tiger, tree, root, bytes, content, parts, d.tree, d.ttr, d.fileMap.Bytes(), d.content);
      }
    } else if Sure(d.tiger, tree, root, bytes, content, parts) && !e.others {
      if part {
        SurePart(d.tiger, tree.value, root, bytes, content, parts, r);
        more := parts + {r};
      } else {
        SureWhole(d.tiger, tree, root, bytes, content, parts, r);
      }
    }
  }

  /** Through every run the bytes being fetched are exactly the disjoint union of the ranges of
      the downloaders that fetch, the range being hashed is full and keeps its content, and a
      byte found valid stays valid and is never written again; a file is moved when all its bytes
      are valid, or all are invalid. None of the assertions of the file map can fail, because
      every call of ModifyRange on the way meets its precondition. */
  method Run(d: Download, events: seq<Event>)
    requires d.Valid() && forall e :: e in events ==> Fits(e, d.tiger, d.size)
    modifies d, d.fileMap, d.everyone
    ensures d.Valid()
    ensures Owned(d.fileMap.Bytes(), d.claims)
    ensures forall p :: p in d.claims <==> p in d.downloaders && p.Fetching()
    ensures forall p :: p in d.claims ==> d.claims[p] == p.myRange
    ensures d.work.Live() && d.work.job.Hash? ==>
      && AllAre(d.fileMap.Bytes(), d.work.job.range, FULL)
      && d.content[d.work.job.range.offset..d.work.job.range.offset + d.work.job.range.length] == d.snapshot
    ensures d.status == Moving ==> (forall b :: b in d.fileMap.Bytes() ==> b == VALID) || (forall b :: b in d.fileMap.Bytes() ==> b == INVALID)
    ensures StillValid(old(d.fileMap.Bytes()), old(d.content), d.fileMap.Bytes(), d.content)
  {
    var last := CheckedRun(d, events);
    if d.status == Moving { AllOf(d.fileMap.Bytes(), OrAll(d.fileMap.Bytes())); }
  }

  /** A run that begins without valid bytes, and in which no file is accepted for the sake of other
      digests: every valid byte lies in a part whose content has the digest that the tree holds
      for it, and a file that is moved as valid has the root digest. */
  method CheckedRun(d: Download, events: seq<Event>) returns (ghost parts: set<FileRange>)
    requires d.Valid() && forall e :: e in events ==> Fits(e, d.tiger, d.size)
    modifies d, d.fileMap, d.everyone
    ensures d.Valid() && fresh(d.everyone - old(d.everyone))
    ensures StillValid(old(d.fileMap.Bytes()), old(d.content), d.fileMap.Bytes(), d.content)
    ensures VALID !in old(d.fileMap.Bytes()) && (forall e :: e in events && e.JobDone? ==> !e.others) ==>
      && (forall i :: 0 <= i < d.size && d.fileMap.Bytes()[i] == VALID ==>
            d.ttr == Some(ThexRoot(d.tiger, d.content)) ||
            (d.tree.Some? && exists r :: Proves(d.tiger, d.tree.value, d.content, r) && r.Has(i)))
      && (d.status == Moving && VALID in d.fileMap.Bytes() ==> d.ttr == Some(ThexRoot(d.tiger, d.content)))
  {
    hide Owned, Sure;
    parts := {};
    ghost var fair := VALID !in d.fileMap.Bytes() && forall e :: e in events && e.JobDone? ==> !e.others;
    if fair { NothingYet(d.tiger, d.tree, d.ttr, d.fileMap.Bytes(), d.content); }
    for i := 0 to |events|
      invariant d.Valid() && fresh(d.everyone - old(d.everyone))
      invariant StillValid(old(d.fileMap.Bytes()), old(d.content), d.fileMap.Bytes(), d.content)
      invariant fair ==> Checked(d, parts)
    {
      if CanOccur(d, events[i]) {
        ghost var bytes, content := d.fileMap.Bytes(), d.content;
        parts := CheckedStep(d, events[i], parts);
        StillValidAlong(old(d.fileMap.Bytes()), old(d.content), bytes, content, d.fileMap.Bytes(), d.content);
      }
    }
    if fair { Conclude(d, parts); }
  }

  lemma NothingYet(tiger: Hasher, tree: Option<Tree>, root: Option<Digest>, bytes: seq<Status>, content: seq<byte>)
    requires VALID !in bytes && |bytes| == |content|
    ensures Sure(tiger, tree, root, bytes, content, {})
  {
  }

  lemma StillValidAlong(b0: seq<Status>, c0: seq<byte>, b1: seq<Status>, c1: seq<byte>, b2: seq<Status>, c2: seq<byte>)
    requires StillValid(b0, c0, b1, c1) && StillValid(b1, c1, b2, c2)
    ensures StillValid(b0, c0, b2, c2)
  {
  }

  lemma Conclude(d: Download, parts: set<FileRange>)
    requires d.Valid() && Checked(d, parts)
    ensures forall i :: 0 <= i < d.size && d.fileMap.Bytes()[i] == VALID ==>
      d.ttr == Some(ThexRoot(d.tiger, d.content)) ||
      (d.tree.Some? && exists r :: Proves(d.tiger, d.tree.value, d.content, r) && r.Has(i))
    ensures d.status == Moving && VALID in d.fileMap.Bytes() ==> d.ttr == Some(ThexRoot(d.tiger, d.content))
  {
    hide Owned, Sure;
    var bytes := d.fileMap.Bytes();
    forall i | 0 <= i < d.size && bytes[i] == VALID
      ensures d.ttr == Some(ThexRoot(d.tiger, d.content)) || (d.tree.Some? && exists r :: Proves(d.tiger, d.tree.value, d.content, r) && r.Has(i))
    {
      SureByte(d.tiger, d.tree, d.ttr, bytes, d.content, parts, i);
    }
    if d.status == Moving && VALID in bytes {
      AllOf(bytes, OrAll(bytes));
      SureRoot(d.tiger, d.tree, d.ttr, bytes, d.content, parts);
    }
  }

  // ----- a download that cannot go on -----

  /** Nobody fetches, nothing is hashed, and nothing is left to fetch. */
  ghost predicate Stuck(d: Download)
    reads d, d.fileMap
  {
    && d.status == Transferring && d.downloaders == {} && !d.work.Live()
    && OrAll(d.fileMap.Bytes()) & (EMPTY | INVALID) == 0
  }

  /** Then no callback, tick, connection or job ever changes anything again. */
  method StaysStuck(d: Download, events: seq<Event>)
    requires d.Valid() && Stuck(d) && forall e :: e in events ==> Fits(e, d.tiger, d.size) && !e.OfUser()
    modifies d, d.fileMap, d.everyone
    ensures d.Valid() && Stuck(d)
    ensures d.fileMap.Bytes() == old(d.fileMap.Bytes()) && d.created == old(d.created)
  {
    for i := 0 to |events|
      invariant d.Valid() && Stuck(d) && fresh(d.everyone - old(d.everyone))
      invariant d.fileMap.Bytes() == old(d.fileMap.Bytes()) && d.created == old(d.created)
    {
      if CanOccur(d, events[i]) { Step(d, events[i]); }
    }
  }

  /** A download is resumed, and then anything happens but commands. If no byte is vacant, as when
      it was stopped during its last hashes, nothing is ever hashed or moved. */
  method ResumedFull(d: Download, events: seq<Event>)
    requires d.Valid() && d.status in {Stopped, Paused} && OrAll(d.fileMap.Bytes()) & (EMPTY | INVALID) == 0
    requires forall e :: e in events ==> Fits(e, d.tiger, d.size) && !e.OfUser()
    modifies d, d.fileMap, d.everyone
    ensures d.Valid() && d.status == Transferring && d.downloaders == {} && !d.work.Live()
    ensures d.fileMap.Bytes() == old(d.fileMap.Bytes())
  {
    d.Resume(true);
    StaysStuck(d, events);
  }

  /** A resumed download goes on exactly if a byte is vacant: then the next tick with a source
      connects a downloader. */
  method ResumedTick(d: Download, inputs: nat -> Input, source: Task)
    requires d.Valid() && d.status in {Stopped, Paused}
    modifies d, d.fileMap, d.everyone
    ensures d.Valid()
    ensures d.downloaders != {} <==> OrAll(old(d.fileMap.Bytes())) & (EMPTY | INVALID) != 0
    ensures d.downloaders == {} ==> Stuck(d)
  {
    d.Resume(true);
    d.OnTimer(inputs, Some(source));
  }
}
