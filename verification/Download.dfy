/** The run of one download: its downloaders, its file map and its background job (download.cpp,
    downloader_impl.cpp). Sockets, clocks and random choices are inputs of the steps. */
module Downloads {
  import opened Bytes
  import opened Wrappers
  import opened Range
  import opened FileRanges
  import opened FileMap
  import opened Ownership
  import opened Thex
  import opened HashedParts

  const MAX_REQUEST: FileOffset := 128 * 1024
  const MAX_TIGER: nat := 24 * 1024
  const STALLED: int := 10
  const CHUNK: nat := 16 * 1024

  function Least(a: nat, b: nat): nat {
    if a < b then a else b
  }

  datatype DownloaderStatus = Idle | Error | Connecting | Transfer | Chat | Queued | Closed
  datatype Task = NoTask | TigerTask | FileTask
  datatype DownloadStatus = Transferring | Hashing | Moving | Paused | Stopped | Failed

  /** Hashing a range of the file, or copying it to where it belongs, as corrupted or not. */
  datatype Job = Hash(range: FileRange) | Copy(corrupted: bool)

  /** The background job; an aborted running job stays until the server has noticed its end. */
  datatype Work = NoWork | Working(job: Job, running: bool, aborted: bool) {
    predicate Live() { Working? && !aborted }
  }

  /** What a step gets from outside: the time, how much the traffic manager grants, the random
      picks, and the tiger tree if the bytes of one arrive whole and FromBytes accepts them. */
  datatype Input = Input(now: int, grant: nat, pick: nat, pickBlock: nat, tree: Option<Tree>) {
    ghost predicate Fits(tiger: Hasher, size: nat) {
      tree.Some? ==> Accepted(tiger, tree.value, size) && size + tree.value.blockSize <= WORD
    }
  }

  /** What a hash job reports: the tiger digest of its range, and whether one of the other
      digests is the one known of the file. */
  datatype HashResult = FileError | Computed(ttr: Digest, others: bool)

  datatype IoResult = Good | Aborted | Broken

  /** Header lines of a response, as far as they are understood. */
  datatype Header =
    | AvailableRanges(bounds: seq<(FileOffset, FileOffset)>)
    | TigerUri
    | ContentLength(length: FileOffset)
    | XQueue(pollMin: nat)
    | ContentRange(first: FileOffset, last: FileOffset, total: FileOffset)
    | Malformed
    | Other

  datatype Response = Response(code: Option<int>, headers: seq<Header>, chunk: seq<byte>)

  /** By every clock reading the time lies more than ten seconds back. */
  ghost predicate LongAgo(inputs: nat -> Input, time: int) {
    forall n: nat :: inputs(n).now - time > 10
  }

  /** What the last Content-Length line says. */
  function LengthOf(headers: seq<Header>): FileOffset {
    if headers == [] then 0
    else match headers[|headers| - 1]
      case ContentLength(n) => n
      case _ => LengthOf(headers[..|headers| - 1])
  }

  /** What the last Content-Range line says. */
  function BoundsOf(headers: seq<Header>): (FileOffset, FileOffset) {
    if headers == [] then (0, 0)
    else match headers[|headers| - 1]
      case ContentRange(first, last, _) => (first, last)
      case _ => BoundsOf(headers[..|headers| - 1])
  }

  /** That line is the last one of its kind that counts. */
  lemma {:induction false} LengthIsLast(headers: seq<Header>, i: nat)
    requires i <= |headers| && forall j :: i < j < |headers| ==> !headers[j].ContentLength?
    ensures i < |headers| && headers[i].ContentLength? ==> LengthOf(headers) == headers[i].length
    ensures (forall h :: h in headers ==> !h.ContentLength?) ==> LengthOf(headers) == 0
    decreases |headers|
  {
    if headers != [] {
      LengthIsLast(headers[..|headers| - 1], if i < |headers| then i else |headers| - 1);
    }
  }

  lemma {:induction false} BoundsAreLast(headers: seq<Header>, i: nat)
    requires i <= |headers| && forall j :: i < j < |headers| ==> !headers[j].ContentRange?
    ensures i < |headers| && headers[i].ContentRange? ==> BoundsOf(headers) == (headers[i].first, headers[i].last)
    ensures (forall h :: h in headers ==> !h.ContentRange?) ==> BoundsOf(headers) == (0, 0)
    decreases |headers|
  {
    if headers != [] {
      BoundsAreLast(headers[..|headers| - 1], if i < |headers| then i else |headers| - 1);
    }
  }

  predicate Sensible(h: Header) {
    !h.Malformed? && (h.ContentRange? ==> h.first <= h.last && h.total > 0)
  }

  predicate Understood(headers: seq<Header>) {
    forall h :: h in headers ==> Sensible(h)
  }

  predicate Queues(headers: seq<Header>) {
    exists h :: h in headers && h.XQueue?
  }

  /** The answers a downloader accepts: exactly the range it asked for, a tree of a sane length,
      or a place in a queue. */
  predicate Accepts(response: Response, task: Task, range: FileRange) {
    && response.code.Some? && Understood(response.headers)
    && (if response.code.value in {200, 206} then
          if task == FileTask then BoundsOf(response.headers) == (range.First(), range.Last())
          else 0 < LengthOf(response.headers) < MAX_TIGER
        else response.code.value == 503 && Queues(response.headers))
  }

  /** How much was asked for: the range, or as long a tree as the answer says. */
  function Due(response: Response, task: Task, range: FileRange): FileOffset {
    if task == FileTask then range.length else LengthOf(response.headers)
  }

  /** An accepted answer with which more came along than was asked for. */
  predicate Overruns(response: Response, task: Task, range: FileRange) {
    Accepts(response, task, range) && response.code.value != 503 && |response.chunk| > Due(response, task, range)
  }

  /** X-Available-Ranges: the pairs of bounds up to the first that is out of order. */
  function Announcements(bounds: seq<(FileOffset, FileOffset)>): seq<FileRange> {
    if bounds == [] || bounds[0].0 > bounds[0].1 then []
    else [SetBoundary(bounds[0].0, bounds[0].1).value] + Announcements(bounds[1..])
  }

  lemma {:induction false} AnnouncementsAre(bounds: seq<(FileOffset, FileOffset)>)
    ensures var rs := Announcements(bounds);
      && |rs| <= |bounds| && (|rs| < |bounds| ==> bounds[|rs|].0 > bounds[|rs|].1)
      && forall i :: 0 <= i < |rs| ==>
        bounds[i].0 <= bounds[i].1 && rs[i].offset == bounds[i].0 && rs[i].length == (bounds[i].1 - bounds[i].0 + 1) % WORD
    decreases |bounds|
  {
    if bounds != [] && bounds[0].0 <= bounds[0].1 {
      AnnouncementsAre(bounds[1..]);
      var rs := Announcements(bounds);
      forall i | 0 <= i < |rs|
        ensures bounds[i].0 <= bounds[i].1 && rs[i].offset == bounds[i].0 && rs[i].length == (bounds[i].1 - bounds[i].0 + 1) % WORD
      {
        if i > 0 { assert rs[i] == Announcements(bounds[1..])[i - 1] && bounds[i] == bounds[1..][i - 1]; }
      }
    }
  }

  lemma AnnouncedBounds(first: FileOffset, last: FileOffset)
    requires first <= last
    ensures SetBoundary(first, last).Success? && Announced(SetBoundary(first, last).value)
  {
  }

  lemma OneHeader(headers: seq<Header>, i: nat)
    requires i < |headers|
    ensures headers[..i + 1][..i] == headers[..i]
    ensures Understood(headers[..i + 1]) <==> Understood(headers[..i]) && Sensible(headers[i])
    ensures Queues(headers[..i + 1]) <==> Queues(headers[..i]) || headers[i].XQueue?
    ensures !Sensible(headers[i]) ==> !Understood(headers)
  {
    assert headers[..i + 1] == headers[..i] + [headers[i]];
    assert headers[i] in headers && headers[i] in headers[..i + 1];
  }

  class DownloaderImpl {
    const download: Download
    var status: DownloaderStatus
    var task: Task
    var fileMap: FileMap?
    var myRange: FileRange
    var offset: nat
    var active: bool
    var requested: nat
    var ranges: seq<FileRange>
    var hasTiger: bool
    var timestamp: int
    var queueTime: int
    var pollMin: nat

    /** A range of the file map is being fetched. */
    ghost predicate Fetching()
      reads this
    {
      task == FileTask && !myRange.Empty()
    }

    ghost predicate Sound()
      reads this
    {
      && (status.Idle? || status.Connecting? || status.Queued? ==> myRange.Empty())
      && (status.Chat? ==> task != NoTask && (myRange.Empty() <==> task == TigerTask))
      && (status.Transfer? ==> task != NoTask && !myRange.Empty() && offset <= myRange.length)
      && (active ==> status.Error? || (status.Transfer? && 0 < requested <= myRange.length - offset))
      && (Fetching() ==> fileMap == download.fileMap)
      && (forall a :: a in ranges ==> Announced(a))
    }

    /** At work, and fetching exactly what it claims. */
    ghost predicate Peer(claims: map<DownloaderImpl, FileRange>)
      reads this
    {
      && !status.Closed? && Sound() && (Fetching() <==> this in claims)
      && (this in claims ==> claims[this] == myRange)
    }

    /** As much of the next 16 KiB is being read as the traffic manager allows. */
    ghost predicate Reading(grant: nat)
      reads this
      requires offset <= myRange.length
    {
      var granted := Least(Least(myRange.length - offset, CHUNK), grant);
      if granted > 0 then active && requested == granted else !active
    }

    /** The task of a new downloader is not initialised. */
    constructor (dl: Download, garbage: Task, now: int)
      ensures download == dl && status == Connecting && Sound() && !Fetching()
      ensures timestamp == now && ranges == [] && !hasTiger && !active
    {
      download, status, task, fileMap := dl, Connecting, garbage, null;
      myRange, offset, active, requested, ranges, hasTiger := FileRange(0, 0), 0, false, 0, [], false;
      timestamp, queueTime, pollMin := now, 0, 0;
    }

    /** The range being fetched goes back to the map. */
    method CancelTask()
      requires download.fileMap.Valid()
      requires Fetching() ==> fileMap == download.fileMap && InFile(myRange, |download.fileMap.Bytes()|) && AllAre(download.fileMap.Bytes(), myRange, ACTIVE)
      modifies this`myRange, download.fileMap`ranges, download.fileMap`status
      ensures download.fileMap.Valid() && !Fetching()
      ensures old(myRange.Empty()) ==> myRange.Empty()
      ensures old(Fetching()) ==> myRange.Empty()
      ensures task == TigerTask ==> myRange == old(myRange)
      ensures download.fileMap.Bytes() == GivenUp(old(download.fileMap.Bytes()), old(Fetching()), old(myRange))
    {
      if task == FileTask && fileMap != null && !myRange.Empty() {
        OneStatus(fileMap.ranges, |fileMap.Bytes()|, myRange, ACTIVE);
        fileMap.ModifyRange(myRange, EMPTY);
        myRange := FileRange(0, 0);
      }
    }

    method Close()
      requires download.fileMap.Valid()
      requires Fetching() ==> fileMap == download.fileMap && InFile(myRange, |download.fileMap.Bytes()|) && AllAre(download.fileMap.Bytes(), myRange, ACTIVE)
      requires status.Closed? ==> !Fetching()
      modifies this`status, this`myRange, download.fileMap`ranges, download.fileMap`status
      ensures download.fileMap.Valid() && status.Closed? && !Fetching()
      ensures download.fileMap.Bytes() == GivenUp(old(download.fileMap.Bytes()), old(Fetching()), old(myRange))
    {
      if status.Closed? { return; }
      status := Closed;
      CancelTask();
    }

    /** What is left of the range, at most 16 KiB at a time, as far as the traffic manager allows. */
    method Transfer(input: Input)
      requires offset <= myRange.length
      modifies this`active, this`requested
      ensures Reading(input.grant)
      ensures active <==> input.grant > 0 && offset < myRange.length
      ensures active ==>
        && requested <= input.grant && requested <= myRange.length - offset && requested <= 16 * 1024
        && requested in {input.grant, myRange.length - offset, 16 * 1024}
    {
      var want := if myRange.length - offset < CHUNK then myRange.length - offset else CHUNK;
      var reserved := if input.grant < want then input.grant else want;
      if reserved > 0 {
        active, requested := true, reserved;
      } else {
        active := false;
      }
    }

    method DetachMe()
      requires download.Valid() && this in download.downloaders
      modifies download`downloaders, download`claims, download.fileMap`ranges, download.fileMap`status, this`status, this`myRange
      ensures download.Valid() && status.Closed? && download.downloaders == old(download.downloaders) - {this}
      ensures SavedBytes(download.fileMap.Bytes()) == SavedBytes(old(download.fileMap.Bytes()))
      ensures !old(Fetching()) ==> download.fileMap.Bytes() == old(download.fileMap.Bytes())
    {
      hide Owned, Accepted, Flat, Contiguous, OrAll, OrRanges, Download.HashSound, SavedBytes, Single, AllAre, Download.PeersSound, Download.MapSound;
      LetGo();
      download.Detach(this);
    }

    /** Closed, with all bytes given back, but still in the list. */
    method LetGo()
      requires download.Valid() && this in download.downloaders
      modifies download`claims, download.fileMap`ranges, download.fileMap`status, this`status, this`myRange
      ensures status.Closed? && download.MapSound() && download.PeersSound(download.downloaders - {this})
      ensures Owned(download.fileMap.Bytes(), download.claims)
      ensures download.HashSound(download.fileMap.Bytes()) && download.StatusSound(download.fileMap.Bytes())
      ensures SavedBytes(download.fileMap.Bytes()) == SavedBytes(old(download.fileMap.Bytes()))
      ensures !old(Fetching()) ==> download.fileMap.Bytes() == old(download.fileMap.Bytes())
    {
      hide Owned, Accepted, Flat, Contiguous, OrAll, OrRanges, Download.HashSound, Download.StatusSound, SavedBytes, Single, AllAre, InFile, FileMap.Valid;
      ghost var bytes := download.fileMap.Bytes();
      GiveUp(download.fileMap.Bytes(), download.claims, this, Fetching(), myRange);
      Close();
      download.claims := download.claims - {this};
      download.HashKept(bytes, download.fileMap.Bytes());
    }

    /** Asks for a part of a vacant range, or gives up when no vacant range is on offer. */
    method FetchFile(input: Input)
      requires download.Valid() && this in download.downloaders && status in {Idle, Connecting}
      modifies download`downloaders, download`claims, download.fileMap`ranges, download.fileMap`status, this
      ensures download.Valid()
      ensures download.downloaders == old(download.downloaders) - (if status.Closed? then {this} else {})
      ensures status.Closed? ==> download.fileMap.Bytes() == old(download.fileMap.Bytes())
      ensures ranges == old(ranges) && (status.Chat? <==> OnOffer(old(download.fileMap.Bytes()), ranges))
      ensures !status.Closed? ==>
        && timestamp == input.now && status.Chat? && task == FileTask && InFile(myRange, |old(download.fileMap.Bytes())|) && myRange.length <= 128 * 1024
        && (forall i :: myRange.Has(i) ==> old(download.fileMap.Bytes())[i] in {EMPTY, INVALID})
        && download.fileMap.Bytes() == Overwritten(old(download.fileMap.Bytes()), myRange, ACTIVE)
      ensures !status.Closed? && ranges != [] ==>
        exists a :: a in ranges && a.offset <= myRange.offset && myRange.offset + myRange.length <= a.offset + a.length
    {
      hide Owned, Accepted, Flat, Contiguous, OrAll, OrRanges, Download.HashSound, Download.StatusSound, Download.PeersSound;
      StartFile(input.now);
      var range := fileMap.GetAvailableRange(ranges, MAX_REQUEST, input.pick, input.pickBlock);
      if range.Empty() {
        Leave(range);
      } else {
        ghost var k :| 0 <= k < |download.fileMap.ranges| && IsVacant(download.fileMap.ranges[k]) && Inside(range, download.fileMap.ranges[k]);
        Request(range, k);
      }
    }

    method StartFile(now: int)
      requires download.Valid() && this in download.downloaders && status in {Idle, Connecting}
      modifies this`task, this`fileMap, this`timestamp
      ensures download.Valid() && task == FileTask && fileMap == download.fileMap && timestamp == now && !Fetching()
      ensures forall a :: a in ranges ==> Announced(a)
    {
      hide Owned, Accepted, Flat, Contiguous, OrAll, OrRanges, Download.HashSound, Download.StatusSound, Download.MapSound;
      task, fileMap, timestamp := FileTask, download.fileMap, now;
    }

    /** There is no work for it. */
    method Leave(none: FileRange)
      requires download.Valid() && this in download.downloaders && status in {Idle, Connecting} && none.Empty()
      modifies download`downloaders, download`claims, download.fileMap`ranges, download.fileMap`status, this`myRange, this`status
      ensures download.Valid() && status.Closed? && download.downloaders == old(download.downloaders) - {this}
      ensures download.fileMap.Bytes() == old(download.fileMap.Bytes())
    {
      hide Owned, Accepted, Flat, Contiguous, OrAll, OrRanges, Download.HashSound, Download.StatusSound, Download.MapSound;
      myRange := none;
      DetachMe();
    }

    /** The rest of FetchFile: the range is marked and asked for. */
    method Request(range: FileRange, ghost k: nat)
      requires download.Valid() && this in download.downloaders && status in {Idle, Connecting}
      requires task == FileTask && fileMap == download.fileMap
      requires k < |fileMap.ranges| && IsVacant(fileMap.ranges[k]) && Inside(range, fileMap.ranges[k])
      modifies download`claims, download.fileMap`ranges, download.fileMap`status, this`myRange, this`status
      ensures download.Valid() && status.Chat? && myRange == range
      ensures InFile(range, |old(download.fileMap.Bytes())|)
      ensures forall i :: range.Has(i) ==> old(download.fileMap.Bytes())[i] in {EMPTY, INVALID}
      ensures download.fileMap.Bytes() == Overwritten(old(download.fileMap.Bytes()), range, ACTIVE)
    {
      hide Owned, Accepted, Flat, Contiguous, OrAll, OrRanges, Download.HashSound, Download.StatusSound, SavedBytes, Single, AllAre, InFile, IsVacant, Inside, Permitted, StatusOf, Coalesced;
      ghost var bytes := download.fileMap.Bytes();
      ClaimVacant(download.fileMap.ranges, download.size, k, range, download.claims, this);
      myRange := range;
      fileMap.ModifyRange(myRange, ACTIVE);
      status := Chat;
      download.claims := download.claims[this := range];
      download.HashKept(bytes, download.fileMap.Bytes());
    }

    /** All of the range is there: it is handed over to the map, or the tree to the download. */
    method TaskComplete(input: Input)
      requires download.Valid() && this in download.downloaders && status.Transfer? && !active && input.Fits(download.tiger, download.size)
      modifies download`status, download`downloaders, download`claims, download`work, download`snapshot, download`tree, download`ttr
      modifies download.fileMap, download.downloaders
      ensures download.Learnt(old(download.tree), old(download.ttr))
      ensures download.Valid() && download.downloaders <= old(download.downloaders)
      ensures Kept(old(download.fileMap.Bytes()), download.content, download.fileMap.Bytes(), download.content)
      ensures status in {Chat, Closed}
      ensures old(task) == FileTask ==> old(InFile(myRange, download.size)) && AllAre(download.fileMap.Bytes(), old(myRange), FULL)
    {
      hide Owned, Accepted, Flat, Contiguous, OrAll, OrRanges, Download.HashSound, Download.StatusSound;
      if task == FileTask {
        HandRangeOver();
      } else {
        HandTreeOver(input);
      }
      download.OnIdle(this, input);
    }

    method HandTreeOver(input: Input)
      requires download.Valid() && this in download.downloaders && status.Transfer? && !active && task == TigerTask && input.Fits(download.tiger, download.size)
      modifies download`tree, download`ttr, download.fileMap`versize, this`myRange, this`status
      ensures download.Valid() && myRange.Empty() && status == Idle
      ensures download.fileMap.Bytes() == old(download.fileMap.Bytes())
      ensures download.Learnt(old(download.tree), old(download.ttr))
      ensures download.tree == if input.tree.Some? && download.Welcome(old(download.tree), old(download.ttr), input.tree.value) then input.tree else old(download.tree)
    {
      if input.tree.Some? { download.OnTiger(input.tree.value); }
      myRange := FileRange(0, 0);
      status := Idle;
    }

    /** A fetched range becomes FULL and is nobody's any more. */
    method HandRangeOver()
      requires download.Valid() && this in download.downloaders && status.Transfer? && !active && task == FileTask
      modifies download`claims, download.fileMap`ranges, download.fileMap`status, this`myRange, this`status
      ensures download.Valid() && myRange.Empty() && status == Idle
      ensures InFile(old(myRange), |old(download.fileMap.Bytes())|) && AllAre(old(download.fileMap.Bytes()), old(myRange), ACTIVE)
      ensures download.fileMap.Bytes() == Overwritten(old(download.fileMap.Bytes()), old(myRange), FULL)
      ensures Kept(old(download.fileMap.Bytes()), download.content, download.fileMap.Bytes(), download.content)
    {
      hide Owned, Accepted, Flat, Contiguous, OrAll, OrRanges, Download.HashSound, Download.StatusSound, Permitted, StatusOf, Coalesced, SavedBytes, Single, Kept;
      ghost var bytes := download.fileMap.Bytes();
      HandOver(download.fileMap.ranges, download.size, download.content, download.claims, this);
      fileMap.ModifyRange(myRange, FULL);
      myRange := FileRange(0, 0);
      status := Idle;
      download.claims := download.claims - {this};
      download.HashKept(bytes, download.fileMap.Bytes());
    }

    method FetchTiger(now: int)
      requires download.Valid() && this in download.downloaders && hasTiger && status in {Idle, Connecting}
      modifies this`task, this`timestamp, this`status
      ensures download.Valid() && !Fetching() && status.Chat? && task == TigerTask && timestamp == now
    {
      hide Owned, Accepted, Flat, Contiguous, OrAll, OrRanges, Download.HashSound, Download.StatusSound, Download.MapSound;
      task, timestamp, status := TigerTask, now, Chat;
    }
    /** Data from the socket: it goes to its place in the file, or into the buffer for the tree. */
    method OnData(data: seq<byte>, input: Input)
      requires download.Valid() && this in download.downloaders && status.Transfer? && !active && input.Fits(download.tiger, download.size)
      requires |data| <= myRange.length - offset
      modifies download`status, download`downloaders, download`claims, download`work, download`snapshot, download`tree, download`ttr, download`content
      modifies download.fileMap, download.downloaders
      ensures download.Learnt(old(download.tree), old(download.ttr))
      ensures download.Valid() && download.downloaders <= old(download.downloaders)
      ensures Kept(old(download.fileMap.Bytes()), old(download.content), download.fileMap.Bytes(), download.content)
      ensures old(task) == FileTask ==>
        && old(InFile(myRange, download.size)) && old(AllAre(download.fileMap.Bytes(), myRange, ACTIVE))
        && download.content == Written(old(download.content), old(myRange.offset + offset), data)
      ensures old(task) == TigerTask ==> download.content == old(download.content)
      ensures old(offset) + |data| < old(myRange).length ==>
        && status.Transfer? && offset == old(offset) + |data| && timestamp == input.now
        && myRange == old(myRange) && Reading(input.grant) && download.fileMap.Bytes() == old(download.fileMap.Bytes())
      ensures old(offset) + |data| == old(myRange).length ==>
        status in {Chat, Closed} && (old(task) == FileTask ==> AllAre(download.fileMap.Bytes(), old(myRange), FULL))
    {
      hide Owned, Accepted, Flat, Contiguous, OrAll, OrRanges, Download.HashSound, Download.StatusSound;
      Store(data, input.now);
      if offset == myRange.length {
        TaskComplete(input);
      } else {
        Transfer(input);
      }
    }

    /** The first half of OnData: a downloader writes inside its own range only. */
    method Store(data: seq<byte>, now: int)
      requires download.Valid() && this in download.downloaders && status.Transfer? && !active
      requires |data| <= myRange.length - offset
      modifies download`content, this`timestamp, this`offset
      ensures download.Valid() && offset == old(offset) + |data| && timestamp == now
      ensures Kept(download.fileMap.Bytes(), old(download.content), download.fileMap.Bytes(), download.content)
      ensures task == FileTask ==>
        && InFile(myRange, download.size) && AllAre(download.fileMap.Bytes(), myRange, ACTIVE)
        && download.content == Written(old(download.content), old(myRange.offset + offset), data)
      ensures task == TigerTask ==> download.content == old(download.content)
    {
      hide Owned, Accepted, Flat, Contiguous, OrAll, OrRanges, Download.HashSound, Download.StatusSound;
      timestamp := now;
      if task == FileTask { download.WriteFile(this, offset, data); }
      offset := offset + |data|;
    }

    method ExtractAvailableRanges(bounds: seq<(FileOffset, FileOffset)>)
      modifies this`ranges
      ensures ranges == Announcements(bounds) && forall a :: a in ranges ==> Announced(a)
    {
      hide Announced;
      ranges := [];
      var i := 0;
      while i < |bounds| && bounds[i].0 <= bounds[i].1
        invariant 0 <= i <= |bounds| && ranges + Announcements(bounds[i..]) == Announcements(bounds)
        invariant forall a :: a in ranges ==> Announced(a)
      {
        var (first, last) := bounds[i];
        AnnouncedBounds(first, last);
        assert bounds[i..][0] == bounds[i] && bounds[i..][1..] == bounds[i + 1..];
        ranges := ranges + [SetBoundary(first, last).value];
        i := i + 1;
      }
      assert ranges + [] == ranges;
    }

    /** A busy host has put us into its queue: the range goes back for now. */
    method EnterQueue()
      requires download.Valid() && this in download.downloaders && status in {Chat, Queued}
      modifies download`claims, download.fileMap`ranges, download.fileMap`status, this`myRange, this`status
      ensures download.Valid() && status.Queued?
      ensures SavedBytes(download.fileMap.Bytes()) == SavedBytes(old(download.fileMap.Bytes()))
    {
      hide Owned, Accepted, Flat, Contiguous, OrAll, OrRanges, Download.HashSound, Download.StatusSound, SavedBytes, GivenUp, Single, AllAre;
      ghost var bytes := download.fileMap.Bytes();
      GiveUp(download.fileMap.Bytes(), download.claims, this, Fetching(), myRange);
      CancelTask();
      status := Queued;
      download.claims := download.claims - {this};
      download.HashKept(bytes, download.fileMap.Bytes());
    }

    /** A header line that changes what the downloader knows. */
    method TakeHeader(code: int, header: Header, now: int)
      requires download.Valid() && this in download.downloaders && (status.Chat? || (status.Queued? && code == 503))
      modifies download`claims, download.fileMap`ranges, download.fileMap`status, this
      ensures download.Valid() && task == old(task) && (status.Chat? || (status.Queued? && code == 503))
      ensures status.Chat? ==> myRange == old(myRange) && download.fileMap.Bytes() == old(download.fileMap.Bytes())
      ensures SavedBytes(download.fileMap.Bytes()) == SavedBytes(old(download.fileMap.Bytes()))
      ensures status.Queued? <==> old(status.Queued?) || (header.XQueue? && code == 503)
      ensures header.AvailableRanges? ==> ranges == Announcements(header.bounds)
      ensures !header.AvailableRanges? ==> ranges == old(ranges)
      ensures hasTiger == (old(hasTiger) || header.TigerUri?)
      ensures header.XQueue? && code == 503 ==> queueTime == now && pollMin == header.pollMin
    {
      hide Owned, Accepted, Flat, Contiguous, OrAll, OrRanges, Download.HashSound, Download.StatusSound, Download.MapSound;
      match header {
        case AvailableRanges(bounds) => ExtractAvailableRanges(bounds);
        case TigerUri => hasTiger := true;
        case XQueue(poll) =>
          if code == 503 {
            EnterQueue();
            queueTime, pollMin := now, poll;
          }
        case _ =>
      }
    }

    /** The header lines of a response; a line that cannot be understood ends it. */
    method ReadHeaders(code: int, headers: seq<Header>, now: int) returns (thrown: bool, first: FileOffset, last: FileOffset, length: FileOffset)
      requires download.Valid() && this in download.downloaders && status.Chat?
      modifies download`claims, download.fileMap`ranges, download.fileMap`status, this
      ensures download.Valid() && task == old(task) && (status.Chat? || (status.Queued? && code == 503))
      ensures status.Chat? ==> myRange == old(myRange) && download.fileMap.Bytes() == old(download.fileMap.Bytes())
      ensures SavedBytes(download.fileMap.Bytes()) == SavedBytes(old(download.fileMap.Bytes()))
      ensures thrown <==> !Understood(headers)
      ensures !thrown ==> length == LengthOf(headers) && (first, last) == BoundsOf(headers)
      ensures !thrown ==> (status.Queued? <==> code == 503 && Queues(headers))
    {
      hide Owned, Accepted, Flat, Contiguous, OrAll, OrRanges;
      thrown, first, last, length := false, 0, 0, 0;
      for i := 0 to |headers|
        invariant download.Valid() && task == old(task) && (status.Chat? || (status.Queued? && code == 503))
        invariant status.Chat? ==> myRange == old(myRange) && download.fileMap.Bytes() == old(download.fileMap.Bytes())
        invariant SavedBytes(download.fileMap.Bytes()) == SavedBytes(old(download.fileMap.Bytes()))
        invariant Understood(headers[..i])
        invariant length == LengthOf(headers[..i]) && (first, last) == BoundsOf(headers[..i])
        invariant status.Queued? <==> code == 503 && Queues(headers[..i])
      {
        OneHeader(headers, i);
        TakeHeader(code, headers[i], now);
        match headers[i] {
          case ContentLength(n) =>
            length := n;
          case ContentRange(f, l, total) =>
            first, last := f, l;
            if f > l || total == 0 { return true, first, last, length; }
          case Malformed =>
            return true, first, last, length;
          case _ =>
        }
      }
      assert headers[..|headers|] == headers;
    }

    /** The answer to a request. A forced range, an odd tree length or a refusal is an error. The
        assertion in OnData holds, so that all is inside, unless too much came along. */
    method HandleResponse(response: Response, input: Input) returns (thrown: bool, inside: bool)
      requires download.Valid() && this in download.downloaders && status.Chat? && input.Fits(download.tiger, download.size)
      modifies download`status, download`downloaders, download`claims, download`work, download`snapshot, download`tree, download`ttr, download`content
      modifies download.fileMap, download.downloaders
      ensures thrown <==> !Accepts(response, old(task), old(myRange))
      ensures !thrown <==>
        && response.code.Some? && (forall h :: h in response.headers ==> !h.Malformed? && (h.ContentRange? ==> h.first <= h.last && h.total > 0))
        && (if response.code.value in {200, 206} then
              if old(task) == FileTask then BoundsOf(response.headers) == (old(myRange).First(), old(myRange).Last())
              else 0 < LengthOf(response.headers) < 24 * 1024
            else response.code.value == 503 && exists h :: h in response.headers && h.XQueue?)
      ensures inside <==> !Overruns(response, old(task), old(myRange))
      ensures !inside && old(task) == FileTask ==>
        old(InFile(myRange, download.size)) && download.content == Overlaid(old(download.content), old(myRange.offset), response.chunk)
      ensures inside ==> download.Learnt(old(download.tree), old(download.ttr))
      ensures inside ==> download.Valid() && download.downloaders <= old(download.downloaders)
      ensures thrown ==> this in download.downloaders
      ensures inside ==> Kept(old(download.fileMap.Bytes()), old(download.content), download.fileMap.Bytes(), download.content)
      ensures !thrown && response.code.value == 503 ==>
        status.Queued? && download.content == old(download.content) && SavedBytes(download.fileMap.Bytes()) == SavedBytes(old(download.fileMap.Bytes()))
      ensures inside && !thrown && response.code.value != 503 && old(task) == FileTask ==>
        && old(InFile(myRange, download.size)) && download.content == Written(old(download.content), old(myRange.offset), response.chunk)
      ensures inside && !thrown && response.code.value != 503 ==>
        if |response.chunk| < Due(response, old(task), old(myRange))
        then status.Transfer? && offset == |response.chunk| && offset <= myRange.length && Reading(input.grant) && download.fileMap.Bytes() == old(download.fileMap.Bytes())
        else status in {Chat, Closed} && (old(task) == FileTask ==> AllAre(download.fileMap.Bytes(), old(myRange), FULL))
    {
      hide Owned, Accepted, Flat, Contiguous, OrAll, OrRanges;
      if response.code.None? { return true, true; }
      var failed, first, last, length := ReadHeaders(response.code.value, response.headers, input.now);
      SavedKept(old(download.fileMap.Bytes()), download.fileMap.Bytes(), download.content);
      if failed { return true, true; }
      if response.code.value in {200, 206} {
        if task == FileTask {
          if myRange.First() != first || myRange.Last() != last { return true, true; }
        } else if length == 0 || length >= MAX_TIGER {
          return true, true;
        }
        inside := BeginTransfer(length, response.chunk, input);
        return false, inside;
      }
      return !(response.code.value == 503 && status.Queued?), true;
    }

    /** An accepted answer: the transfer begins with what came along with the headers. */
    method BeginTransfer(length: FileOffset, chunk: seq<byte>, input: Input) returns (inside: bool)
      requires download.Valid() && this in download.downloaders && status.Chat? && input.Fits(download.tiger, download.size)
      requires task == TigerTask ==> length > 0
      modifies download`status, download`downloaders, download`claims, download`work, download`snapshot, download`tree, download`ttr, download`content
      modifies download.fileMap, download.downloaders
      ensures inside <==> |chunk| <= if old(task) == FileTask then old(myRange.length) else length
      ensures !inside && old(task) == FileTask ==>
        old(InFile(myRange, download.size)) && download.content == Overlaid(old(download.content), old(myRange.offset), chunk)
      ensures inside ==> download.Learnt(old(download.tree), old(download.ttr))
      ensures inside ==> download.Valid() && download.downloaders <= old(download.downloaders)
      ensures inside ==> Kept(old(download.fileMap.Bytes()), old(download.content), download.fileMap.Bytes(), download.content)
      ensures inside && old(task) == FileTask ==>
        && old(InFile(myRange, download.size)) && download.content == Written(old(download.content), old(myRange.offset), chunk)
      ensures old(task) == TigerTask ==> download.content == old(download.content)
      ensures |chunk| < (if old(task) == FileTask then old(myRange.length) else length) ==>
        && status.Transfer? && offset == |chunk| && timestamp == input.now
        && myRange == (if old(task) == FileTask then old(myRange) else FileRange(0, length))
        && Reading(input.grant) && download.fileMap.Bytes() == old(download.fileMap.Bytes())
      ensures |chunk| == (if old(task) == FileTask then old(myRange.length) else length) ==>
        status in {Chat, Closed} && (old(task) == FileTask ==> AllAre(download.fileMap.Bytes(), old(myRange), FULL))
    {
      hide Owned, Accepted, Flat, Contiguous, OrAll, OrRanges;
      StartTransfer(length, input.now);
      if |chunk| > myRange.length {
        Overrun(chunk, input.now);
        return false;
      }
      if |chunk| > 0 {
        OnData(chunk, input);
      } else {
        Transfer(input);
      }
      return true;
    }

    /** OnData up to its assertion, which fails here: all of the data has been written. */
    method Overrun(data: seq<byte>, now: int)
      requires download.Valid() && this in download.downloaders && status.Transfer? && offset == 0
      modifies download`content, this`timestamp, this`offset
      ensures offset == |data| && timestamp == now
      ensures task == FileTask ==>
        InFile(myRange, download.size) && download.content == Overlaid(old(download.content), myRange.offset, data)
      ensures task == TigerTask ==> download.content == old(download.content)
    {
      hide Owned, Accepted, Flat, Contiguous, OrAll, OrRanges, Download.HashSound, Download.StatusSound;
      timestamp := now;
      if task == FileTask {
        OwnRange(download.fileMap.Bytes(), download.content, download.claims, this);
        download.content := Overlaid(download.content, myRange.offset, data);
      }
      offset := |data|;
    }

    method StartTransfer(length: FileOffset, now: int)
      requires download.Valid() && this in download.downloaders && status.Chat? && (task == TigerTask ==> length > 0)
      modifies this`myRange, this`status, this`offset, this`timestamp
      ensures download.Valid() && status.Transfer? && !active && offset == 0 && timestamp == now
      ensures myRange == if task == FileTask then old(myRange) else FileRange(0, length)
      ensures task == FileTask ==>
        InFile(myRange, download.size) && Written(download.content, myRange.offset, []) == download.content
    {
      hide Owned, Accepted, Flat, Contiguous, OrAll, OrRanges;
      if task == TigerTask { myRange := FileRange(0, length); }
      status, offset, timestamp := DownloaderStatus.Transfer, 0, now;
      if task == FileTask { OwnRange(download.fileMap.Bytes(), download.content, download.claims, this); }
    }

    method OnHeadersReceived(result: IoResult, response: Response, input: Input) returns (inside: bool)
      requires download.Valid() && input.Fits(download.tiger, download.size)
      requires status.Closed? || (this in download.downloaders && status.Chat?)
      modifies download`status, download`downloaders, download`claims, download`work, download`snapshot, download`tree, download`ttr, download`content
      modifies download.fileMap, download.downloaders
      ensures inside <==> old(status.Closed?) || result != Good || !Overruns(response, old(task), old(myRange))
      ensures !inside && old(task) == FileTask ==>
        old(InFile(myRange, download.size)) && download.content == Overlaid(old(download.content), old(myRange.offset), response.chunk)
      ensures inside ==> download.Learnt(old(download.tree), old(download.ttr))
      ensures inside ==> download.Valid() && download.downloaders <= old(download.downloaders)
      ensures inside ==> Kept(old(download.fileMap.Bytes()), old(download.content), download.fileMap.Bytes(), download.content)
      ensures old(status.Closed?) || result == Aborted ==>
        status == old(status) && download.downloaders == old(download.downloaders) && download.fileMap.Bytes() == old(download.fileMap.Bytes())
      ensures !old(status.Closed?) && (result == Broken || (result == Good && !Accepts(response, old(task), old(myRange)))) ==>
        status.Closed? && this !in download.downloaders
      ensures inside && !old(status.Closed?) && result == Good && Accepts(response, old(task), old(myRange)) ==>
        if response.code.value == 503 then status.Queued? && download.content == old(download.content)
        else old(task) == FileTask ==> old(InFile(myRange, download.size)) && download.content == Written(old(download.content), old(myRange.offset), response.chunk)
    {
      hide Owned, Accepted, Flat, Contiguous, OrAll, OrRanges, Overlaid, Accepts, Due, Written, Single;
      inside := true;
      if status.Closed? { return; }
      if result == Good {
        var thrown;
        thrown, inside := HandleResponse(response, input);
        if thrown { Fail(); }
      } else if result == Broken {
        Fail();
      }
    }

    method OnTransfer(result: IoResult, data: seq<byte>, input: Input)
      requires download.Valid() && input.Fits(download.tiger, download.size)
      requires status.Closed? || (this in download.downloaders && status.Transfer? && active)
      requires !status.Closed? && result == Good ==> |data| == requested
      modifies download`status, download`downloaders, download`claims, download`work, download`snapshot, download`tree, download`ttr, download`content
      modifies download.fileMap, download.downloaders
      ensures download.Learnt(old(download.tree), old(download.ttr))
      ensures download.Valid() && download.downloaders <= old(download.downloaders)
      ensures Kept(old(download.fileMap.Bytes()), old(download.content), download.fileMap.Bytes(), download.content)
      ensures !old(status.Closed?) && result == Broken ==> status.Closed? && this !in download.downloaders
      ensures old(status.Closed?) || result == Aborted ==>
        status == old(status) && download.downloaders == old(download.downloaders) && download.fileMap.Bytes() == old(download.fileMap.Bytes())
      ensures !old(status.Closed?) && result == Good && old(task) == FileTask ==>
        && old(InFile(myRange, download.size)) && download.content == Written(old(download.content), old(myRange.offset + offset), data)
        && (old(offset) + |data| == old(myRange).length ==> AllAre(download.fileMap.Bytes(), old(myRange), FULL))
    {
      hide Owned, Accepted, Flat, Contiguous, OrAll, OrRanges;
      if status.Closed? { return; }
      if result == Good {
        active := false;
        OnData(data, input);
      } else if result == Broken {
        Fail();
      }
    }

    /** An error ends the downloader. */
    method Fail()
      requires download.Valid() && this in download.downloaders
      modifies download`downloaders, download`claims, download.fileMap`ranges, download.fileMap`status, this`status, this`myRange
      ensures download.Valid() && status.Closed? && download.downloaders == old(download.downloaders) - {this}
      ensures SavedBytes(download.fileMap.Bytes()) == SavedBytes(old(download.fileMap.Bytes()))
    {
      status := Error;
      DetachMe();
    }

    method OnConnected(result: IoResult, input: Input)
      requires download.Valid() && (status.Closed? || (this in download.downloaders && status.Connecting?))
      modifies download`status, download`downloaders, download`claims, download`work, download`snapshot
      modifies download.fileMap`ranges, download.fileMap`status, download.downloaders
      ensures download.Valid() && download.downloaders <= old(download.downloaders)
      ensures Kept(old(download.fileMap.Bytes()), download.content, download.fileMap.Bytes(), download.content)
      ensures !old(status.Closed?) && result == Broken ==> status.Closed? && this !in download.downloaders
      ensures old(status.Closed?) || result == Aborted ==>
        status == old(status) && download.downloaders == old(download.downloaders) && download.fileMap.Bytes() == old(download.fileMap.Bytes())
      ensures !old(status.Closed?) && result == Good ==> status in {Chat, Closed}
    {
      hide Owned, Accepted, Flat, Contiguous, OrAll, OrRanges;
      if status.Closed? { return; }
      if result == Good {
        timestamp, status := input.now, Idle;
        download.OnIdle(this, input);
      } else if result == Broken {
        Fail();
      }
    }

    method OnHeadersSent(result: IoResult, now: int)
      requires download.Valid() && (status.Closed? || (this in download.downloaders && status.Chat?))
      modifies download`downloaders, download`claims, download.fileMap`ranges, download.fileMap`status, this
      ensures download.Valid() && download.downloaders <= old(download.downloaders)
      ensures SavedBytes(download.fileMap.Bytes()) == SavedBytes(old(download.fileMap.Bytes()))
      ensures !old(status.Closed?) && result == Broken ==> status.Closed? && this !in download.downloaders
      ensures old(status.Closed?) || result == Aborted ==>
        status == old(status) && download.downloaders == old(download.downloaders) && download.fileMap.Bytes() == old(download.fileMap.Bytes())
      ensures !old(status.Closed?) && result == Good ==> status.Chat? && timestamp == now && download.fileMap.Bytes() == old(download.fileMap.Bytes())
    {
      hide Owned, Accepted, Flat, Contiguous, OrAll, OrRanges;
      if status.Closed? { return; }
      if result == Good {
        timestamp := now;
      } else if result == Broken {
        Fail();
      }
    }

    /** A host that has stalled is let go; one that queues us is asked again after a while. */
    method OnTimer(input: Input)
      requires download.Valid() && (status.Closed? || this in download.downloaders)
      modifies download`status, download`downloaders, download`claims, download`work, download`snapshot
      modifies download.fileMap`ranges, download.fileMap`status, download.downloaders
      ensures download.Valid() && download.downloaders <= old(download.downloaders)
      ensures Kept(old(download.fileMap.Bytes()), download.content, download.fileMap.Bytes(), download.content)
      ensures old(status in {Chat, Connecting, DownloaderStatus.Transfer}) && input.now - old(timestamp) > STALLED ==>
        && status.Closed? && download.downloaders == old(download.downloaders) - {this}
        && SavedBytes(download.fileMap.Bytes()) == SavedBytes(old(download.fileMap.Bytes()))
      ensures old(status in {Chat, Connecting, DownloaderStatus.Transfer}) && input.now - old(timestamp) <= STALLED ==>
        status == old(status) && download.downloaders == old(download.downloaders) && download.fileMap.Bytes() == old(download.fileMap.Bytes())
      ensures old(status.Queued?) && input.now - old(queueTime) <= old(pollMin) + 3 ==>
        status == old(status) && download.downloaders == old(download.downloaders) && download.fileMap.Bytes() == old(download.fileMap.Bytes())
      ensures old(status.Queued?) && input.now - old(queueTime) > old(pollMin) + 3 ==> status in {Chat, Closed}
      ensures old(status.Closed?) ==>
        download.status == old(download.status) && download.downloaders == old(download.downloaders) && download.fileMap.Bytes() == old(download.fileMap.Bytes())
      ensures download.status == Transferring ==>
        old(download.downloaders) - {this} <= download.downloaders && forall d :: d in old(download.downloaders) && d != this ==> unchanged(d)
      ensures old(status) == DownloaderStatus.Transfer && input.now - old(timestamp) <= STALLED ==>
        && offset == old(offset) && myRange == old(myRange) && offset <= myRange.length
        && (if old(active) then active && requested == old(requested) else Reading(input.grant))
    {
      hide Owned, Accepted, Flat, Contiguous, OrAll, OrRanges;
      if status in {Chat, Connecting, DownloaderStatus.Transfer} && input.now - timestamp > STALLED {
        DetachMe();
        return;
      }
      if status.Transfer? {
        if !active {
          Transfer(input);
        }
      } else if status.Queued? {
        if input.now - queueTime > pollMin + 3 {
          status := Idle;
          download.OnIdle(this, input);
        }
      }
    }
  }

  class Download {
    const fileMap: FileMap
    const size: FileOffset
    var status: DownloadStatus
    var downloaders: set<DownloaderImpl>
    /** All downloaders there have been: callbacks may still hold those that are closed. */
    var created: seq<DownloaderImpl>
    ghost var everyone: set<DownloaderImpl>
    /** The tiger tree of the file and its root, once they are known. */
    const tiger: Hasher
    var tree: Option<Tree>
    var ttr: Option<Digest>
    var work: Work
    /** The bytes of the file being downloaded. */
    var content: seq<byte>
    /** The file content under the running hash job when the job was started. */
    ghost var snapshot: seq<byte>
    /** Who fetches what. */
    ghost var claims: map<DownloaderImpl, FileRange>

    /** The job that hashes a range sees FULL bytes that do not change. */
    ghost predicate HashSound(bytes: seq<Status>)
      reads this`work, this`content, this`snapshot, this`tree
    {
      work.Live() && work.job.Hash? ==>
        && |content| == |bytes| && InFile(work.job.range, |bytes|) && AllAre(bytes, work.job.range, FULL)
        && content[work.job.range.offset..work.job.range.offset + work.job.range.length] == snapshot
        && (work.job.range.length != size ==> tree.Some? && PartOf(work.job.range, tree.value))
    }

    /** A change of the map that leaves FULL bytes alone, while downloaders are at work. */
    lemma HashKept(bytes: seq<Status>, bytes': seq<Status>)
      requires HashSound(bytes) && StatusSound(bytes) && |bytes| == |bytes'| && downloaders != {}
      requires forall h :: InFile(h, |bytes|) && AllAre(bytes, h, FULL) ==> AllAre(bytes', h, FULL)
      ensures HashSound(bytes') && StatusSound(bytes')
    {
    }

    lemma HashSaved(bytes: seq<Status>, bytes': seq<Status>)
      requires HashSound(bytes) && SavedBytes(bytes) == SavedBytes(bytes')
      ensures HashSound(bytes')
    {
      if work.Live() && work.job.Hash? { SavedFull(bytes, bytes', work.job.range); }
    }

    predicate PartOf(r: FileRange, t: Tree) {
      t.blockSize > 0 && IsPart(r, size, t.blockSize)
    }

    /** A tree is taken if there is none yet and its root is the known one, if one is known. */
    predicate Welcome(before: Option<Tree>, root: Option<Digest>, t: Tree) {
      before.None? && (root.None? || root == RootOf(t))
    }

    /** What was known of the hashes of the file is still known. */
    ghost predicate Learnt(before: Option<Tree>, root: Option<Digest>)
      reads this
    {
      && (before.Some? ==> tree == before) && (root.Some? ==> ttr == root)
    }

    /** What a hash job has reported makes the range valid: the whole file by any of its digests, a
        part by the node of the tree. */
    predicate Matches(r: FileRange, result: HashResult)
      reads this
    {
      result.Computed? &&
      if r.length == size then result.others || ttr == Some(result.ttr)
      else tree.Some? && tree.value.blockSize > 0 && HashAt(tree.value, r) == Some(result.ttr)
    }

    ghost predicate StatusSound(bytes: seq<Status>)
      reads this`status, this`downloaders, this`work
    {
      && (status != Transferring ==> downloaders == {})
      && (status == Hashing ==> OrAll(bytes) in {FULL, VALID, INVALID})
      && (status == Moving ==> OrAll(bytes) in {VALID, INVALID})
      && (work.Live() && work.job.Hash? ==> status == Transferring || (status == Hashing && work.job.range == FileRange(0, size)))
      && (work.Live() && work.job.Copy? ==> status == Moving && OrAll(bytes) == if work.job.corrupted then INVALID else VALID)
    }

    ghost predicate MapSound()
      reads this`content, this`tree, this`ttr, fileMap
    {
      && fileMap.Valid() && |fileMap.Bytes()| == |content| == size > 0 && Single(fileMap.Bytes())
      && size + fileMap.versize <= WORD
      && (tree.Some? ==> Accepted(tiger, tree.value, size) && fileMap.versize == tree.value.blockSize && ttr == RootOf(tree.value))
    }

    /** Those in ds are at work, all others are closed. */
    ghost predicate PeersSound(ds: set<DownloaderImpl>)
      reads this`everyone, this`created, this`claims, everyone
    {
      && ds <= everyone && (forall k :: 0 <= k < |created| ==> created[k] in everyone)
      && claims.Keys <= ds
      && (forall d :: d in everyone ==> d.download == this && if d in ds then d.Peer(claims) else d.status.Closed?)
    }

    lemma Member(p: DownloaderImpl)
      requires Valid() && (p in everyone || p in downloaders)
      ensures p in everyone && p.download == this && (p in downloaders <==> !p.status.Closed?)
      ensures downloaders <= everyone
    {
    }

    ghost predicate Valid()
      reads this, fileMap, downloaders, everyone
    {
      && MapSound()
      && PeersSound(downloaders)
      && Owned(fileMap.Bytes(), claims)
      && HashSound(fileMap.Bytes())
      && StatusSound(fileMap.Bytes())
    }

    /** A download of a file whose map has been made or loaded. */
    constructor (map0: FileMap, content0: seq<byte>, tiger0: Hasher, tree0: Option<Tree>, ttr0: Option<Digest>)
      requires map0.Valid() && 0 < |map0.Bytes()| == |content0| && |content0| + map0.versize <= WORD
      requires Single(map0.Bytes()) && ACTIVE !in map0.Bytes()
      requires tree0.Some? ==> Accepted(tiger0, tree0.value, |content0|) && map0.versize == tree0.value.blockSize && ttr0 == RootOf(tree0.value)
      ensures Valid() && fileMap == map0 && status == Stopped && everyone == {}
    {
      ContiguousOrder(map0.ranges, 0, |map0.Bytes()|);
      fileMap, size, content, tiger, tree, ttr := map0, |content0|, content0, tiger0, tree0, ttr0;
      status, downloaders, created, everyone, work, snapshot, claims := Stopped, {}, [], {}, NoWork, [], map[];
    }

    method CloseDownloaders()
      requires Valid()
      modifies this`downloaders, this`claims, fileMap`ranges, fileMap`status, downloaders
      ensures Valid() && downloaders == {}
      ensures fileMap.Bytes() == SavedBytes(old(fileMap.Bytes()))
    {
      hide Owned, Accepted, Flat, Contiguous, OrAll, OrRanges, HashSound, SavedBytes;
      ghost var bytes0 := fileMap.Bytes();
      var rest := downloaders;
      while rest != {}
        invariant rest <= downloaders && MapSound()
        invariant Owned(fileMap.Bytes(), claims)
        invariant SavedBytes(fileMap.Bytes()) == SavedBytes(bytes0)
        invariant old(downloaders) == {} ==> rest == {} && fileMap.Bytes() == bytes0
        invariant PeersSound(rest)
        decreases |rest|
      {
        var p :| p in rest;
        CloseOne(p, rest);
        rest := rest - {p};
      }
      downloaders := {};
      NoClaims(fileMap.Bytes(), claims);
      HashSaved(bytes0, fileMap.Bytes());
    }

    method CloseOne(p: DownloaderImpl, ghost rest: set<DownloaderImpl>)
      requires MapSound() && PeersSound(rest) && Owned(fileMap.Bytes(), claims) && p in rest
      modifies this`claims, fileMap`ranges, fileMap`status, p
      ensures MapSound() && PeersSound(rest - {p}) && Owned(fileMap.Bytes(), claims)
      ensures SavedBytes(fileMap.Bytes()) == SavedBytes(old(fileMap.Bytes()))
    {
      hide Owned, Accepted, Flat, Contiguous, OrAll, OrRanges, SavedBytes, GivenUp, Single, AllAre;
      GiveUp(fileMap.Bytes(), claims, p, p.Fetching(), p.myRange);
      p.Close();
      claims := claims - {p};
    }

    method AbortWork()
      modifies this`work
      ensures !work.Live()
      ensures work == if old(work) != NoWork && old(work.running) then old(work).(aborted := true) else NoWork
    {
      if work.Working? {
        if work.running {
          work := work.(aborted := true);
        } else {
          work := NoWork;
        }
      }
    }

    /** Work::Run: the job queues up at the task server. */
    method StartWork(job: Job)
      requires work == NoWork
      modifies this`work
      ensures work == Working(job, false, false)
    {
      work := Working(job, false, false);
    }

    /** A file whose bytes are all valid, or all invalid, is moved away; one whose bytes are all
        full is hashed; a full part is hashed against the tiger tree. Closing the downloaders
        then gives nothing back, because none of them is fetching. */
    method FileUpdated()
      requires Valid() && status in {Transferring, Hashing}
      modifies this`status, this`downloaders, this`claims, this`work, this`snapshot, fileMap`ranges, fileMap`status, downloaders
      ensures Valid() && fileMap.Bytes() == old(fileMap.Bytes())
      ensures status == Transferring ==> downloaders == old(downloaders) && forall d :: d in downloaders ==> unchanged(d)
      ensures old(work.Working?) ==> status == old(status) && work == old(work)
      ensures old(work) == NoWork && Uniform(fileMap.Bytes(), VALID) ==> status == Moving && work == Working(Copy(false), false, false)
      ensures old(work) == NoWork && Uniform(fileMap.Bytes(), INVALID) ==> status == Moving && work == Working(Copy(true), false, false)
      ensures old(work) == NoWork && Uniform(fileMap.Bytes(), FULL) ==>
        status == Hashing && work == Working(Hash(FileRange(0, size)), false, false)
      ensures !Uniform(fileMap.Bytes(), VALID) && !Uniform(fileMap.Bytes(), INVALID) && !Uniform(fileMap.Bytes(), FULL) ==> status == old(status)
      ensures old(work) == NoWork && status == Transferring && work != NoWork ==> tree.Some? && work.Live() && work.job.Hash?
      ensures tree.Some? && fileMap.versize > 0 && AnyFullBlock(fileMap.ranges, fileMap.versize) ==> work.Working?
    {
      hide Owned, Accepted, Flat, Contiguous, OrAll, OrRanges, HashSound, PeersSound;
      if work.Working? { return; }
      var s := fileMap.TotalStatus();
      FullShows(fileMap.ranges, size, fileMap.versize);
      Uniformity(fileMap.Bytes());
      if s == VALID || s == INVALID {
        FileDone(s);
      } else if s == FULL {
        LastHash();
      } else if s & FULL != 0 {
        if tree.Some? { PartHash(); }
      }
    }

    /** All bytes are valid, or all are invalid. */
    method FileDone(ghost s: Status)
      requires Valid() && status in {Transferring, Hashing} && work == NoWork && OrAll(fileMap.Bytes()) == s && s in {VALID, INVALID}
      modifies this`status, this`downloaders, this`claims, this`work, fileMap`ranges, fileMap`status, downloaders
      ensures Valid() && fileMap.Bytes() == old(fileMap.Bytes())
      ensures status == Moving && work == Working(Copy(s == INVALID), false, false)
    {
      hide Owned, Accepted, Flat, Contiguous, OrAll, OrRanges;
      ghost var bytes := fileMap.Bytes();
      AllOf(bytes, s);
      CloseDownloaders();
      NothingToSave(bytes);
      FileComplete();
    }

    /** All bytes are full. */
    method LastHash()
      requires Valid() && status in {Transferring, Hashing} && work == NoWork && OrAll(fileMap.Bytes()) == FULL
      modifies this`status, this`downloaders, this`claims, this`work, this`snapshot, fileMap`ranges, fileMap`status, downloaders
      ensures Valid() && fileMap.Bytes() == old(fileMap.Bytes())
      ensures status == Hashing && work == Working(Hash(FileRange(0, size)), false, false)
    {
      hide Owned, Accepted, Flat, Contiguous, OrAll, OrRanges;
      ghost var bytes := fileMap.Bytes();
      AllOf(bytes, FULL);
      CloseDownloaders();
      NothingToSave(bytes);
      status := Hashing;
      StartWork(Hash(FileRange(0, size)));
      snapshot := content;
    }

    /** A part that the tree can verify is hashed, if there is one. */
    method PartHash()
      requires Valid() && status == Transferring && work == NoWork && tree.Some?
      modifies this`work, this`snapshot
      ensures Valid() && (work != NoWork ==> work.Live() && work.job.Hash?)
      ensures fileMap.versize > 0 && AnyFullBlock(fileMap.ranges, fileMap.versize) ==> work.Working?
    {
      hide Owned, Accepted, Flat, OrAll, OrRanges, PeersSound;
      var r := fileMap.GetForValidation();
      if !r.Empty() {
        ghost var k :| 0 <= k < |fileMap.ranges| && fileMap.ranges[k].status == FULL && Inside(r, fileMap.ranges[k]);
        InsideAll(fileMap.ranges, size, k, r);
        EndOf(fileMap.ranges, |fileMap.ranges| - 1, 0, size);
        StartWork(Hash(r));
        snapshot := content[r.offset..r.offset + r.length];
      }
    }

    /** A file of invalid bytes is moved under a name that says that it is corrupted. */
    method FileComplete()
      requires MapSound() && downloaders == {} && OrAll(fileMap.Bytes()) in {VALID, INVALID} && work == NoWork
      modifies this`status, this`work, fileMap`status
      ensures status == Moving && work == Working(Copy(OrAll(fileMap.Bytes()) == INVALID), false, false)
      ensures MapSound()
    {
      hide Accepted;
      var s := fileMap.TotalStatus();
      status := Moving;
      StartWork(Copy(s == INVALID));
    }

    method Stop()
      requires Valid()
      modifies this`status, this`downloaders, this`claims, this`work, fileMap`ranges, fileMap`status, downloaders
      ensures Valid() && status == Stopped && downloaders == {} && !work.Live()
      ensures fileMap.Bytes() == SavedBytes(old(fileMap.Bytes()))
    {
      CloseDownloaders();
      AbortWork();
      status := Stopped;
    }

    method Pause()
      requires Valid()
      modifies this`status, this`downloaders, this`claims, this`work, fileMap`ranges, fileMap`status, downloaders
      ensures Valid() && status == Paused && downloaders == {} && !work.Live()
      ensures fileMap.Bytes() == SavedBytes(old(fileMap.Bytes()))
    {
      Stop();
      status := Paused;
    }

    /** The file may or may not be opened again. */
    method Resume(canOpen: bool)
      requires Valid() && status in {Stopped, Paused}
      modifies this`status
      ensures Valid() && status == (if canOpen then Transferring else Failed)
    {
      status := if canOpen then Transferring else Failed;
    }

    /** The first tree with the right root is kept; any other is refused. */
    method OnTiger(t: Tree)
      requires Valid() && Accepted(tiger, t, size) && size + t.blockSize <= WORD
      modifies this`tree, this`ttr, fileMap`versize
      ensures Valid() && fileMap.Bytes() == old(fileMap.Bytes()) && Learnt(old(tree), old(ttr))
      ensures tree == if Welcome(old(tree), old(ttr), t) then Some(t) else old(tree)
      ensures tree == if old(tree).None? && (old(ttr).None? || old(ttr) == t.nodes[0]) then Some(t) else old(tree)
      ensures tree.Some? && old(tree).None? ==> ttr == t.nodes[0]
      ensures fileMap.versize == if Welcome(old(tree), old(ttr), t) then t.blockSize else old(fileMap.versize)
    {
      if tree.Some? || (ttr.Some? && ttr != RootOf(t)) { return; }
      tree, ttr := Some(t), RootOf(t);
      fileMap.versize := t.blockSize;
    }

    method Detach(p: DownloaderImpl)
      modifies this`downloaders
      ensures downloaders == old(downloaders) - {p}
    {
      downloaders := downloaders - {p};
    }

    /** A downloader has nothing to do: it is given the tiger tree or a part of the file to
        fetch, or let go. */
    method OnIdle(p: DownloaderImpl, input: Input)
      requires Valid() && p in downloaders && p.status in {Idle, Connecting}
      modifies this`status, this`downloaders, this`claims, this`work, this`snapshot, fileMap`ranges, fileMap`status, downloaders
      ensures Valid() && downloaders <= old(downloaders)
      ensures Kept(old(fileMap.Bytes()), content, fileMap.Bytes(), content)
      ensures Advanced(old(fileMap.Bytes()), fileMap.Bytes())
      ensures p.status in {Chat, Closed}
      ensures old(status) == Transferring && old(p.task) == FileTask && old(work) == NoWork ==>
        status == if Uniform(old(fileMap.Bytes()), VALID) || Uniform(old(fileMap.Bytes()), INVALID) then Moving
                  else if Uniform(old(fileMap.Bytes()), FULL) then Hashing else Transferring
      ensures old(p.task) != FileTask || old(work) != NoWork ==> status == old(status) && work == old(work)
      ensures status == Transferring ==> (p.status.Chat? <==> (old(p.hasTiger) && tree.None?) || OnOffer(old(fileMap.Bytes()), old(p.ranges)))
      ensures status == Transferring ==> old(downloaders) - {p} <= downloaders && forall d :: d in old(downloaders) && d != p ==> unchanged(d)
    {
      hide Owned, Accepted, Flat, Contiguous, OrAll, OrRanges;
      if status == Transferring && p.task == FileTask { FileUpdated(); }
      if status == Transferring {
        Assign(p, input);
      } else {
        assert downloaders == {};
      }
    }

    method Assign(p: DownloaderImpl, input: Input)
      requires Valid() && status == Transferring && p in downloaders && p.status in {Idle, Connecting}
      modifies this`downloaders, this`claims, fileMap`ranges, fileMap`status, p
      ensures Valid() && downloaders == old(downloaders) - (if p.status.Closed? then {p} else {})
      ensures old(p.hasTiger) && tree.None? ==> p.status.Chat? && p.task == TigerTask
      ensures p.status.Chat? && p.task == TigerTask ==> old(p.hasTiger) && tree.None? && fileMap.Bytes() == old(fileMap.Bytes())
      ensures p.status.Chat? && p.task == FileTask ==>
        && InFile(p.myRange, |old(fileMap.Bytes())|) && (forall i :: p.myRange.Has(i) ==> old(fileMap.Bytes())[i] in {EMPTY, INVALID})
        && fileMap.Bytes() == Overwritten(old(fileMap.Bytes()), p.myRange, ACTIVE)
      ensures p.status in {Chat, Closed} && (p.status.Closed? ==> fileMap.Bytes() == old(fileMap.Bytes()))
      ensures p.status.Chat? <==> (old(p.hasTiger) && tree.None?) || OnOffer(old(fileMap.Bytes()), old(p.ranges))
      ensures Advanced(old(fileMap.Bytes()), fileMap.Bytes())
      ensures Kept(old(fileMap.Bytes()), content, fileMap.Bytes(), content)
    {
      hide Owned, Accepted, Flat, Contiguous, OrAll, OrRanges, HashSound, StatusSound, PeersSound;
      Member(p);
      if p.hasTiger && tree.None? {
        p.FetchTiger(input.now);
      } else {
        OfferShows(fileMap.Bytes(), p.ranges);
        var s := fileMap.TotalStatus();
        if s & (EMPTY | INVALID) != 0 {
          p.FetchFile(input);
        } else {
          Dismiss(p);
        }
      }
    }

    method Dismiss(p: DownloaderImpl)
      requires Valid() && p in downloaders && p.status in {Idle, Connecting}
      modifies this`downloaders, fileMap`ranges, fileMap`status, p`status, p`myRange
      ensures Valid() && p.status.Closed? && downloaders == old(downloaders) - {p} && fileMap.Bytes() == old(fileMap.Bytes())
    {
      hide Owned, Accepted, Flat, Contiguous, OrAll, OrRanges, HashSound, Single;
      p.Close();
      downloaders := downloaders - {p};
    }

    /** A hash has been computed: the range becomes VALID or INVALID, and the download goes on.
        Unless the file could not be read, a download that waits for its last hash is moved. */
    method Hashed(r: FileRange, result: HashResult)
      requires Valid() && work == NoWork && InFile(r, size) && AllAre(fileMap.Bytes(), r, FULL)
      requires status == Transferring || (status == Hashing && r == FileRange(0, size))
      requires r.length != size ==> tree.Some? && PartOf(r, tree.value)
      modifies this`status, this`downloaders, this`claims, this`work, this`snapshot, fileMap`ranges, fileMap`status, downloaders
      ensures Valid() && downloaders <= old(downloaders)
      ensures result.FileError? ==> fileMap.Bytes() == old(fileMap.Bytes()) && status == old(status) && work == NoWork
      ensures result.Computed? ==>
        fileMap.Bytes() == Overwritten(old(fileMap.Bytes()), r, if old(Matches(r, result)) then VALID else INVALID)
      ensures result.Computed? && Uniform(fileMap.Bytes(), VALID) ==> status == Moving && work == Working(Copy(false), false, false)
      ensures result.Computed? && Uniform(fileMap.Bytes(), INVALID) ==> status == Moving && work == Working(Copy(true), false, false)
      ensures result.Computed? && !Uniform(fileMap.Bytes(), VALID) && !Uniform(fileMap.Bytes(), INVALID) ==> status == old(status) == Transferring
      ensures result.Computed? && tree.Some? && fileMap.versize > 0 && AnyFullBlock(fileMap.ranges, fileMap.versize) ==> work.Working?
    {
      hide Owned, Accepted, Flat, Contiguous, OrAll, OrRanges, HashSound, PeersSound, Uniform, AnyFullBlock, Matches, Overwritten, AllAre;
      if result.FileError? { return; }
      var matches := Compare(r, result);
      SetHashed(r, if matches then VALID else INVALID);
      FileUpdated();
    }

    /** The comparison in Hashed; the node of a part is in the tree. */
    method Compare(r: FileRange, result: HashResult) returns (matches: bool)
      requires Valid() && result.Computed? && InFile(r, size)
      requires r.length != size ==> tree.Some? && PartOf(r, tree.value)
      ensures matches == Matches(r, result)
      ensures matches <==> if r.length == size then result.others || ttr == Some(result.ttr) else HashAt(tree.value, r) == Some(result.ttr)
    {
      if r.length == size {
        matches := result.others || ttr == Some(result.ttr);
      } else {
        PartPresent(tiger, tree.value, size, r);
        assert HashAt(tree.value, r).Some?;
        matches := HashAt(tree.value, r) == Some(result.ttr);
      }
    }

    /** SetValid or SetInvalid of Hashed. */
    method SetHashed(r: FileRange, st: Status)
      requires Valid() && work == NoWork && InFile(r, size) && AllAre(fileMap.Bytes(), r, FULL) && st in {VALID, INVALID}
      requires status == Transferring || (status == Hashing && r == FileRange(0, size))
      modifies fileMap`ranges, fileMap`status
      ensures Valid() && fileMap.Bytes() == Overwritten(old(fileMap.Bytes()), r, st)
      ensures !Uniform(fileMap.Bytes(), FULL) && (status == Hashing ==> Uniform(fileMap.Bytes(), st))
    {
      ghost var bytes := fileMap.Bytes();
      OneStatus(fileMap.ranges, size, r, FULL);
      Verify(bytes, claims, r, st);
      SingleKept(bytes, r, st);
      fileMap.ModifyRange(r, st);
      if status == Hashing {
        assert fileMap.Bytes() == Fill(size, st);
        OrFill(size, st);
      }
      assert fileMap.Bytes()[r.offset] == st;
    }

    /** The copy is done and the download is over, or it has failed. */
    method Copied(ok: bool)
      requires Valid() && status == Moving && work == NoWork
      modifies this`status, this`downloaders, this`claims, this`work, fileMap`ranges, fileMap`status, downloaders
      ensures Valid() && status == if ok then Stopped else Failed
      ensures fileMap.Bytes() == old(fileMap.Bytes())
    {
      if ok {
        NoClaims(fileMap.Bytes(), claims);
        Stop();
        DetachMe();
      } else {
        status := Failed;
      }
    }

    method DetachMe()
      requires Valid()
      modifies this`downloaders, this`claims, this`work, fileMap`ranges, fileMap`status, downloaders
      ensures Valid() && downloaders == {} && !work.Live()
      ensures fileMap.Bytes() == SavedBytes(old(fileMap.Bytes()))
    {
      AbortWork();
      CloseDownloaders();
    }

    method Cancel()
      requires Valid()
      modifies this`status, this`downloaders, this`claims, this`work, fileMap`ranges, fileMap`status, downloaders
      ensures Valid() && status == Stopped && downloaders == {} && !work.Live()
      ensures fileMap.Bytes() == SavedBytes(old(fileMap.Bytes()))
    {
      Stop();
      NoClaims(fileMap.Bytes(), claims);
      DetachMe();
    }

    /** The task server has noticed the end of the job; what an aborted job found is dropped. */
    method TaskDone(result: HashResult, copied: bool)
      requires Valid() && work.Working? && work.running
      modifies this`status, this`downloaders, this`claims, this`work, this`snapshot, fileMap`ranges, fileMap`status, downloaders
      ensures Valid() && downloaders <= old(downloaders)
      ensures !old(work.Live()) ==> fileMap.Bytes() == old(fileMap.Bytes()) && status == old(status) && work == NoWork
      ensures old(work.Live()) && old(work.job.Hash?) ==>
        && old(content[work.job.range.offset..work.job.range.offset + work.job.range.length] == snapshot)
        && old(AllAre(fileMap.Bytes(), work.job.range, FULL))
      ensures old(work.Live()) && old(work.job.Hash?) && result.Computed? ==>
        fileMap.Bytes() == Overwritten(old(fileMap.Bytes()), old(work.job.range), if old(Matches(work.job.range, result)) then VALID else INVALID)
      ensures (old(work.Live()) && old(work.job.Hash?) && result.Computed?) || fileMap.Bytes() == old(fileMap.Bytes())
      ensures old(work.Live()) && old(work.job.Hash?) && result.Computed? ==>
        if Uniform(fileMap.Bytes(), VALID) then status == Moving && work == Working(Copy(false), false, false)
        else if Uniform(fileMap.Bytes(), INVALID) then status == Moving && work == Working(Copy(true), false, false)
        else status == Transferring
      ensures old(work.Live()) && old(work.job.Copy?) ==> status == if copied then Stopped else Failed
    {
      var job, aborted := work.job, work.aborted;
      work := NoWork;
      if !aborted {
        match job {
          case Hash(r) => Hashed(r, result);
          case Copy(_) => Copied(copied);
        }
      }
    }

    method NewDownloader(garbage: Task, now: int) returns (p: DownloaderImpl)
      requires Valid() && status == Transferring
      modifies this`downloaders, this`created, this`everyone
      ensures Valid() && fresh(p) && p.status.Connecting? && p.ranges == [] && !p.hasTiger
      ensures downloaders == old(downloaders) + {p} && everyone == old(everyone) + {p} && created == old(created) + [p]
    {
      p := new DownloaderImpl(this, garbage, now);
      downloaders, everyone, created := downloaders + {p}, everyone + {p}, created + [p];
    }

    /** What a downloader has received goes to its place in the file. */
    method WriteFile(p: DownloaderImpl, from: nat, data: seq<byte>)
      requires Valid() && p in downloaders && p.task == FileTask && !p.myRange.Empty() && from + |data| <= p.myRange.length
      modifies this`content
      ensures Valid() && InFile(p.myRange, size) && AllAre(fileMap.Bytes(), p.myRange, ACTIVE)
      ensures content == Written(old(content), p.myRange.offset + from, data)
      ensures Kept(fileMap.Bytes(), old(content), fileMap.Bytes(), content)
    {
      hide Owned, Contiguous, Flat, OrAll, OrRanges, Accepted, Single, Kept, FileMap.Valid, Download.StatusSound;
      assert p in claims && claims[p] == p.myRange;
      OwnRange(fileMap.Bytes(), content, claims, p);
      WriteOwn(fileMap.Bytes(), content, p.myRange, from, data);
      content := content[..p.myRange.offset + from] + data + content[p.myRange.offset + from + |data|..];
    }

    /** A host that cannot be reached directly has connected to us. It is turned away if it is not a
        known source, or if there is no room for another downloader or for another connection to it. */
    method HandleGIV(garbage: Task, input: Input, known: bool, room: bool) returns (handled: bool)
      requires Valid()
      modifies this, fileMap`ranges, fileMap`status, downloaders
      ensures Valid() && content == old(content) && fresh(everyone - old(everyone)) && downloaders <= everyone
      ensures tree == old(tree) && ttr == old(ttr) && handled == known
      ensures Kept(old(fileMap.Bytes()), old(content), fileMap.Bytes(), content)
      ensures !(known && room && old(status) == Transferring && OrAll(old(fileMap.Bytes())) & (EMPTY | INVALID) != 0) ==>
        downloaders == old(downloaders) && created == old(created) && fileMap.Bytes() == old(fileMap.Bytes()) && status == old(status) && work == old(work)
      ensures known && room && old(status) == Transferring && OrAll(old(fileMap.Bytes())) & (EMPTY | INVALID) != 0 ==>
        && |created| == |old(created)| + 1 && fresh(created[|old(created)|])
        && created[|old(created)|].status == if status == Transferring then Chat else Closed
    {
      hide Owned, Accepted, Flat, Contiguous, OrAll, OrRanges, HashSound;
      if known {
        var s := fileMap.TotalStatus();
        if room && status == Transferring && s & (EMPTY | INVALID) != 0 {
          VacantShows(fileMap.Bytes());
          var p := NewDownloader(garbage, input.now);
          OnIdle(p, input);
        }
      }
      handled := known;
    }

    /** Every downloader gets its turn; then a new one may be connected. */
    method OnTimer(inputs: nat -> Input, source: Option<Task>)
      requires Valid()
      modifies this, fileMap`ranges, fileMap`status, downloaders
      ensures Valid() && content == old(content) && fresh(everyone - old(everyone))
      ensures Kept(old(fileMap.Bytes()), old(content), fileMap.Bytes(), content)
      ensures old(status) != Transferring ==> everyone == old(everyone) && fileMap.Bytes() == old(fileMap.Bytes())
      ensures forall d :: d in old(downloaders) && old(d.status in {Chat, Connecting, DownloaderStatus.Transfer}) && LongAgo(inputs, old(d.timestamp)) ==> d !in downloaders
      ensures created == old(created) || (|created| == |old(created)| + 1 && created[..|old(created)|] == old(created) && created[|old(created)|].status.Connecting?)
      ensures tree == old(tree) && ttr == old(ttr)
      ensures old(downloaders) == {} ==> status == old(status) && work == old(work) && fileMap.Bytes() == old(fileMap.Bytes())
      ensures old(downloaders) == {} && created == old(created) ==> downloaders == {}
      ensures |created| > |old(created)| <==>
        old(status) == Transferring && status == Transferring && source.Some? && OrAll(fileMap.Bytes()) & (EMPTY | INVALID) != 0
    {
      hide Owned, Accepted, Flat, Contiguous, OrAll, OrRanges, HashSound;
      if status == Transferring {
        EachTurn(inputs);
        var s := fileMap.TotalStatus();
        if status == Transferring && s & (EMPTY | INVALID) != 0 && source.Some? {
          var p := NewDownloader(source.value, inputs(0).now);
        }
      }
    }

    method EachTurn(inputs: nat -> Input)
      requires Valid() && status == Transferring
      modifies this`status, this`downloaders, this`claims, this`work, this`snapshot, fileMap`ranges, fileMap`status, downloaders
      ensures Valid() && downloaders <= old(downloaders)
      ensures Kept(old(fileMap.Bytes()), content, fileMap.Bytes(), content)
      ensures forall d :: d in old(downloaders) && old(d.status in {Chat, Connecting, DownloaderStatus.Transfer}) && LongAgo(inputs, old(d.timestamp)) ==> d !in downloaders
      ensures old(downloaders) == {} ==> downloaders == {} && status == old(status) && work == old(work) && fileMap.Bytes() == old(fileMap.Bytes())
    {
      hide Owned, Accepted, Flat, Contiguous, OrAll, OrRanges;
      var rest, n := downloaders, 0;
      while rest != {}
        invariant Valid() && rest <= old(downloaders) && downloaders <= old(downloaders)
        invariant old(downloaders) == {} ==> status == old(status) && work == old(work) && fileMap.Bytes() == old(fileMap.Bytes())
        invariant Kept(old(fileMap.Bytes()), content, fileMap.Bytes(), content)
        invariant status == Transferring ==> rest <= downloaders && forall d :: d in rest ==> unchanged(d)
        invariant forall d :: d in old(downloaders) - rest && old(d.status in {Chat, Connecting, DownloaderStatus.Transfer}) && LongAgo(inputs, old(d.timestamp)) ==> d !in downloaders
        decreases |rest|
      {
        var p :| p in rest;
        rest := rest - {p};
        p.OnTimer(inputs(n));
        n := n + 1;
      }
    }
  }
}
