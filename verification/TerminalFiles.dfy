/**
 Model of the terminal's file transfers: a paged download that trusts no page,
 and a save that publishes complete bytes only, never over an existing file.
 The abort signal's checks before and after the transfer are parameters; one
 during the transfer ends it like a failed call.
 */
module TerminalFiles {
  import opened Results
  import opened CrashFs
  import AtomicFile

  const READ_PAGE_BYTES := 51_200

  datatype Page = Page(
    contentHash: string,
    totalBytes: nat,
    start: nat,
    end: nat,
    truncated: bool,
    nextOffset: Option<nat>,
    bytes: Bytes)

  /** The bytes of a run of pages. */
  function Joined(pages: seq<Page>): Bytes {
    if pages == [] then [] else Joined(pages[..|pages| - 1]) + pages[|pages| - 1].bytes
  }

  /** The page says where the next one starts. */
  predicate Moves(p: Page) {
    p.nextOffset == Some(p.end) && p.bytes != []
  }

  /** Page `i` continues the pages before it and agrees with `hash` and `total`. */
  ghost predicate Continues(pages: seq<Page>, i: nat, hash: string, total: nat)
    requires i < |pages|
  {
    var p := pages[i];
    && p.contentHash == hash && p.totalBytes == total
    && p.start == |Joined(pages[..i])| && p.end == p.start + |p.bytes|
    && |p.bytes| <= READ_PAGE_BYTES && p.end <= total
  }

  /** What a successful download has seen: contiguous pages of one content, complete and matching its hash. */
  ghost predicate Verified(pages: seq<Page>, data: Bytes, hash: string) {
    && 0 < |pages| <= |data| + 1
    && data == Joined(pages)
    && forall i: nat | i < |pages| ::
         && Continues(pages, i, hash, |data|)
         && (pages[i].truncated <==> i < |pages| - 1)
         && (pages[i].truncated ==> Moves(pages[i]))
  }

  // -------------------------------------------------------- honest servers

  /** `p` is a page of the file `data`. */
  ghost predicate PageOf(p: Page, data: Bytes, hash: string) {
    && p.contentHash == hash && p.totalBytes == |data| && |p.bytes| <= READ_PAGE_BYTES
    && p.start <= p.end <= |data| && p.bytes == data[p.start..p.end]
    && (p.truncated <==> p.end < |data|)
    && (p.truncated ==> Moves(p))
  }

  /** Where the page after the first `i` has to start. */
  function Reached(pages: seq<Page>, i: nat): nat
    requires i <= |pages|
  {
    if i == 0 then 0 else pages[i - 1].end
  }

  /** Page `i` is the file's stretch that follows the pages before it. */
  ghost predicate GenuineAt(pages: seq<Page>, i: nat, data: Bytes, hash: string)
    requires i < |pages|
  {
    PageOf(pages[i], data, hash) && pages[i].start == Reached(pages, i)
  }

  /** What a server of the file `data` may send a client that asks for one page after the other. */
  ghost predicate Genuine(pages: seq<Page>, data: Bytes, hash: string) {
    forall i: nat | i < |pages| :: GenuineAt(pages, i, data, hash)
  }

  /** A server's answer to a request for at most `size` bytes of the file from `start`. */
  function ReadPage(data: Bytes, hash: string, start: nat, size: nat): Page
    requires start <= |data|
  {
    var end := if start + size <= |data| then start + size else |data|;
    Page(hash, |data|, start, end, end < |data|, if end < |data| then Some(end) else None, data[start..end])
  }

  /** A server that reads the file on from where the last page ended sends genuine pages, of any sizes allowed. */
  lemma ReadingIsGenuine(pages: seq<Page>, data: Bytes, hash: string, size: nat)
    requires Genuine(pages, data, hash) && 0 < size <= READ_PAGE_BYTES
    ensures Reached(pages, |pages|) <= |data|
    ensures Genuine(pages + [ReadPage(data, hash, Reached(pages, |pages|), size)], data, hash)
  {
    assert pages != [] ==> GenuineAt(pages, |pages| - 1, data, hash);
    var next := pages + [ReadPage(data, hash, Reached(pages, |pages|), size)];
    forall i: nat | i < |next| ensures GenuineAt(next, i, data, hash) {
      assert i < |pages| ==> next[i] == pages[i] && GenuineAt(pages, i, data, hash);
      assert 0 < i <= |pages| ==> next[i - 1] == pages[i - 1];
    }
  }

  lemma GenuineFront(pages: seq<Page>, data: Bytes, hash: string)
    requires Genuine(pages, data, hash) && pages != []
    ensures Genuine(pages[..|pages| - 1], data, hash)
  {
    var front := pages[..|pages| - 1];
    forall i: nat | i < |front| ensures GenuineAt(front, i, data, hash) {
      assert GenuineAt(pages, i, data, hash) && front[i] == pages[i];
      assert i > 0 ==> front[i - 1] == pages[i - 1];
    }
  }

  /** Genuine pages are the file's bytes from the start. */
  lemma {:induction false} GenuineIsPrefix(pages: seq<Page>, data: Bytes, hash: string)
    requires Genuine(pages, data, hash) && pages != []
    ensures PageOf(pages[|pages| - 1], data, hash)
    ensures Joined(pages) == data[..pages[|pages| - 1].end]
  {
    var front, last := pages[..|pages| - 1], pages[|pages| - 1];
    assert GenuineAt(pages, |pages| - 1, data, hash);
    if front != [] {
      GenuineFront(pages, data, hash);
      GenuineIsPrefix(front, data, hash);
    }
    SlicesJoin(data, last.start, last.end);
  }

  lemma SlicesJoin(data: Bytes, i: nat, j: nat)
    requires i <= j <= |data|
    ensures data[..i] + data[i..j] == data[..j]
  {
  }

  // ----------------------------------------------------- the loop so far

  /** `pages` were accepted, each followed by another request. */
  ghost predicate Fetched(pages: seq<Page>, hash: Option<string>, total: nat, received: Bytes) {
    && received == Joined(pages) && |pages| <= |received| && (hash == None <==> pages == [])
    && (hash.Some? ==> |received| <= total && total == pages[0].totalBytes)
    && (hash.Some? ==> forall i: nat | i < |pages| :: Continues(pages, i, hash.value, total))
    && (forall i: nat | i < |pages| :: pages[i].truncated && Moves(pages[i]))
  }

  /** The checks made on a page, given those before it. */
  predicate Fits(p: Page, hash: Option<string>, total: nat, offset: nat) {
    && (hash.Some? ==> hash.value == p.contentHash && total == p.totalBytes)
    && p.start == offset && p.end == offset + |p.bytes| && |p.bytes| <= READ_PAGE_BYTES && p.end <= p.totalBytes
  }

  /** No more pages than the announced total plus one. */
  predicate Bounded(pages: seq<Page>) {
    pages != [] ==> |pages| <= pages[0].totalBytes + 1
  }

  lemma PrefixOf(pages: seq<Page>, p: Page)
    ensures (pages + [p])[..|pages|] == pages
    ensures Joined(pages + [p]) == Joined(pages) + p.bytes
    ensures forall i: nat | i <= |pages| :: (pages + [p])[..i] == pages[..i]
  {
    assert (pages + [p])[..|pages + [p]| - 1] == pages;
  }

  lemma ContinuesOn(pages: seq<Page>, hash: Option<string>, total: nat, received: Bytes, p: Page)
    requires Fetched(pages, hash, total, received) && Fits(p, hash, total, |received|)
    ensures forall i: nat | i <= |pages| :: Continues(pages + [p], i, p.contentHash, p.totalBytes)
  {
    PrefixOf(pages, p);
    forall i: nat | i <= |pages| ensures Continues(pages + [p], i, p.contentHash, p.totalBytes) {
      if i < |pages| {
        assert Continues(pages, i, hash.value, total);
      }
    }
  }

  lemma FetchedAdvances(pages: seq<Page>, hash: Option<string>, total: nat, received: Bytes, p: Page)
    requires Fetched(pages, hash, total, received) && Fits(p, hash, total, |received|)
    requires p.truncated && Moves(p)
    ensures Fetched(pages + [p], Some(p.contentHash), p.totalBytes, received + p.bytes)
  {
    PrefixOf(pages, p);
    ContinuesOn(pages, hash, total, received, p);
    var next := pages + [p];
    assert forall i: nat | i < |next| :: next[i].truncated && Moves(next[i]);
    assert next[0].totalBytes == p.totalBytes;
  }

  lemma FetchedVerifies(pages: seq<Page>, hash: Option<string>, total: nat, received: Bytes, p: Page)
    requires Fetched(pages, hash, total, received) && Fits(p, hash, total, |received|)
    requires !p.truncated && |received + p.bytes| == p.totalBytes
    ensures Verified(pages + [p], received + p.bytes, p.contentHash)
  {
    PrefixOf(pages, p);
    ContinuesOn(pages, hash, total, received, p);
  }

  lemma FetchedBounded(pages: seq<Page>, hash: Option<string>, total: nat, received: Bytes, p: Option<Page>)
    requires Fetched(pages, hash, total, received)
    ensures Bounded(pages) && (p.Some? ==> Bounded(pages + [p.value]))
  {
  }

  lemma GenuineStart(
      pages: seq<Page>, hash: Option<string>, total: nat, received: Bytes, p: Page, data: Bytes, h: string)
    requires Fetched(pages, hash, total, received)
    requires Genuine(pages + [p], data, h)
    ensures PageOf(p, data, h) && p.start == |received|
    ensures hash.Some? ==> hash.value == h && total == |data|
  {
    assert (pages + [p])[|pages|] == p && GenuineAt(pages + [p], |pages|, data, h);
    if pages != [] {
      var n := |pages| - 1;
      assert (pages + [p])[n] == pages[n] && GenuineAt(pages + [p], n, data, h);
      assert Continues(pages, n, hash.value, total);
      assert p.start == pages[n].end;
    }
  }

  /** A genuine page always passes the checks, and the last one completes the file. */
  lemma GenuineFits(
      pages: seq<Page>, hash: Option<string>, total: nat, received: Bytes, p: Page, data: Bytes, h: string)
    requires Fetched(pages, hash, total, received)
    requires Genuine(pages + [p], data, h)
    ensures Fits(p, hash, total, |received|)
    ensures p.truncated ==> Moves(p)
    ensures !p.truncated ==> received + p.bytes == data && p.end == p.totalBytes && p.contentHash == h
  {
    GenuineStart(pages, hash, total, received, p, data, h);
    GenuineIsPrefix(pages + [p], data, h);
    PrefixOf(pages, p);
    assert data[..|data|] == data;
  }

  /**
   The pages are no file's whose bytes have the digest it is announced with; `digested` is that of the bytes
   received.
   */
  ghost predicate Spurious(pages: seq<Page>, digested: string) {
    forall data, h | Genuine(pages, data, h) :: data == Joined(pages) && h != digested
  }

  lemma SpuriousIsNoFile(pages: seq<Page>, digest: Bytes -> string, data: Bytes)
    requires Spurious(pages, digest(Joined(pages)))
    ensures !Genuine(pages, data, digest(data))
  {
  }

  /** `More` asks for another page; `Interrupted` covers an abort, a failed call and a failed write. */
  datatype End = Complete | Refused | Interrupted | More

  function Judged(p: Page, hash: Option<string>, total: nat, offset: nat, digested: string): End {
    if !Fits(p, hash, total, offset) then Refused
    else if p.truncated then if Moves(p) then More else Refused
    else if p.end == p.totalBytes && digested == p.contentHash then Complete
    else Refused
  }

  lemma RefusedIsSpurious(
      pages: seq<Page>, hash: Option<string>, total: nat, received: Bytes, p: Page, digested: string)
    requires Fetched(pages, hash, total, received) && Judged(p, hash, total, |received|, digested) == Refused
    ensures Spurious(pages + [p], digested)
  {
    PrefixOf(pages, p);
    forall data, h | Genuine(pages + [p], data, h) ensures data == Joined(pages + [p]) && h != digested {
      GenuineFits(pages, hash, total, received, p, data, h);
    }
  }

  /** Every verdict of the loop on its next page is right. */
  lemma VerdictIsRight(pages: seq<Page>, hash: Option<string>, total: nat, received: Bytes, p: Page, digested: string)
    requires Fetched(pages, hash, total, received)
    ensures Joined(pages + [p]) == received + p.bytes
    ensures var end := Judged(p, hash, total, |received|, digested);
            && (end == More ==> Fetched(pages + [p], Some(p.contentHash), p.totalBytes, received + p.bytes))
            && (end == Complete ==> Verified(pages + [p], received + p.bytes, digested))
            && (end == Refused ==> Spurious(pages + [p], digested))
  {
    PrefixOf(pages, p);
    var end := Judged(p, hash, total, |received|, digested);
    if end == More {
      FetchedAdvances(pages, hash, total, received, p);
    } else if end == Complete {
      FetchedVerifies(pages, hash, total, received, p);
    } else {
      RefusedIsSpurious(pages, hash, total, received, p, digested);
    }
  }

  // -------------------------------------------------------- what may change

  /** Nothing but `temp` differs, for a reader or after a crash. */
  ghost predicate Untouched(d0: Disk, d: Disk, temp: Name) {
    && d0.versions != [] && d.versions != []
    && (forall n, c | n != temp && Recovers(d, n, c) :: Recovers(d0, n, c))
    && (forall n | n != temp :: Visible(d, n) == Visible(d0, n))
  }

  lemma ShapeIsUntouched(d0: Disk, d: Disk, temp: Name, target: Name, data: Bytes)
    requires AtomicFile.Shape(d0, d, temp, target, data, false)
    ensures Untouched(d0, d, temp)
  {
    forall n, c | n != temp && Recovers(d, n, c) ensures Recovers(d0, n, c) {
      var other := target + "x";
      assert other[|target|] == 'x';
      if n == target {
        assert AtomicFile.Shape(d0, d, temp, other, data, false);
        AtomicFile.ShapeIsOldOrNew(d0, d, temp, other, data, false);
      } else {
        AtomicFile.ShapeIsOldOrNew(d0, d, temp, target, data, false);
      }
    }
    forall n | n != temp ensures Visible(d, n) == Visible(d0, n) {
      assert AtomicFile.SameEntry(Current(d), Current(d0), n);
      assert Current(d0) in d0.versions;
    }
  }

  /** `trace` continues `trace0`, and after that point nothing was touched. */
  ghost predicate TraceUntouched(trace0: seq<Disk>, trace: seq<Disk>, d0: Disk, temp: Name) {
    trace0 <= trace && forall k | |trace0| <= k < |trace| :: Untouched(d0, trace[k], temp)
  }

  lemma TraceChains(trace0: seq<Disk>, trace1: seq<Disk>, trace: seq<Disk>, d0: Disk, temp: Name)
    requires TraceUntouched(trace0, trace1, d0, temp) && TraceUntouched(trace1, trace, d0, temp)
    ensures TraceUntouched(trace0, trace, d0, temp)
  {
    assert forall k | 0 <= k < |trace1| :: trace[k] == trace1[k];
  }

  /** Nothing was touched, or the complete content has appeared where no file was. */
  ghost predicate Safe(d0: Disk, d: Disk, temp: Name, target: Name, data: Bytes, complete: bool) {
    || Untouched(d0, d, temp)
    || (complete && d0.versions != [] && target !in Current(d0) && AtomicFile.OldOrNew(d0, d, temp, target, data))
  }

  ghost predicate TraceSafe(
      trace: seq<Disk>, from: nat, d0: Disk, temp: Name, target: Name, data: Bytes, complete: bool)
  {
    forall k | from <= k < |trace| :: Safe(d0, trace[k], temp, target, data, complete)
  }

  /** Linking a complete file to a free name publishes it. */
  lemma LinkPublishes(d0: Disk, d: Disk, temp: Name, target: Name, data: Bytes)
    requires AtomicFile.Shape(d0, d, temp, target, data, false) && temp != target
    requires AtomicFile.Complete(d, |d0.inodes|, data)
    requires temp in Current(d) && Current(d)[temp] == |d0.inodes|
    requires target !in Current(d)
    ensures AtomicFile.Shape(d0, Linked(d, temp, target), temp, target, data, true)
    ensures target !in Current(d0)
  {
    assert forall v | v in d.versions && v !in d0.versions ::
      AtomicFile.Derived(v, Current(d0), temp, target, |d0.inodes|, true);
    assert Current(d) in d.versions;
    assert AtomicFile.SameEntry(Current(d), Current(d0), target);
    AtomicFile.ChangePreserves(d0, d, Current(d)[target := |d0.inodes|], temp, target, data, true);
  }

  // -------------------------------------------------------------- methods

  /** `fd` is open on the temporary file, the only file made since `d0`, holding `bytes`. */
  ghost predicate Writing(fs: FileSystem, d0: Disk, temp: Name, target: Name, fd: nat, bytes: Bytes)
    reads fs
  {
    && fs.Valid() && fd < |fs.fds| && fs.fds[fd] == Descriptor(Some(|d0.inodes|), true, false)
    && AtomicFile.Shape(d0, fs.disk, temp, target, bytes, false)
    && |fs.disk.inodes| == |d0.inodes| + 1 && fs.disk.inodes[|d0.inodes|].bytes == bytes
    && temp in Current(fs.disk) && Current(fs.disk)[temp] == |d0.inodes|
  }

  /** `held` is what the file holds afterwards. */
  method Append(fs: FileSystem, ghost d0: Disk, temp: Name, target: Name, fd: nat, ghost written: Bytes, bytes: Bytes)
    returns (ok: bool, ghost held: Bytes)
    requires Writing(fs, d0, temp, target, fd, written)
    modifies fs`disk, fs`trace, fs`faults
    ensures fs.trace == old(fs.trace) + [fs.disk] && Untouched(d0, fs.disk, temp)
    ensures Writing(fs, d0, temp, target, fd, held)
    ensures ok ==> held == written + bytes
    ensures old(fs.faults) <= fs.faults && (ok <==> fs.faults == old(fs.faults))
  {
    ghost var before, i := fs.disk, |d0.inodes|;
    ok := fs.Write(fd, bytes);
    held := fs.disk.inodes[i].bytes;
    assert fs.disk == before.(inodes := before.inodes[i := fs.disk.inodes[i]]);
    AtomicFile.InodePreserves(d0, before, temp, target, written, fs.disk.inodes[i]);
    assert AtomicFile.Shape(d0, fs.disk, temp, target, held, false);
    ShapeIsUntouched(d0, fs.disk, temp, target, held);
  }

  /** One turn of the page loop, on the server's answer. */
  method TakePage(
      fs: FileSystem, ghost d0: Disk, temp: Name, target: Name, fd: nat, digest: Bytes -> string,
      page: Page, hash: Option<string>, total: nat, received: Bytes)
    returns (end: End, ghost held: Bytes)
    requires Writing(fs, d0, temp, target, fd, received)
    modifies fs`disk, fs`trace, fs`faults
    ensures TraceUntouched(old(fs.trace), fs.trace, d0, temp)
    ensures Writing(fs, d0, temp, target, fd, held)
    ensures end == Interrupted || end == Judged(page, hash, total, |received|, digest(received + page.bytes))
    ensures end == More || end == Complete ==> held == received + page.bytes
    ensures old(fs.faults) <= fs.faults && (end == Interrupted <==> fs.faults > old(fs.faults))
  {
    held := received;
    if hash.Some? && (hash.value != page.contentHash || total != page.totalBytes) {
      return Refused, held;
    }
    var offset := |received|;
    if page.start != offset || page.end != offset + |page.bytes| || |page.bytes| > READ_PAGE_BYTES
        || page.end > page.totalBytes {
      return Refused, held;
    }
    var ok;
    ok, held := Append(fs, d0, temp, target, fd, received, page.bytes);
    if !ok {
      return Interrupted, held;
    }
    offset := offset + |page.bytes|;
    if !page.truncated {
      if offset != page.totalBytes || digest(received + page.bytes) != page.contentHash {
        return Refused, held;
      }
      return Complete, held;
    }
    if page.nextOffset != Some(offset) || page.bytes == [] {
      return Refused, held;
    }
    return More, held;
  }

  /**
   The page loop, for a server that answers with `answers` before a call fails
   or the transfer is aborted: whatever they are it ends, after at most one page
   more than the announced total; it succeeds only on a verified file, and
   refuses only pages that no file has.
   */
  method DownloadPages(
      fs: FileSystem, ghost d0: Disk, temp: Name, target: Name, fd: nat, answers: seq<Page>, digest: Bytes -> string)
    returns (end: End, size: nat, ghost pages: seq<Page>, ghost held: Bytes)
    requires Writing(fs, d0, temp, target, fd, [])
    modifies fs`disk, fs`trace, fs`faults
    ensures TraceUntouched(old(fs.trace), fs.trace, d0, temp)
    ensures Writing(fs, d0, temp, target, fd, held)
    ensures end == Complete ==> size == |held| && Verified(pages, held, digest(held))
    ensures end == Refused ==> Spurious(pages, digest(Joined(pages)))
    ensures end != More && Bounded(pages)
    ensures pages <= answers
    ensures old(fs.faults) <= fs.faults && (fs.faults > old(fs.faults) ==> end == Interrupted)
    ensures end == Interrupted ==> fs.faults > old(fs.faults) || pages == answers
  {
    var hash: Option<string>, total: nat, received: Bytes, n := None, 0, [], 0;
    pages, held := [], [];
    while true
      invariant n <= |answers| && pages == answers[..n] && fs.faults == old(fs.faults)
      invariant TraceUntouched(old(fs.trace), fs.trace, d0, temp)
      invariant Writing(fs, d0, temp, target, fd, received) && held == received
      invariant Fetched(pages, hash, total, received)
      decreases if hash == None then 1 else 0, total - |received|
    {
      if n == |answers| {
        FetchedBounded(pages, hash, total, received, None);
        return Interrupted, 0, pages, held;
      }
      var page := answers[n];
      ghost var trace := fs.trace;
      FetchedBounded(pages, hash, total, received, Some(page));
      end, held := TakePage(fs, d0, temp, target, fd, digest, page, hash, total, received);
      VerdictIsRight(pages, hash, total, received, page, digest(received + page.bytes));
      TraceChains(old(fs.trace), trace, fs.trace, d0, temp);
      pages, n := pages + [page], n + 1;
      received := received + page.bytes;
      if end != More {
        return end, |received|, pages, held;
      }
      hash, total := Some(page.contentHash), page.totalBytes;
    }
  }

  /** A closed handle, or one whose close has failed, is not closed again. */
  method CloseHandle(fs: FileSystem, fd: nat) returns (ok: bool)
    requires fs.Valid() && fd < |fs.fds|
    modifies fs`fds, fs`trace, fs`faults
    ensures fs.Valid() && (fs.trace == old(fs.trace) || fs.trace == old(fs.trace) + [fs.disk])
    ensures !old(fs.fds)[fd].open || old(fs.fds)[fd].closeFailed ==> ok && fs.fds == old(fs.fds)
    ensures old(fs.fds)[fd].open && !old(fs.fds)[fd].closeFailed ==>
              fs.fds == old(fs.fds)[fd := old(fs.fds)[fd].(open := !ok, closeFailed := !ok)]
    ensures old(fs.faults) <= fs.faults && (ok <==> fs.faults == old(fs.faults))
  {
    ok := true;
    if fs.fds[fd].open && !fs.fds[fd].closeFailed {
      ok := fs.CloseFd(fd);
    }
  }

  /** Sync, close and link. */
  method Publish(fs: FileSystem, ghost d0: Disk, temp: Name, target: Name, fd: nat, ghost data: Bytes, aborted: bool)
    returns (ok: bool, ghost linked: bool)
    requires Writing(fs, d0, temp, target, fd, data) && temp != target
    modifies fs`disk, fs`fds, fs`trace, fs`faults
    ensures fs.Valid() && old(fs.trace) <= fs.trace
    ensures TraceSafe(fs.trace, |old(fs.trace)|, d0, temp, target, data, true)
    ensures fd < |fs.fds| && fs.fds == old(fs.fds)[fd := fs.fds[fd]]
    ensures AtomicFile.Shape(d0, fs.disk, temp, target, data, linked)
    ensures linked ==> target !in Current(d0) && Visible(fs.disk, target) == Some(data)
    ensures linked <==> ok
    ensures ok ==> !fs.fds[fd].open
    ensures old(fs.faults) <= fs.faults && (ok ==> fs.faults == old(fs.faults))
    ensures !ok ==> fs.faults > old(fs.faults) || aborted || target in Current(d0)
  {
    ghost var i, before := |d0.inodes|, fs.disk;
    linked := false;
    ok := fs.Fsync(fd);
    assert fs.disk == before.(inodes := before.inodes[i := fs.disk.inodes[i]]);
    AtomicFile.InodePreserves(d0, before, temp, target, data, fs.disk.inodes[i]);
    ShapeIsUntouched(d0, fs.disk, temp, target, data);
    if !ok {
      return;
    }
    if aborted {
      return false, false;
    }
    ok := CloseHandle(fs, fd);
    if !ok {
      return;
    }
    ghost var complete := fs.disk;
    var outcome := fs.Link(temp, target);
    assert AtomicFile.SameEntry(Current(complete), Current(d0), target);
    if outcome != Done {
      return false, false;
    }
    linked := true;
    LinkPublishes(d0, complete, temp, target, data);
    AtomicFile.ShapeIsOldOrNew(d0, fs.disk, temp, target, data, true);
  }

  /** Close what is still open and unlink the temporary file. */
  method Retire(
      fs: FileSystem, ghost d0: Disk, temp: Name, target: Name, fd: nat, ghost data: Bytes, ghost linked: bool)
    returns (ok: bool)
    requires fs.Valid() && fd < |fs.fds| && temp != target
    requires AtomicFile.Shape(d0, fs.disk, temp, target, data, linked)
    requires linked ==> target !in Current(d0) && Visible(fs.disk, target) == Some(data)
    modifies fs
    ensures fs.Valid() && old(fs.trace) <= fs.trace
    ensures TraceSafe(fs.trace, |old(fs.trace)|, d0, temp, target, data, linked)
    ensures Safe(d0, fs.disk, temp, target, data, linked)
    ensures linked ==> Visible(fs.disk, target) == Some(data)
    ensures !linked ==> Untouched(d0, fs.disk, temp)
    ensures fd < |fs.fds| && fs.fds == old(fs.fds)[fd := fs.fds[fd]] && (fs.fds[fd].open ==> fs.fds[fd].closeFailed)
    ensures ok ==> temp !in Current(fs.disk)
    ensures !old(fs.fds)[fd].open && !ok ==> temp in fs.unremoved
    ensures temp in Current(fs.disk) ==> temp in fs.unremoved
    ensures old(fs.faults) <= fs.faults && (ok <==> fs.faults == old(fs.faults))
  {
    ShapeIsSafe(d0, fs.disk, temp, target, data, linked);
    var closed := CloseHandle(fs, fd);
    AtomicFile.RemovePreserves(d0, fs.disk, temp, target, data, linked);
    var unlinked := fs.Unlink(temp);
    ShapeIsSafe(d0, fs.disk, temp, target, data, linked);
    ok := closed && unlinked;
  }

  lemma ShapeIsSafe(d0: Disk, d: Disk, temp: Name, target: Name, data: Bytes, linked: bool)
    requires AtomicFile.Shape(d0, d, temp, target, data, linked)
    requires linked ==> target !in Current(d0)
    ensures Safe(d0, d, temp, target, data, linked)
    ensures !linked ==> Untouched(d0, d, temp)
  {
    if linked {
      AtomicFile.ShapeIsOldOrNew(d0, d, temp, target, data, true);
    } else {
      ShapeIsUntouched(d0, d, temp, target, data);
    }
  }

  /**
   How every save ends.  Success: the complete bytes are at a destination that
   was free.  Failure: nothing but the temporary file changed, unless that
   could not be unlinked after publication.
   */
  ghost predicate Ended(
      d0: Disk, d: Disk, unremoved: set<Name>, temp: Name, target: Name, data: Bytes, complete: bool,
      result: Option<nat>)
  {
    && d0.versions != [] && d.versions != []
    && (result.Some? ==> complete && target !in Current(d0) && Visible(d, target) == Some(data) && temp !in Current(d))
    && (result == None ==>
        Untouched(d0, d, temp) || (complete && Visible(d, target) == Some(data) && temp in unremoved))
    && (temp in Current(d) ==> temp in Current(d0) || temp in unremoved)
  }

  /** Everything after the caller's writing: publish if it succeeded, and clean up. */
  method Finish(
      fs: FileSystem, ghost d0: Disk, temp: Name, target: Name, fd: nat, ghost data: Bytes, written: bool, size: nat,
      aborted: bool)
    returns (result: Option<nat>)
    requires Writing(fs, d0, temp, target, fd, data) && temp != target
    modifies fs
    ensures fs.Valid() && old(fs.trace) <= fs.trace
    ensures TraceSafe(fs.trace, |old(fs.trace)|, d0, temp, target, data, written)
    ensures Ended(d0, fs.disk, fs.unremoved, temp, target, data, written, result)
    ensures result.Some? ==> result.value == size
    ensures fd < |fs.fds| && fs.fds == old(fs.fds)[fd := fs.fds[fd]] && (fs.fds[fd].open ==> fs.fds[fd].closeFailed)
    ensures old(fs.faults) <= fs.faults && (result.Some? ==> fs.faults == old(fs.faults))
    ensures result == None ==> fs.faults > old(fs.faults) || !written || aborted || target in Current(d0)
  {
    ghost var linked := false;
    var ok := written;
    if ok {
      ok, linked := Publish(fs, d0, temp, target, fd, data, aborted);
    }
    ghost var trace := fs.trace;
    var retired := Retire(fs, d0, temp, target, fd, data, linked);
    TraceSafeChains(old(fs.trace), trace, fs.trace, d0, temp, target, data, written, linked);
    result := if ok && retired then Some(size) else None;
  }

  lemma TraceSafeChains(
      trace0: seq<Disk>, trace1: seq<Disk>, trace: seq<Disk>, d0: Disk, temp: Name, target: Name, data: Bytes,
      complete: bool, linked: bool)
    requires trace0 <= trace1 <= trace && (linked ==> complete)
    requires TraceSafe(trace1, |trace0|, d0, temp, target, data, complete)
    requires TraceSafe(trace, |trace1|, d0, temp, target, data, linked)
    ensures TraceSafe(trace, |trace0|, d0, temp, target, data, complete)
  {
    forall k | |trace0| <= k < |trace| ensures Safe(d0, trace[k], temp, target, data, complete) {
      if k < |trace1| {
        assert trace[k] == trace1[k];
      }
    }
  }

  lemma UntouchedIsSafe(
      trace0: seq<Disk>, trace: seq<Disk>, d0: Disk, temp: Name, target: Name, data: Bytes, complete: bool)
    requires TraceUntouched(trace0, trace, d0, temp)
    ensures TraceSafe(trace, |trace0|, d0, temp, target, data, complete)
  {
  }

  method Create(fs: FileSystem, temp: Name, target: Name, aborted: bool) returns (fd: Option<nat>)
    requires fs.Valid() && temp != target
    modifies fs
    ensures fs.Valid() && old(fs.trace) <= fs.trace && fs.unremoved == old(fs.unremoved)
    ensures TraceUntouched(old(fs.trace), fs.trace, old(fs.disk), temp)
    ensures fd == None ==> fs.disk == old(fs.disk) && fs.fds == old(fs.fds) && Untouched(old(fs.disk), fs.disk, temp)
    ensures fd.Some? ==>
              && temp !in Current(old(fs.disk)) && fd.value == |old(fs.fds)| && |fs.fds| == fd.value + 1
              && fs.fds[..fd.value] == old(fs.fds)
              && Writing(fs, old(fs.disk), temp, target, fd.value, [])
    ensures old(fs.faults) <= fs.faults && (fd == None ==> aborted || fs.faults > old(fs.faults))
    ensures fd.Some? ==> fs.faults == old(fs.faults)
  {
    ghost var d0 := fs.disk;
    AtomicFile.CreationPreserves(d0, temp, target, [], {8, 7} - fs.umask);
    ShapeIsUntouched(d0, d0, temp, target, []);
    if aborted {
      return None;
    }
    fd := fs.CreateExclusive(temp, {8, 7});
    ShapeIsUntouched(d0, fs.disk, temp, target, []);
  }

  /**
   `download`: whatever the server sends and whatever fails, the destination is only ever the complete, verified
   file.
   */
  method Download(
      fs: FileSystem, temp: Name, target: Name, answers: seq<Page>, digest: Bytes -> string, abortedFirst: bool,
          abortedLast: bool)
    returns (result: Option<nat>, ghost pages: seq<Page>, ghost data: Bytes, ghost complete: bool)
    requires fs.Valid() && temp != target
    modifies fs
    ensures fs.Valid() && old(fs.trace) <= fs.trace
    ensures complete ==> Verified(pages, data, digest(data))
    ensures TraceSafe(fs.trace, |old(fs.trace)|, old(fs.disk), temp, target, data, complete)
    ensures Ended(old(fs.disk), fs.disk, fs.unremoved, temp, target, data, complete, result)
    ensures result.Some? ==> result.value == |data|
    ensures Bounded(pages)
    ensures old(fs.fds) <= fs.fds && AtomicFile.NoneLeft(fs.fds, |old(fs.fds)|, None, None)
    ensures result.Some? ==> fs.faults == old(fs.faults)
    ensures result == None ==>
              fs.faults > old(fs.faults) || abortedFirst || abortedLast || !complete
                  || target in Current(old(fs.disk))
    ensures !complete ==>
              fs.faults > old(fs.faults) || abortedFirst || pages == answers
                  || Spurious(pages, digest(Joined(pages)))
    ensures pages <= answers
  {
    ghost var d0, trace0 := fs.disk, fs.trace;
    pages, data, complete := [], [], false;
    var fd := Create(fs, temp, target, abortedFirst);
    if fd == None {
      UntouchedIsSafe(trace0, fs.trace, d0, temp, target, data, false);
      return None, pages, data, complete;
    }
    ghost var trace1 := fs.trace;
    var end, size;
    end, size, pages, data := DownloadPages(fs, d0, temp, target, fd.value, answers, digest);
    complete := end == Complete;
    TraceChains(trace0, trace1, fs.trace, d0, temp);
    UntouchedIsSafe(trace0, fs.trace, d0, temp, target, data, complete);
    ghost var trace2 := fs.trace;
    result := Finish(fs, d0, temp, target, fd.value, data, end == Complete, size, abortedLast);
    TraceSafeChains(trace0, trace2, fs.trace, d0, temp, target, data, complete, complete);
  }

  /** `saveText`, on the text's bytes. */
  method SaveText(fs: FileSystem, temp: Name, target: Name, bytes: Bytes, abortedFirst: bool, abortedLast: bool)
    returns (result: Option<nat>, ghost data: Bytes, ghost complete: bool)
    requires fs.Valid() && temp != target
    modifies fs
    ensures fs.Valid() && old(fs.trace) <= fs.trace
    ensures complete ==> data == bytes
    ensures TraceSafe(fs.trace, |old(fs.trace)|, old(fs.disk), temp, target, data, complete)
    ensures Ended(old(fs.disk), fs.disk, fs.unremoved, temp, target, data, complete, result)
    ensures result.Some? ==> result.value == |bytes|
    ensures old(fs.fds) <= fs.fds && AtomicFile.NoneLeft(fs.fds, |old(fs.fds)|, None, None)
    ensures result.Some? ==> fs.faults == old(fs.faults)
    ensures result == None ==>
              fs.faults > old(fs.faults) || abortedFirst || abortedLast || target in Current(old(fs.disk))
  {
    ghost var d0, trace0 := fs.disk, fs.trace;
    data, complete := [], false;
    var fd := Create(fs, temp, target, abortedFirst);
    if fd == None {
      UntouchedIsSafe(trace0, fs.trace, d0, temp, target, data, false);
      return None, data, complete;
    }
    ghost var trace1 := fs.trace;
    var ok;
    ok, data := Append(fs, d0, temp, target, fd.value, [], bytes);
    complete := ok;
    TraceChains(trace0, trace1, fs.trace, d0, temp);
    UntouchedIsSafe(trace0, fs.trace, d0, temp, target, data, complete);
    ghost var trace2 := fs.trace;
    result := Finish(fs, d0, temp, target, fd.value, data, ok, |bytes|, abortedLast);
    TraceSafeChains(trace0, trace2, fs.trace, d0, temp, target, data, complete, complete);
  }
}
