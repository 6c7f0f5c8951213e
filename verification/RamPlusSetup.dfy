/** ax_ram_plus_setup: the program over the system calls of RamPlusWorld, and what
    it guarantees whichever of them fail and wherever it is killed. */
module RamPlusSetup {
  import opened Words
  import opened Wrappers
  import opened SwapFile
  import opened RamPlusWorld

  const ZRAM_POLL_ATTEMPTS: nat := 60
  const WRITE_CHUNK_BYTES: nat := 4 * MIB_BYTES
  const KB_PER_MIB: nat := 1024
  const SWAP_SIZE_TOLERANCE_KB: nat := 1024

  datatype PrepareResult = Ok | InsufficientSpace | FileError | AllocationError

  // ------------------------------------------------------------------ zram priority

  predicate IsZram(e: SwapEntry) {
    "/dev/block/zram" <= e.path || "/dev/zram" <= e.path
  }

  /** The zram devices by their two path prefixes. */
  lemma ZramPaths(e: SwapEntry)
    ensures IsZram(e) <==>
              || (|e.path| >= 15 && e.path[..15] == "/dev/block/zram")
              || (|e.path| >= 9 && e.path[..9] == "/dev/zram")
  {
  }

  /** `p` is the lowest priority of a zram device among the entries. */
  predicate LowestZram(entries: seq<SwapEntry>, p: int) {
    && (forall i :: 0 <= i < |entries| && IsZram(entries[i]) ==> p <= entries[i].priority)
    && (exists i :: 0 <= i < |entries| && IsZram(entries[i]) && p == entries[i].priority)
  }

  predicate NoZram(entries: seq<SwapEntry>) {
    forall i :: 0 <= i < |entries| ==> !IsZram(entries[i])
  }

  /** `FindLowestZramPriority`. */
  method FindLowestZramPriority(entries: seq<SwapEntry>) returns (priority: Option<int>)
    ensures priority == None <==> NoZram(entries)
    ensures priority.Some? ==> LowestZram(entries, priority.value)
  {
    hide IsZram;
    priority := None;
    var i := 0;
    while i < |entries|
      invariant i <= |entries|
      invariant priority == None <==> NoZram(entries[..i])
      invariant priority.Some? ==> LowestZram(entries[..i], priority.value)
    {
      assert entries[..i + 1] == entries[..i] + [entries[i]];
      assert entries[..i + 1][i] == entries[i];
      if IsZram(entries[i]) {
        priority := if priority.Some? then Some(Min(priority.value, entries[i].priority))
                    else Some(entries[i].priority);
        assert LowestZram(entries[..i + 1], priority.value) by {
          if priority.value != entries[i].priority {
            var k :| 0 <= k < i && IsZram(entries[..i][k]) && entries[..i][k].priority == priority.value;
            assert entries[..i + 1][k] == entries[..i][k];
          }
        }
      }
      i := i + 1;
    }
    assert entries[..i] == entries;
  }

  predicate NotReady(poll: Poll) {
    poll == None || NoZram(poll.value)
  }

  predicate NeverReady(polls: seq<Poll>) {
    forall i :: 0 <= i < |polls| ==> NotReady(polls[i])
  }

  /** The list the priority was read from: the last one. */
  function Snapshot(polls: seq<Poll>): seq<SwapEntry> {
    if polls != [] && polls[|polls| - 1].Some? then polls[|polls| - 1].value else []
  }

  /** How many of the readings failed. */
  function Unread(polls: seq<Poll>): nat {
    if polls == [] then 0
    else Unread(polls[..|polls| - 1]) + (if polls[|polls| - 1] == None then 1 else 0)
  }

  lemma UnreadExtended(polls: seq<Poll>, poll: Poll)
    ensures Unread(polls + [poll]) == Unread(polls) + (if poll == None then 1 else 0)
  {
    assert (polls + [poll])[..|polls|] == polls;
  }

  /** `ReadSwapEntries`. */
  method ReadSwapEntries(os: Os) returns (entries: Poll)
    requires os.Good()
    modifies os
    ensures os.Good() && old(os.log) <= os.log && os.w == old(os.w)
    ensures os.Seen() == old(os.Seen()).(polls := old(os.Seen()).polls + [entries])
    ensures os.Failures() == old(os.Failures()).Plus(Reading, entries == None)
    ensures entries.Some? ==> ShowsSwap(os.w.swap, entries.value)
  {
    hide GoodLog, GoodEvent, Inv, TallyOf, SeenIn, ShowsSwap;
    LogEndsGood(os.start, os.log, os.w);
    ghost var log := os.log;
    entries := os.ReadSwaps();
    var r := if entries.Some? then Done else Failed(OtherError);
    QuietIsGood(OpReadSwaps(entries), r, os.w, os.w);
    Extend(os.start, log, Event(OpReadSwaps(entries), r, os.w, os.w));
  }

  /** `WaitForZramPriority`: the answer is that of the first list with a zram
      device, or None after sixty lists without one.  `polls` are the lists read. */
  method WaitForZramPriority(os: Os) returns (priority: Option<int>, ghost polls: seq<Poll>)
    requires os.Good()
    modifies os
    ensures os.Good() && old(os.log) <= os.log && os.w == old(os.w)
    ensures os.Seen() == old(os.Seen()).(polls := old(os.Seen()).polls + polls)
    ensures os.Failures() == old(os.Failures()).(reading := old(os.Failures()).reading + Unread(polls))
    ensures priority == None ==> |polls| == ZRAM_POLL_ATTEMPTS && NeverReady(polls)
    ensures priority.Some? ==>
      && 0 < |polls| <= ZRAM_POLL_ATTEMPTS && NeverReady(polls[..|polls| - 1])
      && LowestZram(Snapshot(polls), priority.value)
  {
    polls := [];
    assert Unread([]) == 0;
    hide GoodLog, LowestZram, NoZram, ShowsSwap, TallyOf, SeenIn, Unread;
    var attempt := 0;
    while attempt < ZRAM_POLL_ATTEMPTS
      invariant os.Good() && old(os.log) <= os.log && os.w == old(os.w)
      invariant attempt == |polls| <= ZRAM_POLL_ATTEMPTS && NeverReady(polls)
      invariant os.Seen() == old(os.Seen()).(polls := old(os.Seen()).polls + polls)
      invariant os.Failures() == old(os.Failures()).(reading := old(os.Failures()).reading + Unread(polls))
    {
      var entries := ReadSwapEntries(os);
      ghost var before := polls;
      polls := polls + [entries];
      assert polls[..|polls| - 1] == before;
      UnreadExtended(before, entries);
      if entries.Some? {
        priority := FindLowestZramPriority(entries.value);
        if priority.Some? {
          return;
        }
      }
      attempt := attempt + 1;
    }
    priority := None;
  }

  // ---------------------------------------------------------------------- publishing

  predicate OnlyProperties(before: World, after: World) {
    after == before.(activeKb := after.activeKb, status := after.status)
  }

  /** `PublishStatus`: both properties are set, in this order, whatever becomes of
      the first. */
  method PublishStatus(os: Os, activeKb: nat, status: string) returns (ok: bool)
    requires os.Good()
    modifies os
    ensures |os.log| == |old(os.log)| + 2
    ensures var first, second := os.log[|old(os.log)|], os.log[|old(os.log)| + 1];
            && first.op == OpProperty && second.op == OpProperty
            && os.w == old(os.w).(activeKb := if first.result == Done then activeKb else old(os.w.activeKb),
                                  status := if second.result == Done then status else old(os.w.status))
            && (ok <==> first.result == Done && second.result == Done)
    ensures os.Good() && old(os.log) <= os.log && OnlyProperties(old(os.w), os.w)
    ensures ok ==> os.w == old(os.w).(activeKb := activeKb, status := status)
    ensures os.Failures() == old(os.Failures()).(publishing := os.Failures().publishing)
    ensures os.Failures().publishing >= old(os.Failures()).publishing + if ok then 0 else 1
    ensures ok ==> os.Failures() == old(os.Failures())
    ensures os.Seen() == old(os.Seen())
  {
    hide GoodLog, GoodEvent, Inv, TallyOf, SeenIn;
    var sizeSet := SetActive(os, activeKb);
    ghost var log, before := os.log, os.w;
    LogEndsGood(os.start, os.log, os.w);
    var r := os.SetStatus(status);
    QuietIsGood(OpProperty, r, before, os.w);
    Extend(os.start, log, Event(OpProperty, r, before, os.w));
    ok := sizeSet && r == Done;
  }

  method SetActive(os: Os, activeKb: nat) returns (ok: bool)
    requires os.Good()
    modifies os
    ensures os.Good() && old(os.log) <= os.log && |os.log| == |old(os.log)| + 1
    ensures var e := os.log[|old(os.log)|]; e.op == OpProperty && (ok <==> e.result == Done)
    ensures os.w == if ok then old(os.w).(activeKb := activeKb) else old(os.w)
    ensures os.Failures() == old(os.Failures()).Plus(Publishing, !ok)
    ensures os.Seen() == old(os.Seen())
  {
    hide GoodLog, GoodEvent, Inv, TallyOf, SeenIn;
    LogEndsGood(os.start, os.log, os.w);
    ghost var log, before := os.log, os.w;
    var r := os.SetActiveKb(activeKb);
    QuietIsGood(OpProperty, r, before, os.w);
    Extend(os.start, log, Event(OpProperty, r, before, os.w));
    ok := r == Done;
  }

  // ------------------------------------------------------------- preparing the file

  /** lstat, chmod, fchmod or fsync, recorded. */
  method Look(os: Os, op: Op) returns (ok: bool)
    requires os.Good() && (op == OpInspect || op == OpSecure || op == OpSync)
    modifies os
    ensures os.Good() && os.w == old(os.w)
    ensures os.log == old(os.log) + [Event(op, if ok then Done else Failed(OtherError), os.w, os.w)]
    ensures os.Failures() == old(os.Failures()).Plus(Other, !ok)
    ensures os.Seen() == old(os.Seen())
  {
    hide GoodLog, GoodEvent, Inv, TallyOf, SeenIn;
    LogEndsGood(os.start, os.log, os.w);
    ghost var log := os.log;
    var r := os.Look(op);
    QuietIsGood(op, r, os.w, os.w);
    Extend(os.start, log, Event(op, r, os.w, os.w));
    ok := r == Done;
  }

  /** `fstat`, recorded. */
  method Inspect(os: Os) returns (st: Option<Stat>)
    requires os.Good() && os.w.file.Some?
    modifies os
    ensures os.Good() && old(os.log) <= os.log && os.w == old(os.w)
    ensures |os.log| == |old(os.log)| + 1 && os.log[|old(os.log)|].op == OpInspect
    ensures os.Failures() == old(os.Failures()).Plus(Other, st == None)
    ensures os.Seen() == old(os.Seen())
    ensures st.Some? ==>
      var f := os.w.file.value; st.value == Stat(f.regular, BLOCK_BYTES * |f.blocks|, BLOCK_SECTORS * Count(f.blocks))
  {
    hide GoodLog, GoodEvent, Inv, TallyOf, SeenIn, Count;
    LogEndsGood(os.start, os.log, os.w);
    ghost var log := os.log;
    st := os.Fstat();
    var r := if st.Some? then Done else Failed(OtherError);
    QuietIsGood(OpInspect, r, os.w, os.w);
    Extend(os.start, log, Event(OpInspect, r, os.w, os.w));
  }

  /** `HasAllocationSpace`: None when the free space cannot be read. */
  method HasAllocationSpace(os: Os, currentBytes: nat, requestedBytes: nat) returns (r: Option<bool>)
    requires os.Good()
    modifies os
    ensures os.Good() && old(os.log) <= os.log && os.w == old(os.w)
    ensures forall i :: |old(os.log)| <= i < |os.log| ==> os.log[i].op == OpInspect
    ensures os.Failures() == old(os.Failures()).Plus(Other, r == None)
    ensures os.Seen() == old(os.Seen())
    ensures requestedBytes <= currentBytes ==> r == Some(true)
    ensures requestedBytes > currentBytes && r.Some? ==>
              (r.value <==> os.w.free * BLOCK_BYTES >= requestedBytes - currentBytes + RESERVE_BYTES)
  {
    hide GoodLog, GoodEvent, Inv, TallyOf, SeenIn;
    if requestedBytes <= currentBytes {
      return Some(true);
    }
    LogEndsGood(os.start, os.log, os.w);
    ghost var log := os.log;
    var available := os.Statvfs();
    ghost var result := if available.Some? then Done else Failed(OtherError);
    QuietIsGood(OpInspect, result, os.w, os.w);
    Extend(os.start, log, Event(OpInspect, result, os.w, os.w));
    if available == None {
      return None;
    }
    r := Some(available.value >= requestedBytes - currentBytes + RESERVE_BYTES);
  }

  /** The file may have been rewritten, but is still the same kind and size. */
  predicate Rewritten(before: World, after: World) {
    && before.file.Some? && after.file.Some?
    && after == before.(file := after.file, free := after.free)
    && after.file.value.regular == before.file.value.regular
    && |after.file.value.blocks| == |before.file.value.blocks|
  }

  /** One chunk of `WriteZeroes`, recorded. */
  method WriteChunk(os: Os, from: nat, n: nat) returns (ok: bool)
    requires os.Good() && os.w.swap == None && os.w.file.Some? && Room(os.w)
    requires from <= Count(os.w.file.value.blocks) && from + n <= |os.w.file.value.blocks|
    modifies os
    ensures os.Good() && old(os.log) <= os.log && Room(os.w) && Rewritten(old(os.w), os.w)
    ensures |os.log| == |old(os.log)| + 1 && os.log[|old(os.log)|].op == OpWrite(from, n)
    ensures ok ==> Count(os.w.file.value.blocks) >= from + n
    ensures Count(os.w.file.value.blocks) >= old(Count(os.w.file.value.blocks))
    ensures Total(os.w) == old(Total(os.w))
    ensures os.Failures() == old(os.Failures()).Plus(Allocating, !ok)
    ensures os.Seen() == old(os.Seen())
  {
    hide GoodLog, GoodEvent, Inv, Count, Fill, Room, TooMuch, TallyOf, SeenIn;
    LogEndsGood(os.start, os.log, os.w);
    RoomSuffices(os.w, from, n);
    ghost var log, before := os.log, os.w;
    var r;
    ghost var done;
    r, done := os.WriteFully(from, n);
    WriteIsGood(before, os.w, from, n, done, r);
    Extend(os.start, log, Event(OpWrite(from, n), r, before, os.w));
    ok := r == Done;
  }

  /** All calls since are writes; the first is at block `at`, none goes before it,
      and none is longer than 4 MiB. */
  predicate WritesOnly(log: seq<Event>, since: nat, at: nat) {
    && since <= |log|
    && (forall i :: since <= i < |log| ==> log[i].op.OpWrite? && at <= log[i].op.from && log[i].op.count <= 1024)
    && (since < |log| ==> log[since].op.from == at)
  }

  lemma ChunkBlocks(start: nat, offset: nat, size: nat)
    requires start % BLOCK_BYTES == 0 && offset % BLOCK_BYTES == 0 && size % BLOCK_BYTES == 0
    requires start <= offset && size <= WRITE_CHUNK_BYTES
    ensures start / BLOCK_BYTES <= offset / BLOCK_BYTES && size / BLOCK_BYTES <= 1024
    ensures BLOCK_BYTES * (offset / BLOCK_BYTES) == offset && BLOCK_BYTES * (size / BLOCK_BYTES) == size
    ensures (offset + size) % BLOCK_BYTES == 0
  {
  }

  lemma EmptyWrites(log: seq<Event>, at: nat)
    ensures WritesOnly(log, |log|, at)
  {
  }

  lemma OneMoreWrite(log: seq<Event>, log': seq<Event>, since: nat, at: nat)
    requires WritesOnly(log, since, at) && log <= log' && |log'| == |log| + 1
    requires var op := log'[|log|].op; op.OpWrite? && at <= op.from && op.count <= 1024
    requires |log| == since ==> log'[|log|].op.from == at
    ensures WritesOnly(log', since, at)
  {
    forall i | since <= i < |log'|
      ensures log'[i].op.OpWrite? && at <= log'[i].op.from && log'[i].op.count <= 1024
    {
      assert i < |log| ==> log'[i] == log[i];
    }
    assert since < |log| ==> log'[since] == log[since];
  }

  lemma WritesAre(log: seq<Event>, since: nat, at: nat, end: nat)
    requires WritesOnly(log, since, at) && (at < end ==> since < |log|)
    ensures WritesFrom(log, since, at, end)
    ensures forall i :: since <= i < |log| ==> log[i].op.OpWrite?
  {
  }

  /** `WriteZeroes`, in chunks of 4 MiB; offsets are in bytes. */
  method WriteZeroes(os: Os, start: nat, end: nat) returns (ok: bool)
    requires os.Good() && os.w.swap == None && os.w.file.Some? && Room(os.w)
    requires start % BLOCK_BYTES == 0 && start <= end == BLOCK_BYTES * |os.w.file.value.blocks|
    requires start <= BLOCK_BYTES * Count(os.w.file.value.blocks)
    modifies os
    ensures os.Good() && old(os.log) <= os.log && Rewritten(old(os.w), os.w)
    ensures ok ==> Full(os.w.file.value.blocks)
    ensures forall i :: |old(os.log)| <= i < |os.log| ==> os.log[i].op.OpWrite?
    ensures WritesFrom(os.log, |old(os.log)|, start / BLOCK_BYTES, end / BLOCK_BYTES)
    ensures Total(os.w) == old(Total(os.w))
    ensures Occupied(os.w) >= old(Occupied(os.w))
    ensures os.Failures() == old(os.Failures()).Plus(Allocating, !ok)
    ensures os.Seen() == old(os.Seen())
  {
    hide GoodLog, GoodEvent, Inv, Count, Room, Full, TallyOf, SeenIn, WritesOnly, WritesFrom;
    ghost var at, last := start / BLOCK_BYTES, end / BLOCK_BYTES;
    EmptyWrites(os.log, at);
    var offset := start;
    while offset < end
      invariant os.Good() && old(os.log) <= os.log && Room(os.w) && Rewritten(old(os.w), os.w)
      invariant WritesOnly(os.log, |old(os.log)|, at)
      invariant offset == start ==> |os.log| == |old(os.log)|
      invariant offset > start ==> |os.log| > |old(os.log)|
      invariant offset % BLOCK_BYTES == 0 && start <= offset <= end
      invariant offset <= BLOCK_BYTES * Count(os.w.file.value.blocks)
      invariant Total(os.w) == old(Total(os.w))
      invariant Occupied(os.w) >= old(Occupied(os.w))
      invariant os.Failures() == old(os.Failures()) && os.Seen() == old(os.Seen())
      decreases end - offset
    {
      var size := if end - offset < WRITE_CHUNK_BYTES then end - offset else WRITE_CHUNK_BYTES;
      ghost var log := os.log;
      ChunkBlocks(start, offset, size);
      var written := WriteChunk(os, offset / BLOCK_BYTES, size / BLOCK_BYTES);
      OneMoreWrite(log, os.log, |old(os.log)|, at);
      if !written {
        WritesAre(os.log, |old(os.log)|, at, last);
        return false;
      }
      offset := offset + size;
    }
    CountIsSize(os.w.file.value.blocks);
    WritesAre(os.log, |old(os.log)|, at, last);
    ok := true;
  }

  /** The directory, the swap and the properties are as before. */
  predicate OnlyFile(before: World, after: World) {
    after == before.(file := after.file, free := after.free)
  }

  /** The blocks the program finds at the path. */
  function BlocksOf(w: World): Blocks {
    if w.file.Some? then w.file.value.blocks else []
  }

  method OpenFile(os: Os) returns (ok: bool)
    requires os.Good()
    modifies os
    ensures os.Good() && old(os.log) <= os.log && OnlyFile(old(os.w), os.w)
    ensures os.w.free == old(os.w.free) && BlocksOf(os.w) == old(BlocksOf(os.w))
    ensures |os.log| == |old(os.log)| + 1 && os.log[|old(os.log)|].op == OpOpen
    ensures ok ==> os.w.file.Some? && (old(os.w.file) == None ==> os.w.file.value.regular)
    ensures old(os.w.file.Some?) ==> os.w == old(os.w)
    ensures os.Failures() == old(os.Failures()).Plus(Other, !ok && old(os.w.dir) == Directory)
    ensures os.Seen() == old(os.Seen())
  {
    hide GoodLog, GoodEvent, Inv, Count, TallyOf, SeenIn;
    LogEndsGood(os.start, os.log, os.w);
    ghost var log, before := os.log, os.w;
    var r := os.OpenCreate();
    OpenIsGood(before, os.w, r);
    Extend(os.start, log, Event(OpOpen, r, before, os.w));
    ok := r == Done;
  }

  method ResizeFile(os: Os, n: nat) returns (ok: bool)
    requires os.Good() && os.w.swap == None && os.w.file.Some?
    modifies os
    ensures os.Good() && old(os.log) <= os.log && OnlyFile(old(os.w), os.w) && os.w.file.Some?
    ensures os.w.file.value.regular == old(os.w.file.value.regular)
    ensures |os.log| == |old(os.log)| + 1 && os.log[|old(os.log)|].op == OpTruncate
    ensures Total(os.w) == old(Total(os.w))
    ensures ok ==> |os.w.file.value.blocks| == n
    ensures ok ==> Count(os.w.file.value.blocks) == Min(old(Count(os.w.file.value.blocks)), n)
    ensures !ok ==> os.w == old(os.w)
    ensures os.Failures() == old(os.Failures()).Plus(Allocating, !ok)
    ensures os.Seen() == old(os.Seen())
  {
    hide GoodLog, GoodEvent, Inv, Count, Resize, TooMuch, TallyOf, SeenIn;
    LogEndsGood(os.start, os.log, os.w);
    ResizeSuffices(os.w, n);
    ghost var log, before := os.log, os.w;
    var r := os.Ftruncate(n);
    TruncateIsGood(before, os.w, n, r);
    Extend(os.start, log, Event(OpTruncate, r, before, os.w));
    ok := r == Done;
  }

  lemma RoomAfterResize(w: World, occupied: nat, free: nat, n: nat)
    requires w.file.Some? && |w.file.value.blocks| == n
    requires Count(w.file.value.blocks) == Min(occupied, n) && Total(w) == free + occupied
    requires n <= occupied || free * BLOCK_BYTES >= BLOCK_BYTES * n - BLOCK_BYTES * occupied + RESERVE_BYTES
    ensures Room(w)
  {
    hide Count;
  }

  /** The result of a preparation in which no call fails: whether the space
      suffices is decided by the blocks the file already occupies. */
  function Verdict(w: World, requestedBytes: nat): PrepareResult {
    if w.file.Some? && !w.file.value.regular then FileError
    else if BLOCK_BYTES * Occupied(w) < requestedBytes
            && w.free * BLOCK_BYTES < requestedBytes - BLOCK_BYTES * Occupied(w) + RESERVE_BYTES then InsufficientSpace
    else Ok
  }

  /** Of a regular file, or none yet, the missing bytes must fit above 4 GiB of free
      space, unless nothing is missing. */
  lemma VerdictMeaning(w: World, requestedBytes: nat)
    ensures var missing := requestedBytes - 4096 * Occupied(w);
            var regular := w.file.Some? ==> w.file.value.regular;
            && (Verdict(w, requestedBytes) == FileError <==> !regular)
            && (Verdict(w, requestedBytes) == Ok <==>
                  regular && (missing <= 0 || 4096 * w.free >= missing + 4294967296))
            && Verdict(w, requestedBytes) != AllocationError
  {
    hide Count;
  }

  /** What a preparation that found and resized the file has to write. */
  method Allocate(os: Os, allocatedBytes: nat, currentBytes: nat, requestedBytes: nat) returns (r: PrepareResult)
    requires os.Good() && os.w.swap == None && os.w.file.Some? && requestedBytes % BLOCK_BYTES == 0
    requires allocatedBytes == BLOCK_BYTES * Count(os.w.file.value.blocks)
    requires currentBytes == BLOCK_BYTES * |os.w.file.value.blocks|
    requires requestedBytes <= allocatedBytes ||
             os.w.free * BLOCK_BYTES >= requestedBytes - allocatedBytes + RESERVE_BYTES
    modifies os
    ensures os.Good() && old(os.log) <= os.log && OnlyFile(old(os.w), os.w) && os.w.file.Some?
    ensures Total(os.w) == old(Total(os.w)) && os.w.file.value.regular == old(os.w.file.value.regular)
    ensures requestedBytes <= allocatedBytes ==> os.w.free >= old(os.w.free)
    ensures r == Ok ==>
      && BLOCK_BYTES * |os.w.file.value.blocks| == requestedBytes && Full(os.w.file.value.blocks)
      && Synced(os.log, os.w)
    ensures r == Ok ==>
      WritesFrom(os.log, |old(os.log)|, WriteStart(old(BlocksOf(os.w)), requestedBytes / BLOCK_BYTES),
                 requestedBytes / BLOCK_BYTES)
    ensures os.Failures() ==
      old(os.Failures()).Plus(if r == AllocationError then Allocating else Other, r != Ok)
    ensures r != InsufficientSpace && os.Seen() == old(os.Seen())
  {
    hide GoodLog, GoodEvent, Inv, Count, Room, Full, Resize, Fill, TallyOf, SeenIn;
    ghost var occupied, free, blocks := Occupied(os.w), os.w.free, BlocksOf(os.w);
    var n := requestedBytes / BLOCK_BYTES;
    var resized := ResizeFile(os, n);
    if !resized {
      return AllocationError;
    }
    RoomAfterResize(os.w, occupied, free, n);
    var preservedBytes := Min(currentBytes, requestedBytes);
    var writeOffset := if allocatedBytes < preservedBytes then 0 else preservedBytes;
    var written := WriteZeroes(os, writeOffset, requestedBytes);
    if !written {
      return AllocationError;
    }
    WriteOffsetIs(blocks, allocatedBytes, currentBytes, requestedBytes);
    ghost var writes := os.log;
    var synced := Look(os, OpSync);
    r := if synced then Ok else FileError;
    WritesLogged(writes, os.log, |old(os.log)| + 1, |old(os.log)|, WriteStart(blocks, n), n);
  }

  lemma WriteOffsetIs(b: Blocks, allocatedBytes: nat, currentBytes: nat, requestedBytes: nat)
    requires allocatedBytes == BLOCK_BYTES * Count(b) && currentBytes == BLOCK_BYTES * |b|
    requires requestedBytes % BLOCK_BYTES == 0
    ensures var preserved := Min(currentBytes, requestedBytes);
            (if allocatedBytes < preserved then 0 else preserved) / BLOCK_BYTES
            == WriteStart(b, requestedBytes / BLOCK_BYTES)
  {
    hide Count;
  }

  /** Calls before and after the writes that are no writes do not matter. */
  lemma WritesLogged(writes: seq<Event>, log: seq<Event>, since: nat, earlier: nat, at: nat, end: nat)
    requires WritesFrom(writes, since, at, end) && writes <= log && earlier <= since <= |writes|
    requires forall i :: earlier <= i < since ==> !log[i].op.OpWrite?
    requires forall i :: |writes| <= i < |log| ==> !log[i].op.OpWrite?
    ensures WritesFrom(log, earlier, at, end)
  {
    forall i | earlier <= i < |log| && log[i].op.OpWrite?
      ensures at <= log[i].op.from && log[i].op.count <= 1024
    {
      assert since <= i < |writes| && log[i] == writes[i];
    }
    if at < end {
      var i :| since <= i < |writes| && writes[i].op.OpWrite? && writes[i].op.from == at;
      assert log[i] == writes[i];
    }
  }

  /** The first calls of a preparation: open, inspect and secure the file, and see
      whether there is room. */
  method Admit(os: Os, requestedBytes: nat)
    returns (r: PrepareResult, allocatedBytes: nat, currentBytes: nat)
    requires os.Good() && os.w.swap == None
    modifies os
    ensures os.Good() && old(os.log) <= os.log && OnlyFile(old(os.w), os.w)
    ensures os.w.free == old(os.w.free) && BlocksOf(os.w) == old(BlocksOf(os.w))
    ensures |os.log| > |old(os.log)| && os.log[|old(os.log)|].op == OpOpen
    ensures forall i :: |old(os.log)| <= i < |os.log| ==> !os.log[i].op.OpWrite?
    ensures r == Ok ==>
      && os.w.file.Some? && os.w.file.value.regular && |os.log| > |old(os.log)| + 2
      && os.log[|old(os.log)| + 1].op == OpInspect
      && os.log[|old(os.log)| + 2].op == OpSecure && os.log[|old(os.log)| + 2].result == Done
      && allocatedBytes == BLOCK_BYTES * Count(os.w.file.value.blocks)
      && currentBytes == BLOCK_BYTES * |os.w.file.value.blocks|
      && (requestedBytes <= allocatedBytes ||
          os.w.free * BLOCK_BYTES >= requestedBytes - allocatedBytes + RESERVE_BYTES)
    ensures r != AllocationError
    ensures old(os.w.dir) == Directory ==>
      if os.Failures() == old(os.Failures()) then r == Verdict(old(os.w), requestedBytes)
      else r == FileError && os.Failures() == old(os.Failures()).Plus(Other, true)
    ensures r == Ok || r == InsufficientSpace ==> r == Verdict(old(os.w), requestedBytes)
    ensures r == Ok ==> os.Failures() == old(os.Failures())
    ensures os.Seen() == old(os.Seen())
  {
    hide GoodLog, GoodEvent, Inv, Count, Room, Full, TallyOf, SeenIn, Prefix;
    allocatedBytes, currentBytes := 0, 0;
    var isOpen := OpenFile(os);
    if !isOpen {
      r := FileError;
      return;
    }
    var st := Inspect(os);
    if st == None || !st.value.regular {
      r := FileError;
      return;
    }
    var secured := Look(os, OpSecure);
    if !secured {
      r := FileError;
      return;
    }
    allocatedBytes := st.value.sectors * SECTOR_BYTES;
    currentBytes := st.value.sizeBytes;
    var hasSpace := HasAllocationSpace(os, Min(allocatedBytes, requestedBytes), requestedBytes);
    if hasSpace == None {
      r := FileError;
      return;
    }
    r := if hasSpace.value then Ok else InsufficientSpace;
  }

  /** `PrepareSwapFile`.  Success leaves the file that `Prepared` describes, which
      has exactly the requested size and no hole, and has synced it; a failure
      part-way is a good state too; a file that already occupies the request
      costs no block; and each result names its cause. */
  method PrepareSwapFile(os: Os, requestedBytes: nat) returns (r: PrepareResult)
    requires os.Good() && os.w.swap == None && requestedBytes % BLOCK_BYTES == 0
    modifies os
    ensures os.Good() && old(os.log) <= os.log && OnlyFile(old(os.w), os.w)
    ensures Total(os.w) == old(Total(os.w))
    ensures r == Ok ==>
      && os.w.file.Some? && os.w.file.value.regular
      && BLOCK_BYTES * |os.w.file.value.blocks| == requestedBytes && Full(os.w.file.value.blocks)
      && os.w.file.value.blocks == Prepared(old(BlocksOf(os.w)), requestedBytes / BLOCK_BYTES)
      && Synced(os.log, os.w) && |os.log| > |old(os.log)| + 2
    // the calls: open, inspect and secure the file first, write from the right block on
    ensures |os.log| > |old(os.log)| && os.log[|old(os.log)|].op == OpOpen
    ensures r == Ok ==>
      && os.log[|old(os.log)| + 1].op == OpInspect
      && os.log[|old(os.log)| + 2].op == OpSecure && os.log[|old(os.log)| + 2].result == Done
      && WritesFrom(os.log, |old(os.log)|, WriteStart(old(BlocksOf(os.w)), requestedBytes / BLOCK_BYTES),
                    requestedBytes / BLOCK_BYTES)
    ensures r == InsufficientSpace ==>
      && os.w.free == old(os.w.free)
      && os.w.free * BLOCK_BYTES < requestedBytes - BLOCK_BYTES * old(Occupied(os.w)) + RESERVE_BYTES
    ensures BLOCK_BYTES * old(Occupied(os.w)) >= requestedBytes ==>
      r != InsufficientSpace && os.w.free >= old(os.w.free)
    ensures old(os.w.dir) == Directory ==>
      if os.Failures() == old(os.Failures()) then r == Verdict(old(os.w), requestedBytes)
      else (r == AllocationError || r == FileError) &&
           os.Failures() == old(os.Failures()).Plus(if r == AllocationError then Allocating else Other, true)
    ensures r == AllocationError ==> Verdict(old(os.w), requestedBytes) == Ok
    ensures os.Seen() == old(os.Seen())
  {
    hide GoodLog, GoodEvent, Inv, Count, Room, Full, Resize, Fill, TallyOf, SeenIn, Prefix, Prepared, WritesFrom;
    hide WriteStart, Verdict;
    ghost var blocks, before, n := BlocksOf(os.w), os.w, requestedBytes / BLOCK_BYTES;
    PrefixFound(os.start, os.log, os.w);
    VerdictMeaning(os.w, requestedBytes);
    var allocatedBytes, currentBytes;
    r, allocatedBytes, currentBytes := Admit(os, requestedBytes);
    if r != Ok {
      return;
    }
    ghost var admitted := os.log;
    PrefixFound(os.start, os.log, os.w);
    r := Allocate(os, allocatedBytes, currentBytes, requestedBytes);
    if r == Ok {
      WritesLogged(os.log, os.log, |admitted|, |old(os.log)|, WriteStart(blocks, n), n);
      FullIsPrepared(blocks, n, os.w.file.value.blocks);
    }
  }

  lemma PrefixFound(start: World, log: seq<Event>, w: World)
    requires GoodLog(start, log, w)
    ensures Prefix(BlocksOf(w)) && Occupied(w) == Count(BlocksOf(w))
  {
    LogEndsGood(start, log, w);
  }

  // ------------------------------------------------------------- undoing and failing

  /** `DisableSwap`.  Accepting ENOENT is sound because an active swapfile exists. */
  method DisableSwap(os: Os) returns (ok: bool)
    requires os.Good()
    modifies os
    ensures os.Good() && old(os.log) <= os.log
    ensures os.w == if ok then old(os.w).(swap := None) else old(os.w)
    ensures os.Failures() == old(os.Failures()).Plus(SwappingOff, !ok)
    ensures os.Seen() == old(os.Seen())
  {
    hide GoodLog, GoodEvent, Full, Prefix, TallyOf, SeenIn;
    LogEndsGood(os.start, os.log, os.w);
    ghost var log, before := os.log, os.w;
    var r := os.SwapOff();
    SwapOffIsGood(before, os.w, r);
    Extend(os.start, log, Event(OpSwapOff, r, before, os.w));
    ok := r == Done || r == Failed(EINVAL) || r == Failed(ENOENT);
  }

  /** `RemoveSwapFile`. */
  method RemoveSwapFile(os: Os) returns (ok: bool)
    requires os.Good() && os.w.swap == None
    modifies os
    ensures os.Good() && old(os.log) <= os.log && OnlyFile(old(os.w), os.w)
    ensures ok ==> os.w.file == None
    ensures !ok ==> os.w == old(os.w)
    ensures os.Failures() == old(os.Failures()).Plus(Unlinking, !ok)
    ensures os.Seen() == old(os.Seen())
  {
    hide GoodLog, GoodEvent, Inv, Count, TallyOf, SeenIn;
    LogEndsGood(os.start, os.log, os.w);
    ghost var log, before := os.log, os.w;
    var r := os.Unlink();
    UnlinkIsGood(before, os.w, r);
    Extend(os.start, log, Event(OpUnlink, r, before, os.w));
    ok := r == Done || r == Failed(ENOENT);
  }

  method MakeDirectory(os: Os) returns (ok: bool)
    requires os.Good() && os.w.dir == Missing
    modifies os
    ensures os.Good() && old(os.log) <= os.log
    ensures os.w == if ok then old(os.w).(dir := Directory) else old(os.w)
    ensures os.Failures() == old(os.Failures()).Plus(Other, !ok)
    ensures os.Seen() == old(os.Seen())
  {
    hide GoodLog, GoodEvent, Full, Prefix, TallyOf, SeenIn;
    LogEndsGood(os.start, os.log, os.w);
    ghost var log, before := os.log, os.w;
    var r := os.Mkdir();
    QuietIsGood(OpMkdir, r, before, os.w);
    Extend(os.start, log, Event(OpMkdir, r, before, os.w));
    ok := r == Done;
  }

  /** `EnsureDataDirectory`. */
  method EnsureDataDirectory(os: Os) returns (ok: bool)
    requires os.Good()
    modifies os
    ensures os.Good() && old(os.log) <= os.log
    ensures os.w == old(os.w).(dir := os.w.dir)
    ensures ok ==> os.w.dir == Directory
    ensures old(os.w.dir) == OtherKind ==> !ok
    ensures os.Failures() == old(os.Failures()).Plus(Other, os.Failures() != old(os.Failures()))
    ensures ok <==> os.Failures() == old(os.Failures()) && old(os.w.dir) != OtherKind
    ensures |os.log| > |old(os.log)| && os.log[|old(os.log)|].op == OpInspect
    ensures ok ==>
      |os.log| > |old(os.log)| + 1 && os.log[|os.log| - 1].op == OpSecure && os.log[|os.log| - 1].result == Done
    ensures os.Seen() == old(os.Seen())
  {
    hide GoodLog, TallyOf, SeenIn;
    var inspected := Look(os, OpInspect);
    if !inspected || os.w.dir == OtherKind {
      return false;
    }
    if os.w.dir == Missing {
      var made := MakeDirectory(os);
      if !made {
        return false;
      }
    }
    ok := Look(os, OpSecure);
  }

  /** `RunMkswap`. */
  method RunMkswap(os: Os) returns (ok: bool)
    requires os.Good() && os.w.swap == None && os.w.file.Some?
    modifies os
    ensures os.Good() && old(os.log) <= os.log && os.w.file.Some?
    ensures os.w == old(os.w).(file := Some(old(os.w.file.value).(signed := os.w.file.value.signed)))
    ensures ok ==> os.w.file.value.signed
    ensures |os.log| == |old(os.log)| + 1 && os.log[|old(os.log)|].op == OpFormat
    ensures ok <==> os.log[|old(os.log)|].result == Done
    ensures os.Failures() == old(os.Failures()).Plus(Formatting, !ok)
    ensures os.Seen() == old(os.Seen())
  {
    hide GoodLog, GoodEvent, Inv, TallyOf, SeenIn;
    LogEndsGood(os.start, os.log, os.w);
    ghost var log, before := os.log, os.w;
    var r := os.Mkswap();
    FormatIsGood(before, os.w, r);
    Extend(os.start, log, Event(OpFormat, r, before, os.w));
    ok := r == Done;
  }

  method ActivateSwap(os: Os) returns (ok: bool)
    requires os.Good() && os.w.swap == None && os.w.file.Some? && Full(os.w.file.value.blocks)
    requires os.w.file.value.regular && os.w.file.value.signed
    modifies os
    ensures os.Good() && old(os.log) <= os.log
    ensures os.w == old(os.w).(swap := os.w.swap) && (ok <==> os.w.swap.Some?)
    ensures os.Failures() == old(os.Failures()).Plus(SwappingOn, !ok)
    ensures os.Seen() ==
      if ok then old(os.Seen()).(swaps := old(os.Seen()).swaps + [os.w.swap.value]) else old(os.Seen())
  {
    hide GoodLog, GoodEvent, Inv, Full, TallyOf, SeenIn;
    LogEndsGood(os.start, os.log, os.w);
    ghost var log, before := os.log, os.w;
    var r := os.SwapOn();
    SwapOnIsGood(before, os.w, r);
    Extend(os.start, log, Event(OpSwapOn, r, before, os.w));
    ok := r == Done;
  }

  /** `FindRamPlusSwap`: the first entry with the swapfile's path. */
  method FindRamPlusSwap(os: Os) returns (swap: Option<Swap>)
    requires os.Good()
    modifies os
    ensures os.Good() && old(os.log) <= os.log && os.w == old(os.w)
    ensures os.Failures() == old(os.Failures()).Plus(Reading, os.Failures() != old(os.Failures()))
    ensures swap == if os.Failures() == old(os.Failures()) then os.w.swap else None
    ensures os.Seen().swaps == old(os.Seen()).swaps
    ensures old(os.Seen()).polls <= os.Seen().polls && |os.Seen().polls| == |old(os.Seen()).polls| + 1
  {
    hide GoodLog, TallyOf, SeenIn;
    var entries := ReadSwapEntries(os);
    if entries == None {
      return None;
    }
    var i := 0;
    while i < |entries.value|
      invariant i <= |entries.value|
      invariant forall k :: 0 <= k < i ==> entries.value[k].path != SWAP_PATH
    {
      var e := entries.value[i];
      if e.path == SWAP_PATH {
        return Some(Swap(e.sizeKb, e.priority));
      }
      i := i + 1;
    }
    swap := None;
  }

  /** `Fail`. */
  method Fail(os: Os, status: string) returns (exit: int, published: bool)
    requires os.Good()
    modifies os
    ensures os.Good() && old(os.log) <= os.log && OnlyProperties(old(os.w), os.w)
    ensures exit == 1 && (published ==> os.w.activeKb == 0 && os.w.status == status)
    ensures os.Failures() == old(os.Failures()).(publishing := os.Failures().publishing)
    ensures os.Failures().publishing >= old(os.Failures()).publishing + if published then 0 else 1
    ensures published ==> os.Failures() == old(os.Failures())
    ensures os.Seen() == old(os.Seen())
  {
    hide GoodLog, TallyOf, SeenIn;
    published := PublishStatus(os, 0, status);
    exit := 1;
  }

  /** Both tallies agree but for attempts to publish and to clean up. */
  predicate OnlyCleanup(before: Tally, after: Tally) {
    && after == before.(publishing := after.publishing, unlinking := after.unlinking,
                        swappingOff := after.swappingOff)
    && after.publishing >= before.publishing && after.unlinking >= before.unlinking
    && after.swappingOff >= before.swappingOff
  }

  // ------------------------------------------------------------------ the whole run

  datatype Outcome =
    | Refused(reason: string)    // nothing attempted
    | SwapOffFailed              // the swap could not be turned off first
    | Disabled                   // size 0: swap off, file removed
    | Abandoned                  // swap off, file left as it was
    | Unprepared(gone: bool, reason: string)  // failed from the preparation of the file on
    | Active(swap: Swap)
    | StuckActive                // failed after activation and could not be undone

  /** The size the kernel reports is at most the requested one and at most 1 MiB below it. */
  predicate SizeFits(swap: Swap, requestedMib: nat) {
    swap.sizeKb <= KB_PER_MIB * requestedMib <= swap.sizeKb + SWAP_SIZE_TOLERANCE_KB
  }

  predicate Activated(w: World, requestedMib: nat, swap: Swap, snapshot: seq<SwapEntry>) {
    && w.swap == Some(swap) && w.file.Some? && Full(w.file.value.blocks)
    && BLOCK_BYTES * |w.file.value.blocks| == requestedMib * MIB_BYTES
    && SizeFits(swap, requestedMib)
    && (forall i :: 0 <= i < |snapshot| && IsZram(snapshot[i]) ==> swap.priority < snapshot[i].priority)
  }

  /** What each outcome says about the exit code and the world. */
  predicate Ends(o: Outcome, before: World, after: World, exit: int, requestedMib: nat, snapshot: seq<SwapEntry>) {
    match o
    case Refused(_) => exit == 1 && OnlyProperties(before, after)
    case SwapOffFailed => exit == 1 && OnlyProperties(before, after)
    case Disabled => after.swap == None && after.file == None
    case Abandoned => exit == 1 && after.swap == None && after.file == before.file
    case Unprepared(gone, _) => exit == 1 && after.swap == None && (gone ==> after.file == None)
    case Active(swap) =>
      && exit == 0 && Activated(after, requestedMib, swap, snapshot)
      && after.activeKb == swap.sizeKb && after.status == "active"
    case StuckActive => exit == 1 && after.swap.Some?
  }

  /** What the properties say when the last attempt to set them succeeded. */
  predicate PublishedTruth(o: Outcome, after: World) {
    && (o.Active? || o.StuckActive? || after.activeKb == 0)
    && after.status ==
       match o
       case Refused(reason) => reason
       case SwapOffFailed => "swapoff_failed"
       case Disabled => "disabled"
       case Abandoned => "file_error"
       case Unprepared(gone, reason) => if gone then reason else "file_error"
       case Active(_) => "active"
       case StuckActive => "swapoff_failed"
  }

  // ------------------------------------------------------------------ who is to blame

  /** After a failure from the preparation of the file on: the file is gone and
      the swap off, unless an `unlink` or a `swapoff` failed meanwhile. */
  predicate CleanedUp(after: World, exit: int, was: Tally, now: Tally) {
    exit != 0 && now.unlinking == was.unlinking && now.swappingOff == was.swappingOff ==>
      after.file == None && after.swap == None
  }

  /** The outcomes that leave something behind, and the calls that failed. */
  predicate Blamed(o: Outcome, published: bool, sizeZero: bool, was: Tally, now: Tally) {
    && (o.SwapOffFailed? || o.StuckActive? <==> now.swappingOff > was.swappingOff)
    && ((o.Unprepared? && !o.gone) || (o.Abandoned? && sizeZero) <==> now.unlinking > was.unlinking)
    && (!published ==> now.publishing > was.publishing)
  }

  /** The reason for undoing an activation. */
  function UndoReason(unread: bool, swap: Swap, requestedMib: nat, zramPriority: int): string {
    if unread || !SizeFits(swap, requestedMib) then "verification_failed"
    else if swap.priority >= zramPriority then "priority_error"
    else "activation_failed"
  }

  lemma UndoReasonMeaning(unread: bool, swap: Swap, requestedMib: nat, zramPriority: int)
    ensures var reason := UndoReason(unread, swap, requestedMib, zramPriority);
            var fits := swap.sizeKb <= 1024 * requestedMib && 1024 * requestedMib - swap.sizeKb <= 1024;
            && (reason == "verification_failed" <==> unread || !fits)
            && (reason == "priority_error" <==> !unread && fits && swap.priority >= zramPriority)
            && (reason == "activation_failed" <==> !unread && fits && swap.priority < zramPriority)
  {
  }

  /** The cause of every reason given: the call that failed, or the file, the free
      space or the activated swap that explains it. */
  predicate Caused(reason: string, before: World, requestedMib: nat, zramPriority: int, activated: Option<Swap>,
                   was: Tally, now: Tally) {
    var verdict := Verdict(before, requestedMib * MIB_BYTES);
    match activated
    case None =>
      && now.reading == was.reading
      && (reason == "format_failed" <==> now.formatting > was.formatting)
      && (reason == "allocation_failed" <==> now.allocating > was.allocating)
      && (reason == "activation_failed" <==> now.swappingOn > was.swappingOn)
      && (reason == "file_error" <==> now.other > was.other || verdict == FileError)
      && (reason == "insufficient_space" <==> now.other == was.other && verdict == InsufficientSpace)
      && reason != "verification_failed" && reason != "priority_error"
    case Some(swap) =>
      && verdict == Ok
      && reason == UndoReason(now.reading > was.reading, swap, requestedMib, zramPriority)
      && (reason == "activation_failed" ==> now.publishing > was.publishing)
      && now.formatting == was.formatting && now.allocating == was.allocating
      && now.swappingOn == was.swappingOn && now.other == was.other
  }

  /** How an outcome comes about, and which swap was activated on the way. */
  predicate Explained(o: Outcome, published: bool, before: World, after: World, requestedMib: nat,
                      zramPriority: int, activated: Option<Swap>, was: Tally, now: Tally) {
    match o
    case Unprepared(_, reason) => Caused(reason, before, requestedMib, zramPriority, activated, was, now)
    case Active(swap) => activated == Some(swap)
    case StuckActive =>
      && activated.Some? && after.swap == activated
      && (published ==>
            after.activeKb ==
            if now.reading > was.reading then KB_PER_MIB * requestedMib else activated.value.sizeKb)
    case Abandoned => activated == None && (now.other > was.other || before.dir == OtherKind)
    case _ => activated == None
  }

  // ---------------------------------------------------------- runs without a fault

  /** How the checks after `swapon` end when no call fails. */
  function Checked(swap: Swap, requestedMib: nat, zramPriority: int): Outcome {
    if !SizeFits(swap, requestedMib) then Unprepared(true, "verification_failed")
    else if swap.priority >= zramPriority then Unprepared(true, "priority_error")
    else Active(swap)
  }

  /** The swap stays exactly when it is at most the requested size, at most 1 MiB
      smaller, and below every zram device in priority. */
  lemma CheckedMeaning(swap: Swap, requestedMib: nat, zramPriority: int)
    ensures var o := Checked(swap, requestedMib, zramPriority);
            var fits := swap.sizeKb <= 1024 * requestedMib && 1024 * requestedMib - swap.sizeKb <= 1024;
            && (o == Active(swap) <==> fits && swap.priority < zramPriority)
            && (o == Unprepared(true, "priority_error") <==> fits && swap.priority >= zramPriority)
            && (o == Unprepared(true, "verification_failed") <==> !fits)
  {
  }

  /** How a run that reaches the file ends when no call fails: no write runs out
      of space, nothing remains half done, the file is activated, and the size
      and the priority of that swap decide whether it stays. */
  predicate FlawlessFile(o: Outcome, before: World, requestedMib: nat, zramPriority: int, activated: Option<Swap>) {
    var verdict := Verdict(before, requestedMib * MIB_BYTES);
    if verdict != Ok then o == Unprepared(true, StatusOf(verdict)) && activated == None
    else activated.Some? && o == Checked(activated.value, requestedMib, zramPriority)
  }

  predicate FlawlessSwap(o: Outcome, before: World, requestedMib: nat, zramPriority: int, activated: Option<Swap>) {
    if before.dir == OtherKind then o == Abandoned
    else FlawlessFile(o, before, requestedMib, zramPriority, activated)
  }

  /** Why a run ends before it touches the swap, if it does. */
  function Refusal(supported: bool, requested: Option<nat>, encrypted: bool, polls: seq<Poll>): Option<string> {
    if !supported then Some("unsupported")
    else if requested == None || !IsAllowedSize(requested.value) then Some("invalid_size")
    else if requested.value == 0 then None
    else if !encrypted then Some("encryption_required")
    else if NeverReady(polls) then Some("zram_not_ready")
    else None
  }

  /** Which runs are refused, in terms of what they are given and find. */
  lemma RefusalMeaning(supported: bool, requested: Option<nat>, encrypted: bool, polls: seq<Poll>)
    ensures var r := Refusal(supported, requested, encrypted, polls);
            var valid := requested.Some? && requested.value in {0, 2048, 4096, 6144, 8192};
            var wanted := supported && valid && requested.value != 0;
            && (r == Some("unsupported") <==> !supported)
            && (r == Some("invalid_size") <==> supported && !valid)
            && (r == Some("encryption_required") <==> wanted && !encrypted)
            && (r == Some("zram_not_ready") <==> wanted && encrypted && NeverReady(polls))
            && (r == None <==>
                  supported && valid && (requested.value == 0 || (encrypted && !NeverReady(polls))))
  {
    hide NeverReady;
  }

  /** What a run learns: the lists it waited on, the lowest zram priority in the
      last of them, and the swap the kernel made of the file, if it did. */
  datatype Findings = Findings(polls: seq<Poll>, zramPriority: int, activated: Option<Swap>)

  /** The findings are what the recorded calls of the run handed out. */
  predicate Found(f: Findings, was: Seen, now: Seen) {
    && was.polls + f.polls <= now.polls
    && now.swaps == was.swaps + Listed(f.activated)
    && (f.polls != [] && !NeverReady(f.polls) ==> LowestZram(Snapshot(f.polls), f.zramPriority))
  }

  function Listed(swap: Option<Swap>): seq<Swap> {
    if swap.Some? then [swap.value] else []
  }

  /** How a run that is not refused ends when no call but a poll fails. */
  predicate FlawlessRun(o: Outcome, before: World, requestedMib: nat, f: Findings) {
    if requestedMib == 0 then o == Disabled
    else FlawlessSwap(o, before, requestedMib, f.zramPriority, f.activated)
  }

  lemma ZramSeen(polls: seq<Poll>, p: int)
    requires polls != [] && LowestZram(Snapshot(polls), p)
    ensures !NeverReady(polls)
  {
    assert !NotReady(polls[|polls| - 1]);
  }

  /** `FailPreparedSwap`: the file is gone unless this very `unlink` failed. */
  method FailPreparedSwap(os: Os, status: string) returns (exit: int, published: bool, o: Outcome)
    requires os.Good() && os.w.swap == None
    modifies os
    ensures os.Good() && old(os.log) <= os.log && os.w.swap == None && exit == 1
    ensures o.Unprepared? && o.reason == status
    ensures if o.gone then os.w.file == None else OnlyProperties(old(os.w), os.w)
    ensures published ==> PublishedTruth(o, os.w)
    ensures OnlyCleanup(old(os.Failures()), os.Failures())
    ensures os.Failures().swappingOff == old(os.Failures()).swappingOff
    ensures Blamed(o, published, false, old(os.Failures()), os.Failures())
    ensures CleanedUp(os.w, exit, old(os.Failures()), os.Failures())
    ensures published ==> os.Failures().publishing == old(os.Failures()).publishing
    ensures os.Seen() == old(os.Seen())
  {
    hide GoodLog, TallyOf, SeenIn;
    var gone := RemoveSwapFile(os);
    if gone {
      exit, published := Fail(os, status);
    } else {
      exit, published := Fail(os, "file_error");
    }
    o := Unprepared(gone, status);
  }

  /** `FailActiveSwap`. */
  method FailActiveSwap(os: Os, activeKb: nat, status: string)
    returns (exit: int, published: bool, o: Outcome)
    requires os.Good() && os.w.swap.Some?
    modifies os
    ensures os.Good() && old(os.log) <= os.log && exit == 1
    ensures (o == StuckActive && OnlyProperties(old(os.w), os.w)) ||
            (o.Unprepared? && o.reason == status && os.w.swap == None && (o.gone ==> os.w.file == None))
    ensures published ==> PublishedTruth(o, os.w) && (o.StuckActive? ==> os.w.activeKb == activeKb)
    ensures OnlyCleanup(old(os.Failures()), os.Failures())
    ensures Blamed(o, published, false, old(os.Failures()), os.Failures())
    ensures CleanedUp(os.w, exit, old(os.Failures()), os.Failures())
    ensures published ==> os.Failures().publishing == old(os.Failures()).publishing
    ensures os.Seen() == old(os.Seen())
  {
    hide GoodLog, TallyOf, SeenIn;
    var disabled := DisableSwap(os);
    if !disabled {
      published := PublishStatus(os, activeKb, "swapoff_failed");
      return 1, published, StuckActive;
    }
    exit, published, o := FailPreparedSwap(os, status);
  }

  predicate IsAllowedSize(mib: nat) {
    mib == 0 || mib == 2048 || mib == 4096 || mib == 6144 || mib == 8192
  }

  function StatusOf(r: PrepareResult): string
    requires r != Ok
  {
    match r
    case InsufficientSpace => "insufficient_space"
    case FileError => "file_error"
    case AllocationError => "allocation_failed"
  }

  lemma PriorityBelow(swap: Swap, snapshot: seq<SwapEntry>, p: int)
    requires LowestZram(snapshot, p) && swap.priority < p
    ensures forall i :: 0 <= i < |snapshot| && IsZram(snapshot[i]) ==> swap.priority < snapshot[i].priority
  {
  }

  /** The checks after `swapon`. */
  method VerifyActive(os: Os, requestedMib: nat, zramPriority: int, ghost snapshot: seq<SwapEntry>)
    returns (exit: int, published: bool, o: Outcome)
    requires os.Good() && os.w.swap.Some? && os.w.file.Some? && Full(os.w.file.value.blocks)
    requires BLOCK_BYTES * |os.w.file.value.blocks| == requestedMib * MIB_BYTES
    requires LowestZram(snapshot, zramPriority)
    modifies os
    ensures os.Good() && old(os.log) <= os.log
    ensures Ends(o, old(os.w), os.w, exit, requestedMib, snapshot)
    ensures published ==> PublishedTruth(o, os.w)
    ensures o.Active? || o.StuckActive? || o.Unprepared?
    ensures o.Unprepared? ==>
      o.reason == UndoReason(os.Failures().reading > old(os.Failures()).reading, old(os.w.swap.value),
                             requestedMib, zramPriority)
    ensures o.Unprepared? && o.reason == "activation_failed" ==>
      os.Failures().publishing > old(os.Failures()).publishing
    ensures OnlyCleanup(old(os.Failures()).(reading := os.Failures().reading), os.Failures())
    ensures os.Failures().reading >= old(os.Failures()).reading
    ensures Blamed(o, published, false, old(os.Failures()), os.Failures())
    ensures CleanedUp(os.w, exit, old(os.Failures()), os.Failures())
    ensures os.Failures() == old(os.Failures()) ==>
      published && o == Checked(old(os.w.swap.value), requestedMib, zramPriority)
    ensures o.Active? ==> old(os.w.swap) == Some(o.swap)
    ensures o.StuckActive? ==> os.w.swap == old(os.w.swap)
    ensures o.StuckActive? && published ==>
      os.w.activeKb == if os.Failures().reading > old(os.Failures()).reading
                       then KB_PER_MIB * requestedMib else old(os.w.swap.value).sizeKb
    ensures os.Seen().swaps == old(os.Seen()).swaps && old(os.Seen()).polls <= os.Seen().polls
  {
    hide GoodLog, LowestZram, IsZram, Full, TallyOf, SeenIn;
    var swap := FindRamPlusSwap(os);
    var requestedKb := KB_PER_MIB * requestedMib;
    if swap == None || swap.value.sizeKb > requestedKb
       || requestedKb - swap.value.sizeKb > SWAP_SIZE_TOLERANCE_KB {
      exit, published, o :=
        FailActiveSwap(os, if swap.Some? then swap.value.sizeKb else requestedKb, "verification_failed");
      return;
    }
    if swap.value.priority >= zramPriority {
      exit, published, o := FailActiveSwap(os, swap.value.sizeKb, "priority_error");
      return;
    }
    PriorityBelow(swap.value, snapshot, zramPriority);
    published := PublishStatus(os, swap.value.sizeKb, "active");
    if !published {
      exit, published, o := FailActiveSwap(os, swap.value.sizeKb, "activation_failed");
      return;
    }
    return 0, published, Active(swap.value);
  }

  /** Failures of other kinds before a part of a run do not change whom it blames. */
  lemma BlamedEarlier(o: Outcome, published: bool, w: World, exit: int, was: Tally, mid: Tally, now: Tally)
    requires mid.unlinking == was.unlinking && mid.swappingOff == was.swappingOff
    requires mid.publishing == was.publishing
    requires Blamed(o, published, false, mid, now)
    ensures Blamed(o, published, false, was, now)
    ensures CleanedUp(w, exit, mid, now) ==> CleanedUp(w, exit, was, now)
  {
  }

  /** Why a run did not get as far as an active swap, before it cleans up. */
  predicate Hindered(reason: string, before: World, requestedMib: nat, was: Tally, now: Tally) {
    var verdict := Verdict(before, requestedMib * MIB_BYTES);
    if now == was then verdict != Ok && verdict != AllocationError && reason == StatusOf(verdict)
    else
      || (now == was.Plus(Other, true) && reason == "file_error")
      || (now == was.Plus(Allocating, true) && verdict == Ok && reason == "allocation_failed")
      || (now == was.Plus(Formatting, true) && verdict == Ok && reason == "format_failed")
      || (now == was.Plus(SwappingOn, true) && verdict == Ok && reason == "activation_failed")
  }

  /** What such a failure, followed by the removal of the file, adds up to. */
  lemma HinderedIsCaused(o: Outcome, published: bool, before: World, requestedMib: nat, zramPriority: int,
                         was: Tally, mid: Tally, now: Tally)
    requires o.Unprepared? && Hindered(o.reason, before, requestedMib, was, mid)
    requires OnlyCleanup(mid, now) && Blamed(o, published, false, mid, now)
    ensures Caused(o.reason, before, requestedMib, zramPriority, None, was, now)
    ensures now == was ==> published && FlawlessFile(o, before, requestedMib, zramPriority, None)
    ensures mid.unlinking == was.unlinking && mid.swappingOff == was.swappingOff
    ensures mid.publishing == was.publishing
  {
    hide Verdict;
  }

  lemma ActivationUndone(reason: string, swap: Swap, before: World, requestedMib: nat, zramPriority: int,
                         was: Tally, now: Tally)
    requires Verdict(before, requestedMib * MIB_BYTES) == Ok
    requires reason == UndoReason(now.reading > was.reading, swap, requestedMib, zramPriority)
    requires reason == "activation_failed" ==> now.publishing > was.publishing
    requires now.reading >= was.reading && OnlyCleanup(was.(reading := now.reading), now)
    ensures Caused(reason, before, requestedMib, zramPriority, Some(swap), was, now)
  {
    hide Verdict, UndoReason;
  }

  lemma CheckedIsFlawless(o: Outcome, swap: Swap, zramPriority: int, before: World, requestedMib: nat)
    requires Verdict(before, requestedMib * MIB_BYTES) == Ok && o == Checked(swap, requestedMib, zramPriority)
    ensures FlawlessFile(o, before, requestedMib, zramPriority, Some(swap))
  {
    hide Verdict;
  }

  /** The calls an activation takes, as they stand in the history. */
  lemma CallsMade(ready: seq<Event>, formatted: seq<Event>, log: seq<Event>, since: nat)
    requires ready <= formatted <= log && since + 2 < |ready| < |formatted|
    requires ready[since + 2].op == OpSecure && ready[since + 2].result == Done
    requires ready[|ready| - 1].op == OpSync && ready[|ready| - 1].result == Done
    requires formatted[|ready|].op == OpFormat && formatted[|ready|].result == Done
    ensures Did(log, since, OpSecure) && Did(log, since, OpSync) && Did(log, since, OpFormat)
  {
    assert log[since + 2].op == OpSecure && log[|ready| - 1].op == OpSync && log[|ready|].op == OpFormat;
  }

  /** The file prepared, formatted and activated; or the status to fail with. */
  method MakeSwap(os: Os, requestedMib: nat) returns (failure: Option<string>)
    requires os.Good() && os.w.swap == None && os.w.dir == Directory
    modifies os
    ensures os.Good() && old(os.log) <= os.log
    ensures |os.log| > |old(os.log)| && os.log[|old(os.log)|].op == OpOpen
    ensures failure.Some? ==>
      && os.w.swap == None && os.Seen() == old(os.Seen())
      && Hindered(failure.value, old(os.w), requestedMib, old(os.Failures()), os.Failures())
    ensures failure == None ==>
      && os.w.swap.Some? && os.w.file.Some? && Full(os.w.file.value.blocks)
      && BLOCK_BYTES * |os.w.file.value.blocks| == requestedMib * MIB_BYTES
      && Verdict(old(os.w), requestedMib * MIB_BYTES) == Ok
      && os.Failures() == old(os.Failures())
      && os.Seen() == old(os.Seen()).(swaps := old(os.Seen()).swaps + [os.w.swap.value])
      && Did(os.log, |old(os.log)|, OpSecure) && Did(os.log, |old(os.log)|, OpSync)
      && Did(os.log, |old(os.log)|, OpFormat)
  {
    hide GoodLog, Full, Count, TallyOf, SeenIn, Prepared, Verdict, Did, WritesFrom, WriteStart;
    var prepared := PrepareSwapFile(os, requestedMib * MIB_BYTES);
    if prepared != Ok {
      return Some(StatusOf(prepared));
    }
    ghost var ready := os.log;
    var isFormatted := RunMkswap(os);
    if !isFormatted {
      return Some("format_failed");
    }
    ghost var formatted := os.log;
    var isOn := ActivateSwap(os);
    if !isOn {
      return Some("activation_failed");
    }
    CallsMade(ready, formatted, os.log, |old(os.log)|);
    failure := None;
  }

  /** From the preparation of the file to the end, with the swap inactive. */
  method PrepareAndActivate(os: Os, requestedMib: nat, zramPriority: int, ghost snapshot: seq<SwapEntry>)
    returns (exit: int, published: bool, o: Outcome, ghost activated: Option<Swap>)
    requires os.Good() && os.w.swap == None && os.w.dir == Directory && LowestZram(snapshot, zramPriority)
    modifies os
    ensures os.Good() && old(os.log) <= os.log
    ensures Ends(o, old(os.w), os.w, exit, requestedMib, snapshot)
    ensures published ==> PublishedTruth(o, os.w)
    ensures o.Active? || o.StuckActive? || o.Unprepared?
    ensures Blamed(o, published, false, old(os.Failures()), os.Failures())
    ensures CleanedUp(os.w, exit, old(os.Failures()), os.Failures())
    ensures Explained(o, published, old(os.w), os.w, requestedMib, zramPriority, activated,
                      old(os.Failures()), os.Failures())
    ensures |os.log| > |old(os.log)| && os.log[|old(os.log)|].op == OpOpen
    ensures activated.Some? ==>
      && Did(os.log, |old(os.log)|, OpSecure) && Did(os.log, |old(os.log)|, OpSync)
      && Did(os.log, |old(os.log)|, OpFormat)
    ensures os.Failures() == old(os.Failures()) ==>
      published && FlawlessFile(o, old(os.w), requestedMib, zramPriority, activated)
    ensures os.Seen().swaps == old(os.Seen()).swaps + Listed(activated)
    ensures old(os.Seen()).polls <= os.Seen().polls
  {
    hide GoodLog, LowestZram, IsZram, Full, TallyOf, SeenIn, Verdict, Hindered, Did;
    hide PublishedTruth, Blamed, CleanedUp, Caused, UndoReason, FlawlessFile, Checked, Activated, OnlyCleanup;
    ghost var before, was := os.w, os.Failures();
    activated := None;
    var failure := MakeSwap(os, requestedMib);
    if failure.Some? {
      ghost var mid := os.Failures();
      exit, published, o := FailPreparedSwap(os, failure.value);
      HinderedIsCaused(o, published, before, requestedMib, zramPriority, was, mid, os.Failures());
      BlamedEarlier(o, published, os.w, exit, was, mid, os.Failures());
      return;
    }
    ghost var made := os.log;
    activated := os.w.swap;
    exit, published, o := VerifyActive(os, requestedMib, zramPriority, snapshot);
    StillDid(made, os.log, |old(os.log)|, |old(os.log)|, OpSecure);
    StillDid(made, os.log, |old(os.log)|, |old(os.log)|, OpSync);
    StillDid(made, os.log, |old(os.log)|, |old(os.log)|, OpFormat);
    if o.Unprepared? {
      ActivationUndone(o.reason, activated.value, before, requestedMib, zramPriority, was, os.Failures());
    }
    if os.Failures() == was {
      CheckedIsFlawless(o, activated.value, zramPriority, before, requestedMib);
    }
  }

  /** The tally of a run in which only polls failed. */
  function OnlyPolls(t: Tally, polls: seq<Poll>): Tally {
    t.(reading := t.reading + Unread(polls))
  }

  /** The published size is positive just when a swap is active, but for runs
      that leave an earlier swap active. */
  lemma ReportedSize(o: Outcome, before: World, after: World, exit: int, requestedMib: nat, snapshot: seq<SwapEntry>)
    requires Ends(o, before, after, exit, requestedMib, snapshot) && PublishedTruth(o, after)
    requires !o.StuckActive? && (o.Active? ==> requestedMib >= 2048)
    ensures (after.activeKb > 0 <==> after.swap.Some?) <==>
            !(before.swap.Some? && (o.Refused? || o.SwapOffFailed?))
  {
    hide Full, IsZram;
  }

  /** A refusal: only the properties may change. */
  method Refuse(os: Os, reason: string) returns (exit: int, published: bool, o: Outcome)
    requires os.Good()
    modifies os
    ensures os.Good() && old(os.log) <= os.log
    ensures o == Refused(reason) && exit == 1 && OnlyProperties(old(os.w), os.w)
    ensures published ==> PublishedTruth(o, os.w)
    ensures Blamed(o, published, false, old(os.Failures()), os.Failures())
    ensures Blamed(o, published, true, old(os.Failures()), os.Failures())
    ensures OnlyCleanup(old(os.Failures()), os.Failures())
    ensures os.Failures() == old(os.Failures()) ==> published
    ensures os.Seen() == old(os.Seen())
  {
    hide GoodLog, TallyOf, SeenIn;
    exit, published := Fail(os, reason);
    o := Refused(reason);
  }

  /** The verdict depends on the file and the free space alone. */
  lemma SameFile(o: Outcome, before: World, ready: World, requestedMib: nat, zramPriority: int,
                 activated: Option<Swap>, was: Tally, now: Tally)
    requires ready.file == before.file && ready.free == before.free
    ensures o.Unprepared? && Caused(o.reason, ready, requestedMib, zramPriority, activated, was, now) ==>
              Caused(o.reason, before, requestedMib, zramPriority, activated, was, now)
    ensures FlawlessFile(o, ready, requestedMib, zramPriority, activated) ==>
              FlawlessFile(o, before, requestedMib, zramPriority, activated)
  {
    hide Count, UndoReason, Checked;
    assert Verdict(ready, requestedMib * MIB_BYTES) == Verdict(before, requestedMib * MIB_BYTES);
  }

  /** A run that makes no call but to publish finds nothing. */
  lemma NothingFound(seen: Seen)
    ensures Found(Findings([], 0, None), seen, seen)
  {
  }

  /** `main`.  The properties it reads are parameters; a size that does not parse
      is `None`.  `f` is what the run learns from the calls it makes.  Whatever
      they do, the history is good, the outcome says how the run ended and has
      its cause, and a call of this run that failed is to blame for everything
      left behind or unpublished. */
  method Setup(os: Os, supported: bool, requested: Option<nat>, encrypted: bool)
    returns (exit: int, published: bool, o: Outcome, ghost f: Findings)
    requires os.Good()
    modifies os
    ensures os.Good() && old(os.log) <= os.log
    ensures Found(f, old(os.Seen()), os.Seen())
    ensures Ends(o, old(os.w), os.w, exit, if requested.Some? then requested.value else 0, Snapshot(f.polls))
    ensures published ==> PublishedTruth(o, os.w)
    // which runs are refused
    ensures match Refusal(supported, requested, encrypted, f.polls)
            case Some(reason) => o == Refused(reason)
            case None => !o.Refused?
    ensures !o.Refused? && requested != Some(0) ==>
      supported && encrypted && requested.Some? && requested.value in {2048, 4096, 6144, 8192}
    ensures o == Disabled ==> supported && requested == Some(0)
    ensures supported && requested == Some(0) ==> o in {SwapOffFailed, Disabled, Abandoned} && f.activated == None
    ensures o == Refused("zram_not_ready") ==> |f.polls| == ZRAM_POLL_ATTEMPTS
    ensures o == Disabled ==> (exit == 0 <==> published)
    // what is left behind, and why
    ensures Blamed(o, published, requested == Some(0), old(os.Failures()), os.Failures())
    ensures requested != Some(0) ==>
      Explained(o, published, old(os.w), os.w, if requested.Some? then requested.value else 0, f.zramPriority,
                f.activated, OnlyPolls(old(os.Failures()), f.polls), os.Failures())
    ensures o.Unprepared? || o.StuckActive? ==> CleanedUp(os.w, exit, old(os.Failures()), os.Failures())
    // which calls an activation takes
    ensures o.Active? || o.StuckActive? || o.Unprepared? ==> OpenedInSecured(os.log, |old(os.log)|)
    ensures f.activated.Some? ==>
      && Did(os.log, |old(os.log)|, OpSecure) && Did(os.log, |old(os.log)|, OpSync)
      && Did(os.log, |old(os.log)|, OpFormat)
    // runs in which no call but a poll fails
    ensures os.Failures() == OnlyPolls(old(os.Failures()), f.polls) ==>
      published && (o.Refused? || FlawlessRun(o, old(os.w), requested.value, f))
    ensures os.Failures() == OnlyPolls(old(os.Failures()), f.polls) ==>
      ((os.w.activeKb > 0 <==> os.w.swap.Some?) <==>
         !(old(os.w.swap).Some? && Refusal(supported, requested, encrypted, f.polls).Some?))
    ensures published && !o.StuckActive? ==>
      ((os.w.activeKb > 0 <==> os.w.swap.Some?) <==>
         !(old(os.w.swap).Some? && (o.Refused? || o.SwapOffFailed?)))
  {
    f := Findings([], 0, None);
    assert Unread([]) == 0;
    hide GoodLog, LowestZram, IsZram, Full, Count, NeverReady, FlawlessSwap, TallyOf, SeenIn, Unread, Caused;
    hide PublishedTruth, Activated, CleanedUp, Did, OpenedInSecured, Found;
    NothingFound(os.Seen());
    ghost var before := os.w;
    if !supported {
      exit, published, o := Refuse(os, "unsupported");
    } else if requested == None || !IsAllowedSize(requested.value) {
      exit, published, o := Refuse(os, "invalid_size");
    } else if requested.value == 0 {
      exit, published, o := Disable(os);
    } else if !encrypted {
      exit, published, o := Refuse(os, "encryption_required");
    } else {
      exit, published, o, f := Arrange(os, requested.value);
    }
    if published && !o.StuckActive? {
      ReportedSize(o, before, os.w, exit, if requested.Some? then requested.value else 0, Snapshot(f.polls));
    }
  }

  /** `main` once it knows that a swap of an allowed size is wanted. */
  method Arrange(os: Os, requestedMib: nat)
    returns (exit: int, published: bool, o: Outcome, ghost f: Findings)
    requires os.Good()
    modifies os
    ensures os.Good() && old(os.log) <= os.log
    ensures f.polls != [] && Found(f, old(os.Seen()), os.Seen())
    ensures Ends(o, old(os.w), os.w, exit, requestedMib, Snapshot(f.polls))
    ensures published ==> PublishedTruth(o, os.w)
    ensures !o.Disabled?
    ensures if NeverReady(f.polls) then o == Refused("zram_not_ready") && |f.polls| == ZRAM_POLL_ATTEMPTS
            else !o.Refused?
    ensures Blamed(o, published, false, old(os.Failures()), os.Failures())
    ensures Explained(o, published, old(os.w), os.w, requestedMib, f.zramPriority, f.activated,
                      OnlyPolls(old(os.Failures()), f.polls), os.Failures())
    ensures o.Unprepared? || o.StuckActive? ==> CleanedUp(os.w, exit, old(os.Failures()), os.Failures())
    ensures o.Active? || o.StuckActive? || o.Unprepared? ==> OpenedInSecured(os.log, |old(os.log)|)
    ensures f.activated.Some? ==>
      && Did(os.log, |old(os.log)|, OpSecure) && Did(os.log, |old(os.log)|, OpSync)
      && Did(os.log, |old(os.log)|, OpFormat)
    ensures os.Failures() == OnlyPolls(old(os.Failures()), f.polls) ==>
      published && (o.Refused? || FlawlessSwap(o, old(os.w), requestedMib, f.zramPriority, f.activated))
  {
    hide GoodLog, LowestZram, IsZram, Full, Count, NeverReady, FlawlessSwap, TallyOf, SeenIn, Unread, Caused;
    hide PublishedTruth, Activated, Did, OpenedInSecured;
    var zramPriority;
    ghost var polls, activated;
    zramPriority, polls := WaitForZramPriority(os);
    if zramPriority == None {
      exit, published, o := Refuse(os, "zram_not_ready");
      f := Findings(polls, 0, None);
      return;
    }
    ZramSeen(polls, zramPriority.value);
    ghost var since := |os.log|;
    exit, published, o, activated := Replace(os, requestedMib, zramPriority.value, Snapshot(polls));
    StillDid(os.log, os.log, since, |old(os.log)|, OpSecure);
    StillDid(os.log, os.log, since, |old(os.log)|, OpSync);
    StillDid(os.log, os.log, since, |old(os.log)|, OpFormat);
    f := Findings(polls, zramPriority.value, activated);
  }

  /** The calls of the last part of a run, seen from an earlier point. */
  lemma ReadyBefore(log: seq<Event>, log': seq<Event>, earlier: nat)
    requires log <= log' && earlier < |log| < |log'|
    requires log[|log| - 1].op == OpSecure && log[|log| - 1].result == Done && log'[|log|].op == OpOpen
    ensures OpenedInSecured(log', earlier)
    ensures Did(log', |log|, OpSecure) ==> Did(log', earlier, OpSecure)
    ensures Did(log', |log|, OpSync) ==> Did(log', earlier, OpSync)
    ensures Did(log', |log|, OpFormat) ==> Did(log', earlier, OpFormat)
  {
    assert log'[|log| - 1] == log[|log| - 1];
    StillDid(log', log', |log|, earlier, OpSecure);
    StillDid(log', log', |log|, earlier, OpSync);
    StillDid(log', log', |log|, earlier, OpFormat);
  }

  /** `main` from the first `swapoff` on. */
  method Replace(os: Os, requestedMib: nat, zramPriority: int, ghost snapshot: seq<SwapEntry>)
    returns (exit: int, published: bool, o: Outcome, ghost activated: Option<Swap>)
    requires os.Good() && LowestZram(snapshot, zramPriority)
    modifies os
    ensures os.Good() && old(os.log) <= os.log
    ensures Ends(o, old(os.w), os.w, exit, requestedMib, snapshot)
    ensures published ==> PublishedTruth(o, os.w)
    ensures !o.Refused? && !o.Disabled?
    ensures Blamed(o, published, false, old(os.Failures()), os.Failures())
    ensures Explained(o, published, old(os.w), os.w, requestedMib, zramPriority, activated,
                      old(os.Failures()), os.Failures())
    ensures o.Unprepared? || o.StuckActive? ==> CleanedUp(os.w, exit, old(os.Failures()), os.Failures())
    ensures o.Active? || o.StuckActive? || o.Unprepared? ==> OpenedInSecured(os.log, |old(os.log)|)
    ensures activated.Some? ==>
      && Did(os.log, |old(os.log)|, OpSecure) && Did(os.log, |old(os.log)|, OpSync)
      && Did(os.log, |old(os.log)|, OpFormat)
    ensures os.Failures() == old(os.Failures()) ==>
      published && FlawlessSwap(o, old(os.w), requestedMib, zramPriority, activated)
    ensures os.Seen().swaps == old(os.Seen()).swaps + Listed(activated)
    ensures old(os.Seen()).polls <= os.Seen().polls
  {
    hide GoodLog, LowestZram, IsZram, Full, TallyOf, SeenIn, Caused, FlawlessFile, Verdict, Activated, Did, OpenedInSecured;
    ghost var before, was := os.w, os.Failures();
    activated := None;
    var disabled := DisableSwap(os);
    if !disabled {
      exit, published := Fail(os, "swapoff_failed");
      o := SwapOffFailed;
      return;
    }
    var ensured := EnsureDataDirectory(os);
    if !ensured {
      exit, published := Fail(os, "file_error");
      o := Abandoned;
      return;
    }
    ghost var ready := os.w;
    ghost var log := os.log;
    exit, published, o, activated := PrepareAndActivate(os, requestedMib, zramPriority, snapshot);
    ReadyBefore(log, os.log, |old(os.log)|);
    SameFile(o, before, ready, requestedMib, zramPriority, activated, was, os.Failures());
  }

  /** The branch of `main` for size 0. */
  method Disable(os: Os) returns (exit: int, published: bool, o: Outcome)
    requires os.Good()
    modifies os
    ensures os.Good() && old(os.log) <= os.log
    ensures Ends(o, old(os.w), os.w, exit, 0, [])
    ensures o in {SwapOffFailed, Disabled, Abandoned}
    ensures published ==> PublishedTruth(o, os.w)
    ensures o == Disabled ==> (exit == 0 <==> published)
    ensures Blamed(o, published, true, old(os.Failures()), os.Failures())
    ensures OnlyCleanup(old(os.Failures()), os.Failures())
    ensures os.Failures() == old(os.Failures()) ==> published && o == Disabled
    ensures os.Seen() == old(os.Seen())
  {
    hide GoodLog, TallyOf, SeenIn;
    var disabled := DisableSwap(os);
    if !disabled {
      exit, published := Fail(os, "swapoff_failed");
      return exit, published, SwapOffFailed;
    }
    var removed := RemoveSwapFile(os);
    if !removed {
      exit, published := Fail(os, "file_error");
      return exit, published, Abandoned;
    }
    published := PublishStatus(os, 0, "disabled");
    return if published then 0 else 1, published, Disabled;
  }

  // --------------------------------------------------------------------- many runs

  /** Any number of runs with any parameters: each may be killed between any two
      calls, and the device may reboot, which turns the swap off.  The history
      over all of them stays good, and /data keeps its blocks and its reserve. */
  method Lifetime(os: Os, runs: nat)
    requires os.Good()
    modifies os
    ensures os.Good() && Inv(os.w)
    ensures Total(os.w) == Total(os.start)
    ensures os.start.free * BLOCK_BYTES >= RESERVE_BYTES ==> os.w.free * BLOCK_BYTES >= RESERVE_BYTES
  {
    hide GoodLog, Explained, Blamed, FlawlessRun, Found;
    var run := 0;
    while run < runs
      invariant os.Good()
    {
      var supported, encrypted: bool := *, *;
      var requested: Option<nat> := *;
      var started := |os.log|;
      var exit, published, o, _ := Setup(os, supported, requested, encrypted);
      var killed: bool := *;
      if killed && started < |os.log| {
        var point :| started <= point < |os.log|;
        KilledAt(os.start, os.log, os.w, point);
        os.w, os.log := os.log[point].before, os.log[..point];
      }
      var reboot: bool := *;
      if reboot {
        Reboot(os);
      }
      run := run + 1;
    }
    LogEndsGood(os.start, os.log, os.w);
    SpaceIsSafe(os.start, os.log, os.w);
  }

  method Reboot(os: Os)
    requires os.Good()
    modifies os
    ensures os.Good() && os.w == old(os.w).(swap := None)
  {
    hide GoodLog, GoodEvent, Inv;
    LogEndsGood(os.start, os.log, os.w);
    ghost var log := os.log;
    var before := os.w;
    os.w := os.w.(swap := None);
    os.Record(OpReboot, Done, before);
    QuietIsGood(OpReboot, Done, before, os.w);
    Extend(os.start, log, Event(OpReboot, Done, before, os.w));
  }
}
