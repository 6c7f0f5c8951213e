/** The world of the RAM Plus set-up: the directory, the swapfile, the free
    blocks of /data, the active swap and the published properties; the system
    calls with every outcome they may have; and what each of them must keep. */
module RamPlusWorld {
  import opened Words
  import opened Wrappers
  import opened SwapFile

  const SWAP_PATH: string := "/data/system/axion_ram_plus/swapfile"

  const MIB_BYTES: nat := 1048576
  const BLOCK_BYTES: nat := 4096

  /** `st_blocks` counts in sectors. */
  const SECTOR_BYTES: nat := 512
  const BLOCK_SECTORS: nat := 8

  /** Space left to the rest of /data. */
  const RESERVE_MIB: nat := 4096
  const RESERVE_BYTES: nat := RESERVE_MIB * MIB_BYTES

  datatype DirState = Missing | Directory | OtherKind

  /** `signed`: the first block carries a swap signature. */
  datatype File = File(regular: bool, blocks: Blocks, signed: bool)

  datatype Swap = Swap(sizeKb: nat, priority: int)

  datatype World = World(
    dir: DirState,
    file: Option<File>,
    free: nat,
    swap: Option<Swap>,
    activeKb: nat,
    status: string)

  datatype SwapEntry = SwapEntry(path: string, sizeKb: nat, priority: int)

  /** `OtherError` is any reason the world does not explain. */
  datatype Errno = EINVAL | ENOENT | ENOTDIR | ENOSPC | OtherError

  datatype SysResult = Done | Failed(errno: Errno)

  datatype Stat = Stat(regular: bool, sizeBytes: nat, sectors: nat)

  /** What one reading of `/proc/swaps` tells: nothing if it failed. */
  type Poll = Option<seq<SwapEntry>>

  datatype Op =
    | OpInspect | OpSecure | OpSync | OpReadSwaps(poll: Poll)
    | OpMkdir | OpOpen | OpTruncate | OpWrite(from: nat, count: nat) | OpFormat | OpUnlink
    | OpSwapOn | OpSwapOff | OpProperty | OpReboot

  /** One call, how it ended, and the world on both sides of it. */
  datatype Event = Event(op: Op, result: SysResult, before: World, after: World)

  // ------------------------------------------------------------------ what must hold

  /** In every state, also between two system calls: the allocated blocks of the
      file come first, and an active swapfile exists and has no hole. */
  predicate Inv(w: World) {
    && (w.file.Some? ==> w.dir == Directory && Prefix(w.file.value.blocks))
    && (w.swap.Some? ==>
          w.file.Some? && w.file.value.regular && w.file.value.signed && Full(w.file.value.blocks))
  }

  function Occupied(w: World): nat {
    if w.file.Some? then Count(w.file.value.blocks) else 0
  }

  /** Free and occupied blocks together. */
  function Total(w: World): nat {
    w.free + Occupied(w)
  }

  predicate TouchesFile(op: Op) {
    op.OpTruncate? || op.OpWrite? || op.OpFormat? || op.OpUnlink?
  }

  predicate ReserveKept(before: World, after: World) {
    after.free >= before.free || after.free * BLOCK_BYTES >= RESERVE_BYTES
  }

  /** What every single call keeps. */
  predicate GoodEvent(e: Event) {
    && Inv(e.before) && Inv(e.after)
    && (TouchesFile(e.op) ==> e.before.swap == None)
    && Total(e.before) == Total(e.after)
    && ReserveKept(e.before, e.after)
  }

  /** A history of good calls that leads from `start` to `w`. */
  predicate GoodLog(start: World, log: seq<Event>, w: World)
    decreases |log|
  {
    if log == [] then w == start && Inv(w)
    else
      var last := log[|log| - 1];
      last.after == w && GoodEvent(last) && GoodLog(start, log[..|log| - 1], last.before)
  }

  lemma Extend(start: World, log: seq<Event>, e: Event)
    requires GoodLog(start, log, e.before) && GoodEvent(e)
    ensures GoodLog(start, log + [e], e.after)
    ensures TallyOf(log + [e]) == TallyOf(log).Plus(KindOf(e.op), Fault(e))
    ensures SeenIn(log + [e]) == SeenIn(log).Plus(e)
  {
    hide GoodEvent;
    assert (log + [e])[..|log|] == log;
  }

  /** A history is good up to every point: whatever the program is killed
      between, the state it leaves and the calls before it are good. */
  lemma {:induction false} KilledAt(start: World, log: seq<Event>, w: World, i: nat)
    requires GoodLog(start, log, w) && i < |log|
    ensures GoodLog(start, log[..i], log[i].before) && GoodEvent(log[i])
    decreases |log|
  {
    hide GoodEvent;
    if i < |log| - 1 {
      var init := log[..|log| - 1];
      KilledAt(start, init, log[|log| - 1].before, i);
      assert init[..i] == log[..i];
    }
  }

  lemma LogEndsGood(start: World, log: seq<Event>, w: World)
    requires GoodLog(start, log, w)
    ensures Inv(w)
  {
  }

  /** Over a whole history no block is lost or made, and free space that was
      above the reserve at the start never falls below it. */
  lemma {:induction false} SpaceIsSafe(start: World, log: seq<Event>, w: World)
    requires GoodLog(start, log, w)
    ensures Total(w) == Total(start)
    ensures w.free >= start.free || w.free * BLOCK_BYTES >= RESERVE_BYTES
    decreases |log|
  {
    hide Inv, Total;
    if log != [] {
      var last := log[|log| - 1];
      SpaceIsSafe(start, log[..|log| - 1], last.before);
    }
  }

  // ---------------------------------------------------- what a history says of failures

  datatype Kind = Unlinking | SwappingOff | Publishing | Allocating | Formatting | SwappingOn | Reading | Other

  function KindOf(op: Op): Kind {
    match op
    case OpUnlink => Unlinking
    case OpSwapOff => SwappingOff
    case OpProperty => Publishing
    case OpTruncate | OpWrite(_, _) => Allocating
    case OpFormat => Formatting
    case OpSwapOn => SwappingOn
    case OpReadSwaps(_) => Reading
    case _ => Other
  }

  /** The call failed for a reason of its own. */
  predicate Fault(e: Event) {
    e.result == Failed(OtherError)
  }

  /** How many calls of each kind have failed for a reason of their own. */
  datatype Tally = Tally(
    unlinking: nat,
    swappingOff: nat,
    publishing: nat,
    allocating: nat,
    formatting: nat,
    swappingOn: nat,
    reading: nat,
    other: nat)
  {
    function Of(kind: Kind): nat {
      match kind
      case Unlinking => unlinking
      case SwappingOff => swappingOff
      case Publishing => publishing
      case Allocating => allocating
      case Formatting => formatting
      case SwappingOn => swappingOn
      case Reading => reading
      case Other => other
    }

    function Plus(kind: Kind, failed: bool): Tally {
      if !failed then this else
      match kind
      case Unlinking => this.(unlinking := unlinking + 1)
      case SwappingOff => this.(swappingOff := swappingOff + 1)
      case Publishing => this.(publishing := publishing + 1)
      case Allocating => this.(allocating := allocating + 1)
      case Formatting => this.(formatting := formatting + 1)
      case SwappingOn => this.(swappingOn := swappingOn + 1)
      case Reading => this.(reading := reading + 1)
      case Other => this.(other := other + 1)
    }
  }

  function TallyOf(log: seq<Event>): Tally {
    if log == [] then Tally(0, 0, 0, 0, 0, 0, 0, 0)
    else
      var last := log[|log| - 1];
      TallyOf(log[..|log| - 1]).Plus(KindOf(last.op), Fault(last))
  }

  /** The last call was a successful `fsync`, and nothing changed since. */
  predicate Synced(log: seq<Event>, w: World) {
    log != [] && log[|log| - 1] == Event(OpSync, Done, w, w)
  }

  /** A call of this kind has succeeded since. */
  predicate Did(log: seq<Event>, since: nat, op: Op) {
    exists i :: since <= i < |log| && log[i].op == op && log[i].result == Done
  }

  /** The file was opened right after its directory got its mode. */
  predicate OpenedInSecured(log: seq<Event>, since: nat) {
    exists j :: since < j < |log| && log[j].op == OpOpen
                && log[j - 1].op == OpSecure && log[j - 1].result == Done
  }

  /** The writes since begin at block `at`, none goes before it, and none is longer
      than 4 MiB. */
  predicate WritesFrom(log: seq<Event>, since: nat, at: nat, end: nat) {
    && (forall i :: since <= i < |log| && log[i].op.OpWrite? ==> at <= log[i].op.from && log[i].op.count <= 1024)
    && (at < end ==> exists i :: since <= i < |log| && log[i].op.OpWrite? && log[i].op.from == at)
  }

  /** What has happened stays so in a longer history, and since an earlier point. */
  lemma StillDid(log: seq<Event>, log': seq<Event>, since: nat, earlier: nat, op: Op)
    requires log <= log' && earlier <= since
    ensures Did(log, since, op) ==> Did(log', earlier, op)
    ensures OpenedInSecured(log, since) ==> OpenedInSecured(log', earlier)
  {
    if Did(log, since, op) {
      var i :| since <= i < |log| && log[i].op == op && log[i].result == Done;
      assert log'[i] == log[i];
    }
    if OpenedInSecured(log, since) {
      var j :| since < j < |log| && log[j].op == OpOpen && log[j - 1].op == OpSecure && log[j - 1].result == Done;
      assert log'[j] == log[j] && log'[j - 1] == log[j - 1];
    }
  }

  /** What the calls have handed out: every reading of `/proc/swaps`, and every
      swap the kernel has made of the file. */
  datatype Seen = Seen(polls: seq<Poll>, swaps: seq<Swap>) {
    function Plus(e: Event): Seen {
      if e.op.OpReadSwaps? then this.(polls := polls + [e.op.poll])
      else if e.op.OpSwapOn? && e.result == Done && e.after.swap.Some? then
        this.(swaps := swaps + [e.after.swap.value])
      else this
    }
  }

  function SeenIn(log: seq<Event>): Seen {
    if log == [] then Seen([], []) else SeenIn(log[..|log| - 1]).Plus(log[|log| - 1])
  }

  /** The tallies are about the calls in between: where a later one is higher,
      a call of that kind failed since. */
  lemma {:induction false} FaultSince(log: seq<Event>, log': seq<Event>, kind: Kind) returns (i: nat)
    requires log <= log' && TallyOf(log').Of(kind) > TallyOf(log).Of(kind)
    ensures |log| <= i < |log'| && KindOf(log'[i].op) == kind && Fault(log'[i])
    decreases |log'|
  {
    if log' == log {
      assert false;
    } else {
      var init, last := log'[..|log'| - 1], log'[|log'| - 1];
      if KindOf(last.op) == kind && Fault(last) {
        i := |log'| - 1;
      } else {
        i := FaultSince(log, init, kind);
      }
    }
  }

  /** And a call that failed since shows in the tally. */
  lemma {:induction false} FaultCounts(log: seq<Event>, log': seq<Event>, i: nat)
    requires log <= log' && |log| <= i < |log'| && Fault(log'[i])
    ensures TallyOf(log').Of(KindOf(log'[i].op)) > TallyOf(log).Of(KindOf(log'[i].op))
    decreases |log'|
  {
    var init := log'[..|log'| - 1];
    TallyGrows(log, init, KindOf(log'[i].op));
    if i < |log'| - 1 {
      FaultCounts(log, init, i);
    }
  }

  lemma {:induction false} TallyGrows(log: seq<Event>, log': seq<Event>, kind: Kind)
    requires log <= log'
    ensures TallyOf(log').Of(kind) >= TallyOf(log).Of(kind)
    decreases |log'|
  {
    if |log'| == |log| {
      assert log == log';
    } else {
      TallyGrows(log, log'[..|log'| - 1], kind);
    }
  }

  // --------------------------------------------------- the effect of each system call

  predicate SwapOffStep(w: World, w': World, r: SysResult) {
    match r
    case Done => w.swap.Some? && w' == w.(swap := None)
    case Failed(EINVAL) => w.file.Some? && w.swap == None && w' == w
    case Failed(ENOENT) => w.file == None && w' == w
    case Failed(OtherError) => w' == w
    case Failed(_) => false
  }

  predicate UnlinkStep(w: World, w': World, r: SysResult) {
    match r
    case Done => w.file.Some? && w' == w.(file := None, free := w.free + Occupied(w))
    case Failed(ENOENT) => w.file == None && w' == w
    case Failed(OtherError) => w' == w
    case Failed(_) => false
  }

  predicate MkdirStep(w: World, w': World, ok: bool) {
    w' == if ok then w.(dir := Directory) else w
  }

  predicate OpenStep(w: World, w': World, ok: bool) {
    && (ok ==> w.dir == Directory && w'.file.Some?)
    && (w' == w || (ok && w.file == None && w' == w.(file := Some(File(true, [], false)))))
  }

  /** The file cannot take the shape `blocks` for lack of space. */
  predicate TooMuch(w: World, blocks: Blocks) {
    Count(blocks) > Total(w)
  }

  predicate TruncateStep(w: World, w': World, n: nat, ok: bool) {
    w.file.Some? &&
    if !ok then w' == w
    else
      var f := w.file.value;
      var blocks := Resize(f.blocks, n);
      w'.file == Some(f.(blocks := blocks))
      && w' == w.(file := w'.file, free := w'.free)
      && w'.free + Count(blocks) == w.free + Count(f.blocks)
  }

  /** A write of `n` blocks from block `from` that got as far as `done`. */
  predicate WriteStep(w: World, w': World, from: nat, n: nat, done: nat, ok: bool) {
    && w.file.Some? && done <= n && (ok ==> done == n)
    && var f := w.file.value;
       var blocks := Fill(f.blocks, from, from + done);
       && w'.file == Some(f.(blocks := blocks, signed := f.signed && (from > 0 || done == 0)))
       && w' == w.(file := w'.file, free := w'.free)
       && w'.free + Count(blocks) == w.free + Count(f.blocks)
  }

  predicate FormatStep(w: World, w': World, ok: bool) {
    && w.file.Some? && w'.file.Some?
    && w'.file == Some(w.file.value.(signed := w'.file.value.signed))
    && w' == w.(file := w'.file)
    && (ok ==> w'.file.value.signed)
  }

  /** What `swapon` demands of the file. */
  predicate Swappable(w: World) {
    w.file.Some? && w.file.value.regular && w.file.value.signed && w.swap == None
  }

  predicate SwapOnStep(w: World, w': World, ok: bool) {
    if ok then
      && Swappable(w)
      && w'.swap.Some? && w' == w.(swap := w'.swap)
    else w' == w
  }

  // ------------------------------------------------ which calls are good in which states

  /** Every call that leaves the file and the free space alone and activates
      no swap is good. */
  lemma QuietIsGood(op: Op, r: SysResult, w: World, w': World)
    requires Inv(w) && !TouchesFile(op) && w'.file == w.file && w'.free == w.free
    requires w.file.Some? ==> w'.dir == w.dir
    requires w'.swap == None || w'.swap == w.swap
    ensures GoodEvent(Event(op, r, w, w'))
  {
  }

  lemma SwapOffIsGood(w: World, w': World, r: SysResult)
    requires Inv(w) && SwapOffStep(w, w', r)
    ensures GoodEvent(Event(OpSwapOff, r, w, w'))
    ensures r != Failed(OtherError) ==> w'.swap == None
  {
    hide Full, Prefix, Count;
  }

  /** Taking EINVAL and ENOENT for success is right in exactly those states where
      an active swap has a file: with the file unlinked under an active swap, the
      ENOENT of `swapoff` would be misread. */
  lemma AcceptedMeansOff(w: World)
    ensures (w.swap.Some? ==> w.file.Some?) <==>
            (forall w', r | SwapOffStep(w, w', r) && r != Failed(OtherError) :: w'.swap == None)
  {
    if w.swap.Some? && w.file == None {
      assert SwapOffStep(w, w, Failed(ENOENT));
    }
  }

  lemma UnlinkIsGood(w: World, w': World, r: SysResult)
    requires Inv(w) && w.swap == None && UnlinkStep(w, w', r)
    ensures GoodEvent(Event(OpUnlink, r, w, w'))
  {
    hide Full, Prefix, Count;
  }

  lemma OpenIsGood(w: World, w': World, r: SysResult)
    requires Inv(w) && OpenStep(w, w', r == Done)
    ensures GoodEvent(Event(OpOpen, r, w, w'))
  {
    assert Prefix([]) && Count([]) == 0;
    hide Full, Count, Prefix;
  }

  lemma TruncateIsGood(w: World, w': World, n: nat, r: SysResult)
    requires Inv(w) && w.swap == None && TruncateStep(w, w', n, r == Done)
    ensures GoodEvent(Event(OpTruncate, r, w, w'))
    ensures r == Done ==> w'.file.Some? && Count(w'.file.value.blocks) == Min(Count(w.file.value.blocks), n)
  {
    ResizeShape(w.file.value.blocks, n);
    hide Full, Count, Prefix, Resize;
  }

  /** Either nothing is left to allocate, or what is left to allocate fits into
      the free space above the reserve. */
  predicate Room(w: World) {
    w.file.Some? &&
    var b := w.file.value.blocks;
    Count(b) == |b| || (w.free - (|b| - Count(b))) * BLOCK_BYTES >= RESERVE_BYTES
  }

  lemma WriteIsGood(w: World, w': World, from: nat, n: nat, done: nat, r: SysResult)
    requires Inv(w) && w.swap == None && WriteStep(w, w', from, n, done, r == Done) && Room(w)
    requires from <= Count(w.file.value.blocks) && from + n <= |w.file.value.blocks|
    ensures GoodEvent(Event(OpWrite(from, n), r, w, w')) && Room(w')
    ensures Count(w'.file.value.blocks) == Max(Count(w.file.value.blocks), from + done)
  {
    FillShape(w.file.value.blocks, from, from + done);
    hide Full, Count, Prefix, Fill;
  }

  /** Where there is room, and nobody else writes, no write runs out of space. */
  lemma RoomSuffices(w: World, from: nat, n: nat)
    requires Inv(w) && Room(w)
    requires from <= Count(w.file.value.blocks) && from + n <= |w.file.value.blocks|
    ensures !TooMuch(w, Fill(w.file.value.blocks, from, from + n))
  {
    FillShape(w.file.value.blocks, from, from + n);
    hide Full, Count, Prefix, Fill;
  }

  /** No truncation needs space: growing adds a hole. */
  lemma ResizeSuffices(w: World, n: nat)
    requires Inv(w) && w.file.Some?
    ensures !TooMuch(w, Resize(w.file.value.blocks, n))
  {
    ResizeShape(w.file.value.blocks, n);
    hide Full, Count, Prefix, Resize;
  }

  lemma NothingFilled(b: Blocks, from: nat)
    ensures Fill(b, from, from) == b
  {
  }

  lemma FormatIsGood(w: World, w': World, r: SysResult)
    requires Inv(w) && w.swap == None && FormatStep(w, w', r == Done)
    ensures GoodEvent(Event(OpFormat, r, w, w'))
  {
    hide Full, Count, Prefix;
  }

  lemma SwapOnIsGood(w: World, w': World, r: SysResult)
    requires Inv(w) && SwapOnStep(w, w', r == Done)
    requires w.file.Some? && Full(w.file.value.blocks)
    ensures GoodEvent(Event(OpSwapOn, r, w, w'))
  {
    hide Full, Count, Prefix;
  }

  // --------------------------------------------------------------- the system calls

  /** The kernel: every call may take any outcome its step allows, and every
      call is recorded. */
  class Os {
    ghost const start: World
    var w: World
    var log: seq<Event>

    ghost predicate Good()
      reads this
    {
      GoodLog(start, log, w)
    }

    ghost function Failures(): Tally
      reads this
    {
      TallyOf(log)
    }

    ghost function Seen(): Seen
      reads this
    {
      SeenIn(log)
    }

    constructor (w: World)
      requires Inv(w)
      ensures Good() && this.w == start == w && log == []
    {
      start := w;
      this.w, log := w, [];
    }

    method Record(op: Op, result: SysResult, before: World)
      modifies this`log
      ensures log == old(log) + [Event(op, result, before, w)]
    {
      log := log + [Event(op, result, before, w)];
    }

    /** Any outcome of a call that only fails for reasons of its own. */
    method Attempt() returns (r: SysResult)
      ensures r == Done || r == Failed(OtherError)
    {
      var refused: bool := *;
      r := if refused then Failed(OtherError) else Done;
    }

    method SwapOff() returns (r: SysResult)
      modifies this
      ensures log == old(log) + [Event(OpSwapOff, r, old(w), w)] && SwapOffStep(old(w), w, r)
    {
      var before := w;
      r := Attempt();
      if r == Done {
        if w.file == None {
          r := Failed(ENOENT);
        } else if w.swap == None {
          r := Failed(EINVAL);
        } else {
          w := w.(swap := None);
        }
      }
      Record(OpSwapOff, r, before);
    }

    method Unlink() returns (r: SysResult)
      modifies this
      ensures log == old(log) + [Event(OpUnlink, r, old(w), w)] && UnlinkStep(old(w), w, r)
    {
      hide Count;
      var before := w;
      r := Attempt();
      if r == Done {
        if w.file == None {
          r := Failed(ENOENT);
        } else {
          w := w.(file := None, free := w.free + Occupied(w));
        }
      }
      Record(OpUnlink, r, before);
    }

    method Mkdir() returns (r: SysResult)
      modifies this
      ensures log == old(log) + [Event(OpMkdir, r, old(w), w)] && MkdirStep(old(w), w, r == Done)
      ensures r == Done || r == Failed(OtherError)
    {
      var before := w;
      r := Attempt();
      if r == Done {
        w := w.(dir := Directory);
      }
      Record(OpMkdir, r, before);
    }

    /** A call that may fail and changes nothing: lstat and the like, chmod and
        fchmod, fsync. */
    method Look(op: Op) returns (r: SysResult)
      requires op == OpInspect || op == OpSecure || op == OpSync
      modifies this
      ensures w == old(w) && log == old(log) + [Event(op, r, w, w)]
      ensures r == Done || r == Failed(OtherError)
    {
      r := Attempt();
      Record(op, r, w);
    }

    /** `open` with O_CREAT and O_NOFOLLOW. */
    method OpenCreate() returns (r: SysResult)
      modifies this
      ensures log == old(log) + [Event(OpOpen, r, old(w), w)] && OpenStep(old(w), w, r == Done)
      ensures old(w.dir) == Directory ==> r == Done || r == Failed(OtherError)
      ensures old(w.dir) != Directory ==> r != Failed(OtherError)
    {
      var before := w;
      if w.dir != Directory {
        r := Failed(if w.dir == Missing then ENOENT else ENOTDIR);
      } else {
        r := Attempt();
      }
      if r == Done && w.file == None {
        w := w.(file := Some(File(true, [], false)));
      }
      Record(OpOpen, r, before);
    }

    method Fstat() returns (st: Option<Stat>)
      requires w.file.Some?
      modifies this
      ensures w == old(w)
      ensures log == old(log) + [Event(OpInspect, if st.Some? then Done else Failed(OtherError), w, w)]
      ensures st.Some? ==>
                st.value == Stat(w.file.value.regular, BLOCK_BYTES * |w.file.value.blocks|, BLOCK_SECTORS * Count(w.file.value.blocks))
    {
      var f := w.file.value;
      var r := Look(OpInspect);
      st := if r == Done then Some(Stat(f.regular, BLOCK_BYTES * |f.blocks|, BLOCK_SECTORS * Count(f.blocks))) else None;
    }

    /** `f_bavail * f_frsize` of /data. */
    method Statvfs() returns (available: Option<nat>)
      modifies this
      ensures w == old(w)
      ensures log == old(log) + [Event(OpInspect, if available.Some? then Done else Failed(OtherError), w, w)]
      ensures available.Some? ==> available.value == w.free * BLOCK_BYTES
    {
      var r := Look(OpInspect);
      available := if r == Done then Some(w.free * BLOCK_BYTES) else None;
    }

    /** Fails also when the file would grow beyond the free space. */
    method Ftruncate(n: nat) returns (r: SysResult)
      requires w.file.Some?
      modifies this
      ensures log == old(log) + [Event(OpTruncate, r, old(w), w)] && TruncateStep(old(w), w, n, r == Done)
      ensures r in {Done, Failed(OtherError)} || TooMuch(old(w), Resize(old(w.file.value.blocks), n))
    {
      hide Count, Resize;
      var before := w;
      var f := w.file.value;
      var blocks := Resize(f.blocks, n);
      r := Attempt();
      if r == Done {
        if TooMuch(w, blocks) {
          r := Failed(ENOSPC);
        } else {
          w := w.(file := Some(f.(blocks := blocks)), free := w.free + Count(f.blocks) - Count(blocks));
        }
      }
      Record(OpTruncate, r, before);
    }

    /** `WriteFullyAtOffset` of zeroes: it may stop anywhere, also for lack of space. */
    method WriteFully(from: nat, n: nat) returns (r: SysResult, ghost done: nat)
      requires w.file.Some?
      modifies this
      ensures log == old(log) + [Event(OpWrite(from, n), r, old(w), w)]
      ensures WriteStep(old(w), w, from, n, done, r == Done)
      ensures r in {Done, Failed(OtherError)} || TooMuch(old(w), Fill(old(w.file.value.blocks), from, from + n))
    {
      hide Count, Fill;
      var before := w;
      var f := w.file.value;
      r := Attempt();
      var reached := n;
      if r != Done {
        reached :| 0 <= reached <= n;
      }
      if TooMuch(w, Fill(f.blocks, from, from + reached)) {
        NothingFilled(f.blocks, from);
        assert !TooMuch(w, Fill(f.blocks, from, from + 0));
        reached :| 0 <= reached <= n && !TooMuch(w, Fill(f.blocks, from, from + reached));
        if r == Done {
          r := Failed(ENOSPC);
        }
      }
      var blocks := Fill(f.blocks, from, from + reached);
      assert !TooMuch(w, blocks);
      w := w.(file := Some(f.(blocks := blocks, signed := f.signed && (from > 0 || reached == 0))),
              free := w.free + Count(f.blocks) - Count(blocks));
      done := reached;
      Record(OpWrite(from, n), r, before);
    }

    /** `mkswap` in a child process. */
    method Mkswap() returns (r: SysResult)
      requires w.file.Some?
      modifies this
      ensures log == old(log) + [Event(OpFormat, r, old(w), w)] && FormatStep(old(w), w, r == Done)
      ensures r == Done || r == Failed(OtherError)
    {
      var before := w;
      r := Attempt();
      var signed: bool := *;
      w := w.(file := Some(w.file.value.(signed := r == Done || signed)));
      Record(OpFormat, r, before);
    }

    /** The kernel chooses the reported size and the priority. */
    method SwapOn() returns (r: SysResult)
      modifies this
      ensures log == old(log) + [Event(OpSwapOn, r, old(w), w)] && SwapOnStep(old(w), w, r == Done)
      ensures r in {Done, Failed(OtherError)} || !Swappable(old(w))
    {
      var before := w;
      r := Attempt();
      if r == Done {
        if Swappable(w) {
          var sizeKb: nat := *;
          var priority: int := *;
          w := w.(swap := Some(Swap(sizeKb, priority)));
        } else {
          r := Failed(EINVAL);
        }
      }
      Record(OpSwapOn, r, before);
    }

    method SetActiveKb(kb: nat) returns (r: SysResult)
      modifies this
      ensures log == old(log) + [Event(OpProperty, r, old(w), w)]
      ensures w == if r == Done then old(w).(activeKb := kb) else old(w)
      ensures r == Done || r == Failed(OtherError)
    {
      var before := w;
      r := Attempt();
      if r == Done {
        w := w.(activeKb := kb);
      }
      Record(OpProperty, r, before);
    }

    method SetStatus(status: string) returns (r: SysResult)
      modifies this
      ensures log == old(log) + [Event(OpProperty, r, old(w), w)]
      ensures w == if r == Done then old(w).(status := status) else old(w)
      ensures r == Done || r == Failed(OtherError)
    {
      var before := w;
      r := Attempt();
      if r == Done {
        w := w.(status := status);
      }
      Record(OpProperty, r, before);
    }

    /** `/proc/swaps`: anything for other devices, the truth for the swapfile. */
    method ReadSwaps() returns (entries: Poll)
      modifies this
      ensures w == old(w)
      ensures log == old(log) + [Event(OpReadSwaps(entries), if entries.Some? then Done else Failed(OtherError), w, w)]
      ensures entries.Some? ==> ShowsSwap(w.swap, entries.value)
    {
      var r := Attempt();
      entries := None;
      if r == Done {
        var others: seq<SwapEntry> := *;
        if exists i | 0 <= i < |others| :: others[i].path == SWAP_PATH {
          others := [];
        }
        entries := Some(others);
        if w.swap.Some? {
          var own := SwapEntry(SWAP_PATH, w.swap.value.sizeKb, w.swap.value.priority);
          entries := Some(others + [own]);
          assert (others + [own])[|others|] == own;
        }
      }
      Record(OpReadSwaps(entries), r, w);
    }
  }

  predicate ShowsSwap(swap: Option<Swap>, entries: seq<SwapEntry>) {
    && (forall i :: 0 <= i < |entries| && entries[i].path == SWAP_PATH ==>
          swap == Some(Swap(entries[i].sizeKb, entries[i].priority)))
    && (swap.Some? ==> exists i :: 0 <= i < |entries| && entries[i].path == SWAP_PATH)
  }
}
