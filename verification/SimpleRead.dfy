// Opening, reading and closing a file through the simple read interface, with the file handles and pool
// allocations that the firmware keeps for it.

module SimpleRead {
  import opened Common

  datatype Status = Success | Warning(code: nat) | Error(code: nat)

  const UNSUPPORTED := Error(3)
  const BUFFER_TOO_SMALL := Error(5)
  const OUT_OF_RESOURCES := Error(9)
  const NOT_FOUND := Error(14)
  const ALREADY_STARTED := Error(20)

  type Name = int

  /** A node of the device path: a file path component, or anything else. */
  datatype Node = FilePath(name: Name) | Other

  /** What a live file handle names: the components below the root of its volume. */
  type Place = seq<Name>

  const NULL: nat := 0

  // ---- What the firmware answers ----

  /** Every answer the firmware may give during one open. */
  datatype Answers = Answers(
    handleAllocated: bool,
    locateStatus: Status,
    remaining: seq<Node>,
    volumeStatus: Status,
    rootStatus: Status,
    opens: nat -> Status,
    loadLocateStatus: Status,
    loadDirect: bool,
    loadInterfaceStatus: Status,
    copyAllocated: bool,
    sizeStatus: Status,
    size: nat,
    bufferAllocated: bool,
    loadStatus: Status,
    contents: seq<Byte>)

  /** The root directory of the volume is opened. */
  predicate RootOpens(a: Answers) {
    !a.locateStatus.Error? && !a.volumeStatus.Error? && !a.rootStatus.Error?
  }

  /** The path that is walked: what the file system left of the caller's path. */
  function Walked(a: Answers, path: seq<Node>): seq<Node> {
    if a.locateStatus.Error? then path else a.remaining
  }

  /** How many nodes from `i` on are file path components that open. */
  function Reach(nodes: seq<Node>, opens: nat -> Status, i: nat): (k: nat)
    requires i <= |nodes|
    ensures i <= k <= |nodes|
    ensures forall j :: i <= j < k ==> nodes[j].FilePath? && !opens(j).Error?
    ensures k < |nodes| ==> nodes[k].Other? || opens(k).Error?
    decreases |nodes| - i
  {
    if i < |nodes| && nodes[i].FilePath? && !opens(i).Error? then Reach(nodes, opens, i + 1) else i
  }

  function Names(nodes: seq<Node>): (place: Place)
    ensures |place| == |nodes|
    ensures forall i :: 0 <= i < |nodes| && nodes[i].FilePath? ==> place[i] == nodes[i].name
  {
    seq(|nodes|, i requires 0 <= i < |nodes| => if nodes[i].FilePath? then nodes[i].name else 0)
  }

  /** The file system serves the whole path. */
  predicate FileOpens(a: Answers, path: seq<Node>) {
    RootOpens(a) && Reach(Walked(a, path), a.opens, 0) == |Walked(a, path)|
  }

  /** The walk stopped at a node that is no file path component, with a directory open. */
  predicate Blocked(a: Answers, path: seq<Node>) {
    RootOpens(a) &&
    var nodes := Walked(a, path);
    var k := Reach(nodes, a.opens, 0);
    k < |nodes| && nodes[k].Other?
  }

  /** How the file system access ends. A failed open counts as unsupported when the next node is no component. */
  function WalkStatus(a: Answers, path: seq<Node>): Status {
    var nodes := Walked(a, path);
    if !RootOpens(a) then UNSUPPORTED else
      var k := Reach(nodes, a.opens, 0);
      if k == |nodes| then if k == 0 then Success else a.opens(k - 1)
      else if nodes[k].Other? || (k + 1 < |nodes| && nodes[k + 1].Other?) then UNSUPPORTED
      else a.opens(k)
  }

  /** How the load file protocol ends. */
  function LoadStatus(a: Answers): Status {
    if a.loadLocateStatus.Error? || !a.loadDirect || a.loadInterfaceStatus.Error? then UNSUPPORTED
    else if a.sizeStatus == BUFFER_TOO_SMALL && a.bufferAllocated then
      if a.loadStatus.Error? && a.loadStatus != ALREADY_STARTED then UNSUPPORTED else a.loadStatus
    else if a.sizeStatus.Error? && a.sizeStatus != ALREADY_STARTED then UNSUPPORTED
    else a.sizeStatus
  }

  /** The status of the whole open. */
  function OpenStatus(a: Answers, path: seq<Node>, fromMemory: bool): Status {
    if !a.handleAllocated then OUT_OF_RESOURCES
    else if fromMemory then Success
    else if WalkStatus(a, path) != UNSUPPORTED then WalkStatus(a, path)
    else LoadStatus(a)
  }

  // ---- How it ends, in the firmware's answers ----

  /** Node `k` of the remaining path is the first that is no component or does not open. */
  predicate FirstRefused(a: Answers, k: nat) {
    && k < |a.remaining| && (forall i :: 0 <= i < k ==> a.remaining[i].FilePath? && !a.opens(i).Error?)
    && (a.remaining[k].Other? || a.opens(k).Error?)
  }

  /** Every node of the path that the file system left opens. */
  predicate AllOpen(a: Answers) {
    && !a.locateStatus.Error? && !a.volumeStatus.Error? && !a.rootStatus.Error?
    && forall i :: 0 <= i < |a.remaining| ==> a.remaining[i].FilePath? && !a.opens(i).Error?
  }

  /**
   * The file system is not to be used: there is none, its root does not open, or the first node that fails is no
   * component, has one that is no component behind it, or fails as unsupported.
   */
  ghost predicate FileSystemUnsupported(a: Answers) {
    || a.locateStatus.Error? || a.volumeStatus.Error? || a.rootStatus.Error?
    || exists k: nat :: FirstRefused(a, k) &&
         (a.remaining[k].Other? || (k + 1 < |a.remaining| && a.remaining[k + 1].Other?) || a.opens(k) == Error(3))
  }

  lemma WalkServed(a: Answers, path: seq<Node>)
    ensures FileOpens(a, path) <==> AllOpen(a)
    ensures AllOpen(a) ==>
      WalkStatus(a, path) == if a.remaining == [] then Success else a.opens(|a.remaining| - 1)
  {
  }

  lemma WalkUnsupported(a: Answers, path: seq<Node>)
    ensures WalkStatus(a, path) == Error(3) <==> FileSystemUnsupported(a)
  {
    if RootOpens(a) {
      var k := Reach(a.remaining, a.opens, 0);
      assert k < |a.remaining| ==> FirstRefused(a, k);
    }
  }

  lemma WalkRefused(a: Answers, path: seq<Node>, k: nat)
    requires FirstRefused(a, k) && !FileSystemUnsupported(a)
    ensures WalkStatus(a, path) == a.opens(k)
  {
  }

  /** What is left of the caller's path: it is put back exactly when a directory was open at the node that failed. */
  lemma WalkLeaves(a: Answers, path: seq<Node>)
    ensures a.locateStatus.Error? ==> !Blocked(a, path) && Walked(a, path) == path
    ensures !a.locateStatus.Error? ==> Walked(a, path) == a.remaining
    ensures AllOpen(a) || a.volumeStatus.Error? || a.rootStatus.Error? ==> !Blocked(a, path)
    ensures !a.locateStatus.Error? && !a.volumeStatus.Error? && !a.rootStatus.Error? ==>
      forall k: nat :: FirstRefused(a, k) ==> (Blocked(a, path) <==> a.remaining[k].Other?)
  {
  }

  /** The device that the whole path names has the load file interface. */
  predicate DeviceFound(a: Answers) {
    !a.loadLocateStatus.Error? && a.loadDirect && !a.loadInterfaceStatus.Error?
  }

  /** Of the statuses of a load only success, warnings and ALREADY_STARTED are handed on. */
  function HandedOn(s: Status): Status {
    if !s.Error? || s == Error(20) then s else Error(3)
  }

  lemma LoadEnds(a: Answers)
    ensures !DeviceFound(a) ==> LoadStatus(a) == Error(3)
    ensures DeviceFound(a) && a.sizeStatus == Error(5) && a.bufferAllocated ==> LoadStatus(a) == HandedOn(a.loadStatus)
    ensures DeviceFound(a) && !(a.sizeStatus == Error(5) && a.bufferAllocated) ==>
      LoadStatus(a) == HandedOn(a.sizeStatus)
    ensures Buffered(a) <==> DeviceFound(a) && a.sizeStatus == Error(5) && a.bufferAllocated
  {
  }

  /** What the status of the file system says, in the answers alone. */
  lemma OpenEnds(a: Answers, path: seq<Node>)
    ensures FileOpens(a, path) <==> AllOpen(a)
    ensures AllOpen(a) ==> WalkStatus(a, path) == if a.remaining == [] then Success else a.opens(|a.remaining| - 1)
    ensures AllOpen(a) ==> Walked(a, path) == a.remaining && Names(Walked(a, path)) == Names(a.remaining)
    ensures AllOpen(a) ==> forall i :: 0 <= i < |a.remaining| ==> a.remaining[i].FilePath?
    ensures AllOpen(a) ==> !FileSystemUnsupported(a)
    ensures WalkStatus(a, path) == Error(3) <==> FileSystemUnsupported(a)
    ensures forall k: nat :: FirstRefused(a, k) && !FileSystemUnsupported(a) ==>
      WalkStatus(a, path) == a.opens(k) && a.opens(k).Error?
    ensures forall k: nat :: FirstRefused(a, k) ==> !AllOpen(a)
    ensures Buffered(a) <==> DeviceFound(a) && a.sizeStatus == Error(5) && a.bufferAllocated
  {
    WalkServed(a, path);
    WalkUnsupported(a, path);
    LoadEnds(a);
    forall k: nat | FirstRefused(a, k) && !FileSystemUnsupported(a)
      ensures WalkStatus(a, path) == a.opens(k) && a.opens(k).Error?
    {
      WalkRefused(a, path, k);
    }
  }

  /** The caller holds a handle afterwards. */
  predicate Opened(s: Status) {
    !s.Error? || s == ALREADY_STARTED
  }

  // ---- Resources ----

  datatype Source = NoSource | Memory(at: nat, bytes: seq<Byte>)

  /** The record behind a simple read handle, at address `self` of the pool. */
  class ReadHandle {
    var self: nat
    var freeBuffer: bool
    var source: Source
    var sourceSize: nat
    var fileHandle: nat

    constructor (self: nat)
      ensures this.self == self && !freeBuffer && source == NoSource && sourceSize == 0 && fileHandle == NULL
    {
      this.self := self;
      freeBuffer, source, sourceSize, fileHandle := false, NoSource, 0, NULL;
    }

    /** The file handles that the record owns. */
    ghost function Files(): set<nat>
      reads this
    {
      if fileHandle == NULL then {} else {fileHandle}
    }

    /** The pool allocations that the record owns, itself included. */
    ghost function Blocks(): set<nat>
      reads this
    {
      {self} + if freeBuffer && source.Memory? then {source.at} else {}
    }
  }

  class Firmware {
    var open: map<nat, Place>
    var pool: set<nat>
    var next: nat
    ghost var closed: multiset<nat>

    /** Handles and blocks are numbered once; a closed handle is not live and was closed once. */
    ghost predicate Valid()
      reads this
    {
      && next != NULL
      && (forall f :: f in open ==> f != NULL && f < next && f !in closed)
      && (forall p :: p in pool ==> p != NULL && p < next)
      && (forall f :: f in closed ==> f < next && closed[f] == 1)
    }

    method AllocatePool(available: bool) returns (p: nat)
      requires Valid()
      modifies this`pool, this`next
      ensures Valid() && next >= old(next)
      ensures p == NULL <==> !available
      ensures if available then old(next) <= p && p !in old(pool) && pool == old(pool) + {p} else pool == old(pool)
    {
      p := NULL;
      if available {
        p := next;
        next := next + 1;
        pool := pool + {p};
      }
    }

    method FreePool(p: nat)
      requires Valid() && (p == NULL || p in pool)
      modifies this`pool
      ensures Valid() && pool == old(pool) - {p}
    {
      pool := pool - {p};
    }

    /** Opens the root of a volume, or a name below an open directory; a failing open gives no handle. */
    method OpenAt(place: Place, status: Status) returns (f: nat)
      requires Valid()
      modifies this`open, this`next
      ensures Valid() && next >= old(next)
      ensures f == NULL <==> status.Error?
      ensures if status.Error? then open == old(open)
              else old(next) <= f && f !in old(open) && open == old(open)[f := place]
    {
      f := NULL;
      if !status.Error? {
        f := next;
        next := next + 1;
        open := open[f := place];
      }
    }

    method Close(f: nat)
      requires Valid() && f in open
      modifies this`open, this`closed
      ensures Valid() && open == old(open) - {f} && closed == old(closed) + multiset{f}
    {
      open := open - {f};
      closed := closed + multiset{f};
    }

    method LibOpenRoot(a: Answers) returns (f: nat)
      requires Valid()
      modifies this`open, this`next
      ensures Valid() && next >= old(next)
      ensures f == NULL <==> a.volumeStatus.Error? || a.rootStatus.Error?
      ensures if f == NULL then open == old(open) else old(next) <= f && f !in old(open) && open == old(open)[f := []]
    {
      var status := a.volumeStatus;
      f := NULL;
      if !status.Error? {
        f := OpenAt([], a.rootStatus);
      }
    }

    /**
     * File system access: opens the root and follows the file path components, closing each directory once the
     * next component is open. On failure nothing stays open.
     */
    method WalkFileSystem(a: Answers, path: seq<Node>) returns (status: Status, file: nat, left: seq<Node>)
      requires Valid()
      modifies this`open, this`next, this`closed
      ensures Valid() && next >= old(next)
      ensures status == WalkStatus(a, path)
      ensures !status.Error? <==> FileOpens(a, path)
      ensures left == if Blocked(a, path) then path else Walked(a, path)
      ensures a.locateStatus.Error? ==> left == path
      ensures !a.locateStatus.Error? && (AllOpen(a) || a.volumeStatus.Error? || a.rootStatus.Error?) ==>
        left == a.remaining
      ensures !a.locateStatus.Error? && !a.volumeStatus.Error? && !a.rootStatus.Error? ==>
        forall k: nat :: FirstRefused(a, k) ==> left == if a.remaining[k].Other? then path else a.remaining
      ensures if status.Error? then file == NULL && open == old(open)
              else old(next) <= file && file != NULL && file !in old(open) &&
                   open == old(open)[file := Names(Walked(a, path))]
    {
      hide Names, Reach, WalkStatus, FileOpens, Blocked, Valid, Following, Holding, FirstRefused, AllOpen;
      WalkLeaves(a, path);
      ghost var base, reached := open, UNSUPPORTED;
      left := path;
      file := NULL;
      status := a.locateStatus;
      if !status.Error? {
        left := a.remaining;
        file := LibOpenRoot(a);
      }
      status := if file != NULL then Success else UNSUPPORTED;
      reached := status;
      var i := 0;
      FollowStart(a, left, status);
      NoNames(left);
      HoldStart(base, open, file, status, old(next));
      while i < |left|
        invariant 0 <= i <= |left| && left == Walked(a, path) && Valid() && next >= old(next)
        invariant status == reached && Following(a, left, i, status)
        invariant Holding(base, open, file, status, old(next), Names(left[..i]))
      {
        if left[i].Other? {
          status := UNSUPPORTED;
        }
        if status.Error? {
          break;
        }
        ghost var before := open;
        HeldFile(base, open, file, status, old(next), Names(left[..i]));
        var last := file;
        file := Descend(last, left[i].name, a.opens(i));
        HoldNext(base, before, last, status, old(next), Names(left[..i]), left[i].name, a.opens(i), file, open);
        NamesNext(left, i);
        FollowNext(a, left, i, status);
        status := a.opens(i);
        reached := status;
        i := i + 1;
      }
      FollowEnd(a, path, left, i, status, reached);
      HeldFile(base, open, file, reached, old(next), Names(left[..i]));
      if !status.Error? {
        assert left[..i] == left;
        return;
      }
      if file != NULL {
        Close(file);
        file := NULL;
        left := path;
      }
    }

    /**
     * Load file access: asks for the size, allocates a buffer for it and loads into it. The handle owns the buffer
     * from the moment it is allocated.
     */
    method LoadFromDevice(a: Answers, handle: ReadHandle) returns (status: Status)
      requires Valid() && handle.source == NoSource && !handle.freeBuffer && handle.self in pool
      modifies this`pool, this`next, handle
      ensures Valid() && next >= old(next)
      ensures status == LoadStatus(a)
      ensures !DeviceFound(a) ==> status == Error(3)
      ensures DeviceFound(a) && a.sizeStatus == Error(5) && a.bufferAllocated ==> status == HandedOn(a.loadStatus)
      ensures DeviceFound(a) && !(a.sizeStatus == Error(5) && a.bufferAllocated) ==> status == HandedOn(a.sizeStatus)
      ensures handle.self == old(handle.self) && handle.fileHandle == old(handle.fileHandle)
      ensures handle.freeBuffer == Buffered(a)
      ensures if Buffered(a)
        then handle.source.Memory? && handle.source.at !in old(pool) && pool == old(pool) + {handle.source.at} &&
             handle.source.bytes == a.contents && handle.sourceSize == a.size
        else handle.source == NoSource && pool == old(pool) && handle.sourceSize == old(handle.sourceSize)
    {
      hide Valid;
      LoadEnds(a);
      status := LibDevicePathToInterface(a);
      if !status.Error? {
        var copy := AllocatePool(a.copyAllocated);
        FreePool(copy);
        status := a.sizeStatus;
        if status == BUFFER_TOO_SMALL {
          var block := AllocatePool(a.bufferAllocated);
          if block != NULL {
            handle.freeBuffer := true;
            handle.source := Memory(block, a.contents);
            handle.sourceSize := a.size;
            status := a.loadStatus;
          }
        }
        if !status.Error? || status == ALREADY_STARTED {
          return;
        }
      }
      status := UNSUPPORTED;
    }

    /**
     * The whole open. A handle that is returned with an error other than ALREADY_STARTED is that of a freed block:
     * the function stores it before it knows that it will fail.
     */
    method OpenSimpleReadFile(a: Answers, path: seq<Node>, buffer: Source, size: nat)
        returns (status: Status, handle: ReadHandle?, left: seq<Node>)
      requires Valid()
      modifies this
      ensures Valid()
      ensures status == OpenStatus(a, path, buffer.Memory?)
      ensures handle == null <==> !a.handleAllocated
      ensures !Opened(status) ==>
              open == old(open) && pool == old(pool) && (handle != null ==> fresh(handle) && handle.self !in pool)
      ensures Opened(status) ==>
              handle != null && fresh(handle) && handle.Blocks() !! old(pool) && pool == old(pool) + handle.Blocks() &&
              (handle.freeBuffer ==> handle.source.Memory? && handle.source.at != handle.self)
      ensures Opened(status) ==> handle != null && if handle.fileHandle == NULL then open == old(open)
              else handle.fileHandle !in old(open) && open == old(open)[handle.fileHandle := Names(Walked(a, path))]
      ensures Opened(status) ==> handle != null && Describes(handle, a, path, buffer, size)
      ensures (handle != null && handle.self in pool) <==> !status.Error? || status == Error(20)
      ensures !a.handleAllocated ==> status == Error(9)
      ensures a.handleAllocated && buffer.Memory? ==>
        && status == Success && handle != null && handle.source == buffer && handle.sourceSize == size
        && !handle.freeBuffer && handle.fileHandle == NULL
      ensures a.handleAllocated && !buffer.Memory? && AllOpen(a) ==>
        && status == (if a.remaining == [] then Success else a.opens(|a.remaining| - 1))
        && handle != null && handle.fileHandle in open && |open[handle.fileHandle]| == |a.remaining|
        && forall i :: 0 <= i < |a.remaining| ==> open[handle.fileHandle][i] == a.remaining[i].name
      ensures forall k: nat ::
        a.handleAllocated && !buffer.Memory? && FirstRefused(a, k) && !FileSystemUnsupported(a) ==> status == a.opens(k)
      ensures a.handleAllocated && !buffer.Memory? && FileSystemUnsupported(a) && !DeviceFound(a) ==> status == Error(3)
      ensures a.handleAllocated && !buffer.Memory? && FileSystemUnsupported(a) && DeviceFound(a) ==>
        if a.sizeStatus == Error(5) && a.bufferAllocated then
          && (!a.loadStatus.Error? || a.loadStatus == Error(20) ==>
                && status == a.loadStatus && handle != null && handle.freeBuffer && handle.source.Memory?
                && handle.source.bytes == a.contents && handle.sourceSize == a.size)
          && (a.loadStatus.Error? && a.loadStatus != Error(20) ==> status == Error(3))
        else
          && (!a.sizeStatus.Error? || a.sizeStatus == Error(20) ==> status == a.sizeStatus)
          && (a.sizeStatus.Error? && a.sizeStatus != Error(20) ==> status == Error(3))
      ensures handle != null && handle.freeBuffer && !status.Error? ==> !a.loadStatus.Error?
      ensures left == if !a.handleAllocated || buffer.Memory? || Blocked(a, path) then path else Walked(a, path)
    {
      hide Valid, Names, WalkStatus, LoadStatus, FileOpens, Blocked, Walked, Buffered, FirstRefused, AllOpen,
           FileSystemUnsupported, DeviceFound;
      OpenEnds(a, path);
      handle := null;
      left := path;
      label Done: {
        var block := AllocatePool(a.handleAllocated);
        if block == NULL {
          status := OUT_OF_RESOURCES;
          break Done;
        }
        handle := new ReadHandle(block);
        if buffer.Memory? {
          handle.source := buffer;
          handle.sourceSize := size;
          status := Success;
          break Done;
        }
        var file: nat;
        status, file, left := WalkFileSystem(a, path);
        if !status.Error? {
          handle.fileHandle := file;
          break Done;
        }
        if status != UNSUPPORTED {
          break Done;
        }
        status := LoadFromDevice(a, handle);
      }
      if status.Error? && status != ALREADY_STARTED {
        if handle != null {
          if handle.freeBuffer {
            FreePool(handle.source.at);
          }
          FreePool(handle.self);
        }
      }
    }

    method CloseSimpleReadFile(handle: ReadHandle)
      requires Valid() && handle.Files() <= open.Keys && handle.Blocks() <= pool
      requires handle.freeBuffer ==> handle.source.Memory? && handle.source.at != handle.self
      modifies this
      ensures Valid() && open == old(open) - old(handle.Files()) && pool == old(pool) - old(handle.Blocks())
    {
      if handle.fileHandle != NULL {
        Close(handle.fileHandle);
      }
      if handle.freeBuffer {
        FreePool(handle.source.at);
      }
      FreePool(handle.self);
    }

    /** Whatever the firmware answers, closing what an open gave back leaves no resource behind. */
    method OpenAndClose(a: Answers, path: seq<Node>, buffer: Source, size: nat) returns (status: Status)
      requires Valid()
      modifies this
      ensures Valid() && open == old(open) && pool == old(pool)
      ensures status == OpenStatus(a, path, buffer.Memory?)
    {
      hide Valid, OpenStatus, Names, Walked, Describes, Blocked;
      var handle, left;
      status, handle, left := OpenSimpleReadFile(a, path, buffer, size);
      if Opened(status) {
        CloseSimpleReadFile(handle);
      }
    }

    /** Opens a name below an open directory, then closes the directory. */
    method Descend(last: nat, name: Name, status: Status) returns (file: nat)
      requires Valid() && last in open
      modifies this`open, this`next, this`closed
      ensures Valid() && next >= old(next)
      ensures if status.Error? then file == NULL && open == old(open) - {last}
              else file != NULL && old(next) <= file && file !in old(open) &&
                   open == (old(open) - {last})[file := old(open)[last] + [name]]
    {
      file := OpenAt(open[last] + [name], status);
      Close(last);
    }
  }

  /** Finds the load file interface of the device that the whole path names. */
  method LibDevicePathToInterface(a: Answers) returns (status: Status)
    ensures status.Error? <==> a.loadLocateStatus.Error? || !a.loadDirect || a.loadInterfaceStatus.Error?
    ensures a.loadLocateStatus.Error? ==> status == a.loadLocateStatus
    ensures !a.loadLocateStatus.Error? && !a.loadDirect ==> status == NOT_FOUND
    ensures !a.loadLocateStatus.Error? && a.loadDirect ==> status == a.loadInterfaceStatus
  {
    status := a.loadLocateStatus;
    if !status.Error? {
      status := NOT_FOUND;
      if a.loadDirect {
        status := a.loadInterfaceStatus;
      }
    }
  }

  /** Load file access got as far as loading into a buffer. */
  predicate Buffered(a: Answers) {
    !a.loadLocateStatus.Error? && a.loadDirect && !a.loadInterfaceStatus.Error? &&
    a.sizeStatus == BUFFER_TOO_SMALL && a.bufferAllocated
  }

  /** What an open handle reads from: the caller's buffer, the file that the path names, or the loaded buffer. */
  ghost predicate Describes(h: ReadHandle, a: Answers, path: seq<Node>, buffer: Source, size: nat)
    reads h
  {
    if buffer.Memory? then h.source == buffer && h.sourceSize == size && !h.freeBuffer && h.fileHandle == NULL
    else if FileOpens(a, path) then h.source == NoSource && !h.freeBuffer && h.fileHandle != NULL
    else
      && h.fileHandle == NULL
      && (h.freeBuffer <==> h.source.Memory?)
      && (h.freeBuffer <==> WalkStatus(a, path) == UNSUPPORTED && Buffered(a))
      && (h.freeBuffer ==> h.source.bytes == a.contents && h.sourceSize == a.size)
  }

  /** The one handle held beyond those of `base` during the walk, while there is no error. */
  ghost predicate Holding(base: map<nat, Place>, open: map<nat, Place>, file: nat, status: Status, first: nat,
                          place: Place) {
    if status.Error? then file == NULL && open == base
    else file != NULL && first <= file && file !in base && open == base[file := place]
  }

  lemma HoldStart(base: map<nat, Place>, open: map<nat, Place>, file: nat, status: Status, first: nat)
    requires status == if file != NULL then Success else UNSUPPORTED
    requires if file == NULL then open == base else first <= file && file !in base && open == base[file := []]
    ensures Holding(base, open, file, status, first, [])
  {
  }

  lemma HeldFile(base: map<nat, Place>, open: map<nat, Place>, file: nat, status: Status, first: nat, place: Place)
    requires Holding(base, open, file, status, first, place)
    ensures if status.Error? then file == NULL && open == base
            else file != NULL && first <= file && file in open && open == base[file := place] && open - {file} == base
  {
  }

  lemma HoldNext(base: map<nat, Place>, open: map<nat, Place>, last: nat, status: Status, first: nat, place: Place,
                 name: Name, result: Status, file: nat, after: map<nat, Place>)
    requires Holding(base, open, last, status, first, place) && !status.Error?
    requires if result.Error? then file == NULL && after == open - {last}
             else file != NULL && first <= file && file !in open &&
                  after == (open - {last})[file := open[last] + [name]]
    ensures Holding(base, after, file, result, first, place + [name])
  {
    assert open - {last} == base;
  }

  lemma FollowStart(a: Answers, nodes: seq<Node>, status: Status)
    requires status == if RootOpens(a) then Success else UNSUPPORTED
    ensures Following(a, nodes, 0, status)
  {
  }

  lemma NoNames(nodes: seq<Node>)
    ensures Names(nodes[..0]) == []
  {
  }

  /** After `i` nodes: all of them opened and the status is the last one's, or an open or the root has failed. */
  ghost predicate Following(a: Answers, nodes: seq<Node>, i: nat, status: Status)
    requires i <= |nodes|
  {
    if !RootOpens(a) then i == 0 && status == UNSUPPORTED
    else if status.Error? then
      i > 0 && Reach(nodes, a.opens, 0) == i - 1 && nodes[i - 1].FilePath? && status == a.opens(i - 1)
    else
      Reach(nodes, a.opens, 0) == Reach(nodes, a.opens, i) && status == if i == 0 then Success else a.opens(i - 1)
  }

  lemma NamesNext(nodes: seq<Node>, i: nat)
    requires i < |nodes| && nodes[i].FilePath?
    ensures Names(nodes[..i + 1]) == Names(nodes[..i]) + [nodes[i].name]
  {
  }

  lemma FollowNext(a: Answers, nodes: seq<Node>, i: nat, status: Status)
    requires i < |nodes| && nodes[i].FilePath? && Following(a, nodes, i, status) && !status.Error?
    ensures Following(a, nodes, i + 1, a.opens(i))
  {
  }

  /** The walk ends at the end of the path, at an error, or at a node that is no component. */
  lemma FollowEnd(a: Answers, path: seq<Node>, nodes: seq<Node>, i: nat, status: Status, reached: Status)
    requires nodes == Walked(a, path) && i <= |nodes| && Following(a, nodes, i, reached)
    requires status == if i < |nodes| && nodes[i].Other? then UNSUPPORTED else reached
    requires status.Error? || i == |nodes|
    ensures status == WalkStatus(a, path)
    ensures !status.Error? <==> FileOpens(a, path)
    ensures Blocked(a, path) <==> status.Error? && !reached.Error?
  {
  }

  // ---- Reading from memory ----

  /** How much of a request lies inside the file: as much as is asked for and does not pass its end. */
  function Available(sourceSize: nat, offset: nat, readSize: nat): (n: nat)
    ensures n <= readSize && (n > 0 ==> offset + n <= sourceSize)
    ensures n < readSize ==> offset + n >= sourceSize
  {
    if offset >= sourceSize then 0 else if readSize <= sourceSize - offset then readSize else sourceSize - offset
  }

  /** The end of the request fits a machine word, or wraps to a word beyond the file. */
  predicate EndChecked(sourceSize: nat, offset: nat, readSize: nat) {
    offset + readSize < QWORD || offset + readSize - QWORD > sourceSize
  }

  /** The request is cut to the file exactly when its end does not wrap into the file. */
  method ClampRead(sourceSize: nat, offset: nat, readSize: nat) returns (size: nat)
    requires sourceSize < QWORD && offset < QWORD && readSize < QWORD
    ensures size == Available(sourceSize, offset, readSize) <==> EndChecked(sourceSize, offset, readSize)
    ensures !EndChecked(sourceSize, offset, readSize) ==> size == readSize && offset + size > sourceSize
  {
    size := readSize;
    var endPos := (offset + readSize) % QWORD;
    if endPos > sourceSize {
      size := (sourceSize - offset) % QWORD;
      if offset >= sourceSize {
        size := 0;
      }
    }
  }

  /** Two bytes from the last address on: the end wraps to 1, inside a file of 16 bytes, and the request is not cut. */
  lemma WrappingRead()
    ensures !EndChecked(16, QWORD - 1, 2) && Available(16, QWORD - 1, 2) == 0
  {
  }

  /** What the firmware answers to a read from a file: a status for each call, and the bytes it stores. */
  datatype FileAnswers = FileAnswers(positionStatus: Status, readStatus: Status, bytes: seq<Byte>)

  /**
   * From memory, a request whose end does not wrap into the file copies the part that lies in the file and says how
   * much; from a file, the firmware's answers are handed on, and nothing is read when the position is refused.
   */
  method ReadSimpleReadFile(handle: ReadHandle, offset: nat, readSize: nat, buffer: array<Byte>, file: FileAnswers)
      returns (status: Status, size: nat)
    requires offset < QWORD && readSize < QWORD
    requires handle.source.Memory? ==>
      && handle.sourceSize <= |handle.source.bytes| && handle.sourceSize < QWORD
      && EndChecked(handle.sourceSize, offset, readSize)
      && Available(handle.sourceSize, offset, readSize) <= buffer.Length
    requires handle.source.NoSource? ==> handle.fileHandle != NULL && |file.bytes| <= buffer.Length
    modifies buffer
    ensures handle.source.Memory? ==>
      && status == Success && size == Available(handle.sourceSize, offset, readSize)
      && (size > 0 ==> buffer[..size] == handle.source.bytes[offset..offset + size])
      && buffer[size..] == old(buffer[size..])
    ensures handle.source.NoSource? && file.positionStatus.Error? ==>
      status == file.positionStatus && size == readSize && buffer[..] == old(buffer[..])
    ensures handle.source.NoSource? && !file.positionStatus.Error? ==>
      && status == file.readStatus && size == |file.bytes| && buffer[..size] == file.bytes
      && buffer[size..] == old(buffer[size..])
  {
    size := readSize;
    if handle.source.Memory? {
      size := ClampRead(handle.sourceSize, offset, readSize);
      if size > 0 {
        CopyMem(buffer, 0, handle.source.bytes, offset, size);
      }
      status := Success;
    } else {
      status := file.positionStatus;
      if !status.Error? {
        CopyMem(buffer, 0, file.bytes, 0, |file.bytes|);
        size := |file.bytes|;
        status := file.readStatus;
      }
    }
  }
}
