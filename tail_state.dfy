/**
 * The state machine of the rotation-aware file follower `drhino\Tail\Tail`
 * (Tail/Tail.php), stated on values.  Each function here is the specification
 * of one method of the class `TailObject.Tail`; the lemmas about runs of
 * cycles live in module `TailRuns`.
 */
module TailState {
  import opened Wrappers

  /** An open read handle; `position` is what `ftell()` reports for it. */
  datatype Handle = Handle(position: nat)

  /**
   * The fields of one `Tail` object: the immutable `path`, the optional
   * handle, the lazily resolved `realpath` and the two tracked inodes.
   */
  datatype State = State(
    path: string,
    handle: Option<Handle>,
    realpath: string,
    pathInode: int,
    realpathInode: int)

  /** The sentinel the class stores for "no inode known yet". */
  const Unknown: int := -1

  /**
   * What the filesystem answers during one poll cycle.  Every query that the
   * class issues through PHP's filesystem functions is a field here.
   */
  datatype Env = Env(
    /** `fileinode()` after `clearstatcache()`; it follows links; None for `false` */
    inodeOf: string -> Option<nat>,
    /** `is_link()` */
    isLink: string -> bool,
    /** `readlink()`: the immediate target of a link; None for `false` */
    readlink: string -> Option<string>,
    /** `is_dir()` */
    isDir: string -> bool,
    /** `fopen($p, 'rb')` then `fseek(…, 0, SEEK_END)`: the end-of-file offset
        a fresh handle stands at; None when either call fails */
    openAt: string -> Option<nat>,
    /** `filesize()`; None for `false` */
    sizeOf: string -> Option<nat>,
    /** whether `ftell()` on the open handle succeeds */
    tellOk: bool,
    /** the byte count `fpassthru()` reports; None for `false` */
    passed: Option<nat>)

  /** The causes of a `TailException`. */
  datatype Fault = OpenFailed | SizeUnavailable | PositionUnavailable | TransferMismatch

  /** What `filehandle()` reports: the handle can be used, `close()` is due, or it threw. */
  datatype Acquire = Ready | NotReady | Raised(fault: Fault)

  /** What one iteration of the `stream()` loop did. */
  datatype Outcome =
    | Reset                       // filehandle() was false: close()
    | Truncated                   // size < position: close()
    | Emitted(from: nat, to: nat) // fpassthru() copied bytes [from, to)
    | Idle                        // size == position
    | Fatal(fault: Fault)         // a TailException ends the loop

  datatype ConstructError = EmptyPath

  /** The reply of `inode()`: whether to close, and the new value of the reference. */
  datatype Check = Check(close: bool, ref: int)

  /** The error the PHP runtime raises for `$this->realpath = false`. */
  datatype RuntimeError = TypeError

  /** The state after `close()`: nothing open, nothing resolved, nothing tracked. */
  predicate IsReset(s: State) {
    s.handle.None? && s.realpath == "" && s.pathInode == Unknown && s.realpathInode == Unknown
  }

  /**
   * The object invariant: a tracked inode is a real inode or the sentinel,
   * and an open handle goes with two known inodes.
   */
  predicate Valid(s: State) {
    && s.pathInode >= Unknown
    && s.realpathInode >= Unknown
    && (s.handle.Some? ==> s.pathInode >= 0 && s.realpathInode >= 0)
  }

  /** `inode` is what the filesystem reports for `p` right now. */
  predicate Backs(env: Env, p: string, inode: int) {
    env.inodeOf(p).Some? && env.inodeOf(p).value == inode
  }

  /** The fields of a freshly constructed object. */
  function Initial(path: string): State {
    State(path, None, "", Unknown, Unknown)
  }

  /** `__construct`: PHP's `empty()` rejects both "" and "0". */
  function Construct(path: string): (r: Result<State, ConstructError>)
    ensures r.Failure? <==> path == "" || path == "0"
    ensures r.Success? ==> r.value.path == path && IsReset(r.value) && Valid(r.value)
  {
    if path == "" || path == "0" then Failure(EmptyPath) else Success(Initial(path))
  }

  /** `close()`: releases the handle and forgets every resolved name and inode. */
  function Closed(s: State): (r: State)
    ensures IsReset(r) && Valid(r) && r.path == s.path
  {
    s.(handle := None, realpath := "", pathInode := Unknown, realpathInode := Unknown)
  }

  /**
   * `inode($path, $ref)` given what `fileinode($path)` returned and whether a
   * handle is open.  The reference is kept or adopts the current inode; a
   * close is signalled for a path that cannot be stat'ed, or for a changed
   * inode while a handle is open.
   */
  function InodeCheck(current: Option<nat>, ref: int, open: bool): (r: Check)
    ensures r.close <==> current.None? || (open && current.value != ref)
    ensures !r.close ==> current.Some? && current.value == r.ref
    ensures current.None? ==> r.ref == ref
    ensures current.Some? ==> r.ref == current.value
  {
    match current
    case None => Check(true, ref)
    case Some(inode) =>
      if inode != ref then Check(open, inode) else Check(false, ref)
  }

  /**
   * Lines 127-138 of `filehandle()` with the evident intent of line 130: a
   * link whose target cannot be read leaves `realpath` empty and makes
   * `filehandle()` return false.  None stands for that `return false`.
   */
  function Resolve(env: Env, s: State): (r: Option<State>)
    ensures r.None? <==> s.realpath == "" && env.isLink(s.path) && env.readlink(s.path).None?
    // resolution touches only `realpath` and, for a plain path, `realpathInode`
    ensures r.Some? ==> r.value.path == s.path && r.value.handle == s.handle && r.value.pathInode == s.pathInode
    ensures r.Some? && s.realpath != "" ==> r.value == s
    ensures r.Some? && s.realpath == "" && !env.isLink(s.path) ==>
              r.value.realpath == s.path && r.value.realpathInode == s.pathInode
    ensures r.Some? && s.realpath == "" && env.isLink(s.path) ==>
              Some(r.value.realpath) == env.readlink(s.path) && r.value.realpathInode == s.realpathInode
  {
    if s.realpath != "" then Some(s)
    else if env.isLink(s.path) then
      match env.readlink(s.path)
      case None => None
      case Some(target) => Some(s.(realpath := target))
    else Some(s.(realpath := s.path, realpathInode := s.pathInode))
  }

  /**
   * Lines 127-138 as written: under `strict_types=1` the assignment of
   * `readlink()`'s `false` to the `string` property raises a TypeError, so
   * the `return false` after it is never reached.
   */
  function ResolveAsWritten(env: Env, s: State): (r: Result<State, RuntimeError>)
    ensures r.Failure? <==> Resolve(env, s).None?
    ensures r.Success? ==> r.value == Resolve(env, s).value
  {
    if s.realpath != "" then Success(s)
    else if env.isLink(s.path) then
      match env.readlink(s.path)
      case None => Failure(TypeError)
      case Some(target) => Success(s.(realpath := target))
    else Success(s.(realpath := s.path, realpathInode := s.pathInode))
  }

  /**
   * `filehandle()`: checks the identity of `path` (and of the link target
   * while the two inodes differ), skips directories, and opens a handle at
   * end-of-file when none is open.  Returns the new fields and the reply.
   */
  function FileHandle(env: Env, s: State): (r: (State, Acquire))
    ensures r.0.path == s.path
    ensures Valid(s) ==> Valid(r.0)
    // an identity failure or a changed inode under an open handle stops the cycle
    ensures env.inodeOf(s.path).None? ==> r.1 == NotReady
    ensures s.handle.Some? && !Backs(env, s.path, s.pathInode) ==> r.1 == NotReady
    // the link target is checked only while the two tracked inodes differ
    ensures (&& s.handle.Some? && s.realpath != "" && s.pathInode != s.realpathInode
             && !Backs(env, s.realpath, s.realpathInode)) ==> r.1 == NotReady
    ensures r.1 == NotReady ==> r.0.handle == s.handle
    // a usable handle: the path's inode is current, the target's inode is
    // current or equal to the path's, and the target is not a directory
    ensures r.1 == Ready ==>
      && r.0.handle.Some?
      && Backs(env, s.path, r.0.pathInode)
      && r.0.realpathInode >= 0
      && (r.0.pathInode == r.0.realpathInode || Backs(env, r.0.realpath, r.0.realpathInode))
      && !env.isDir(r.0.realpath)
    // an existing handle is reused untouched; a new one starts at end-of-file
    ensures r.1 == Ready && s.handle.Some? ==> r.0.handle == s.handle
    ensures r.1 == Ready && s.handle.None? ==> Some(r.0.handle.value.position) == env.openAt(r.0.realpath)
    ensures r.1.Raised? ==> r.1.fault == OpenFailed && s.handle.None? && r.0.handle.None?
                            && env.openAt(r.0.realpath).None?
  {
    var open := s.handle.Some?;
    var first := InodeCheck(env.inodeOf(s.path), s.pathInode, open);
    var s1 := s.(pathInode := first.ref);
    if first.close then (s1, NotReady)
    else match Resolve(env, s1)
      case None => (s1, NotReady)
      case Some(s2) =>
        var second :=
          if s2.pathInode != s2.realpathInode
          then InodeCheck(env.inodeOf(s2.realpath), s2.realpathInode, open)
          else Check(false, s2.realpathInode);
        var s3 := s2.(realpathInode := second.ref);
        if second.close then (s3, NotReady)
        else if env.isDir(s3.realpath) then (s3, NotReady)
        else if s3.handle.Some? then (s3, Ready)
        else match env.openAt(s3.realpath)
          case None => (s3, Raised(OpenFailed))
          case Some(end) => (s3.(handle := Some(Handle(end))), Ready)
  }

  /**
   * One iteration of the `stream()` loop (lines 62-86): acquire the handle,
   * then close on truncation, emit the growth, or do nothing.
   */
  function Cycle(env: Env, s: State): (r: (State, Outcome))
    ensures r.0.path == s.path
    ensures Valid(r.0)
    // outside a fatal error the object is either open or fully reset
    ensures !r.1.Fatal? ==> r.0.handle.Some? || IsReset(r.0)
    ensures r.1 == Reset || r.1 == Truncated <==> !r.1.Fatal? && r.0.handle.None?
    // emission starts at the old cursor, or at end-of-file for a new handle
    ensures r.1.Emitted? ==>
      && r.1.from < r.1.to
      && r.0.handle == Some(Handle(r.1.to))
      && env.sizeOf(r.0.realpath) == Some(r.1.to)
      && (s.handle.Some? ==> r.1.from == s.handle.value.position)
      && (s.handle.None? ==> env.openAt(r.0.realpath) == Some(r.1.from))
    // the cursor never moves back while the handle stays open
    ensures s.handle.Some? && r.0.handle.Some? ==> s.handle.value.position <= r.0.handle.value.position
  {
    var (s1, acquired) := FileHandle(env, s);
    match acquired
    case NotReady => (Closed(s1), Reset)
    case Raised(fault) => (s1, Fatal(fault))
    case Ready =>
      var position := s1.handle.value.position;
      match env.sizeOf(s1.realpath)
      case None => (s1, Fatal(SizeUnavailable))
      case Some(size) =>
        if !env.tellOk then (s1, Fatal(PositionUnavailable))
        else if size < position then (Closed(s1), Truncated)
        else if size > position then
          if env.passed != Some(size - position) then (s1, Fatal(TransferMismatch))
          else (s1.(handle := Some(Handle(size))), Emitted(position, size))
        else (s1, Idle)
  }

  /** `close()` is idempotent: closing a closed object changes nothing. */
  lemma CloseIdempotent(s: State)
    ensures Closed(Closed(s)) == Closed(s)
    ensures IsReset(s) ==> Closed(s) == s
  {
  }

  /**
   * A handle that passes both identity checks and does not name a
   * directory is reused as it is.
   */
  predicate Steady(env: Env, s: State) {
    && s.handle.Some?
    && Backs(env, s.path, s.pathInode)
    && s.realpath != ""
    && (s.pathInode != s.realpathInode ==> Backs(env, s.realpath, s.realpathInode))
    && !env.isDir(s.realpath)
  }

  lemma SteadyIsReady(env: Env, s: State)
    requires Steady(env, s)
    ensures FileHandle(env, s) == (s, Ready)
  {
  }

  /**
   * On a steady handle at cursor `p` with the file now `size` bytes long:
   * a shorter file closes, a longer one emits exactly [p, size) when
   * `fpassthru()` reports `size - p` bytes and is fatal otherwise, and an
   * unchanged size leaves everything as it was.
   */
  lemma SteadyCycle(env: Env, s: State, size: nat)
    requires Steady(env, s) && env.tellOk && env.sizeOf(s.realpath) == Some(size)
    ensures var p := s.handle.value.position;
      && (size < p ==> Cycle(env, s) == (Closed(s), Truncated))
      && (size > p && env.passed == Some(size - p) ==>
            Cycle(env, s) == (s.(handle := Some(Handle(size))), Emitted(p, size)))
      && (size > p && env.passed != Some(size - p) ==> Cycle(env, s) == (s, Fatal(TransferMismatch)))
      && (size == p ==> Cycle(env, s) == (s, Idle))
  {
  }

  /**
   * Rotation: once `path` is backed by another inode while a handle is
   * open, the cycle closes without emitting anything from the old file.
   */
  lemma RotationCloses(env: Env, s: State, inode: nat)
    requires s.handle.Some? && env.inodeOf(s.path) == Some(inode) && inode != s.pathInode
    ensures Cycle(env, s) == (Closed(s), Reset)
  {
  }

  /**
   * Rotation of a link target: while the tracked inodes of `path` and of
   * `realpath` differ, a target that vanished or now has another inode
   * closes the object under an open handle.
   */
  lemma TargetRotationCloses(env: Env, s: State)
    requires s.handle.Some? && s.realpath != "" && s.pathInode != s.realpathInode
    requires !Backs(env, s.realpath, s.realpathInode)
    ensures Cycle(env, s) == (Closed(s), Reset)
  {
  }

  /** A path that cannot be stat'ed closes the object, open or not. */
  lemma MissingPathCloses(env: Env, s: State)
    requires env.inodeOf(s.path).None?
    ensures Cycle(env, s) == (Closed(s), Reset)
  {
  }

  /**
   * With nothing open, a new inode is adopted as the baseline and does not
   * by itself close: the same cycle opens the file at its end.
   */
  lemma BaselineAdoption(env: Env, s: State, inode: nat)
    requires IsReset(s) && env.inodeOf(s.path) == Some(inode)
    requires !env.isLink(s.path) && !env.isDir(s.path) && env.openAt(s.path).Some?
    ensures FileHandle(env, s).1 == Ready
    ensures FileHandle(env, s).0 ==
      s.(handle := Some(Handle(env.openAt(s.path).value)), realpath := s.path,
         pathInode := inode, realpathInode := inode)
  {
  }

  /** A path that is not a link resolves to itself and shares its inode. */
  lemma PlainPathResolvesToItself(env: Env, s: State)
    requires s.realpath == "" && !env.isLink(s.path)
    requires FileHandle(env, s).1 == Ready
    ensures FileHandle(env, s).0.realpath == s.path
    ensures FileHandle(env, s).0.realpathInode == FileHandle(env, s).0.pathInode
  {
  }

  /** A link resolves one level only: to the target `readlink()` names. */
  lemma LinkResolvesOneLevel(env: Env, s: State, target: string)
    requires s.realpath == "" && env.isLink(s.path) && env.readlink(s.path) == Some(target)
    requires FileHandle(env, s).1 == Ready
    ensures FileHandle(env, s).0.realpath == target
  {
  }

  /** A resolved name that is a directory never gets a handle. */
  lemma DirectoryResets(env: Env, s: State)
    requires Resolve(env, s).Some? && env.isDir(Resolve(env, s).value.realpath)
    ensures Cycle(env, s) == (Closed(s), Reset)
  {
  }

  /**
   * No replay: when `fopen`+`fseek` lands where `filesize()` says the file
   * ends, the cycle that opens a handle emits nothing.
   */
  lemma NoReplayOnOpen(env: Env, s: State)
    requires s.handle.None?
    requires forall p :: env.openAt(p) == env.sizeOf(p)
    ensures !Cycle(env, s).1.Emitted?
  {
  }

  /**
   * Finding at line 130: for a link whose target cannot be read the code as
   * written raises a TypeError, while the intended reading resolves nothing.
   */
  lemma ReadlinkFailureAsWritten(env: Env, s: State)
    requires s.realpath == "" && env.isLink(s.path) && env.readlink(s.path).None?
    ensures ResolveAsWritten(env, s) == Failure(TypeError)
    ensures Resolve(env, s).None?
  {
  }

  /** Everywhere else the two readings agree. */
  lemma ResolveAgrees(env: Env, s: State)
    requires !(s.realpath == "" && env.isLink(s.path) && env.readlink(s.path).None?)
    ensures Resolve(env, s).Some? && ResolveAsWritten(env, s) == Success(Resolve(env, s).value)
  {
  }

  /** With the intended reading, an unreadable link target is a plain reset. */
  lemma ReadlinkFailureResets(env: Env, s: State)
    requires s.realpath == "" && env.isLink(s.path) && env.readlink(s.path).None?
    ensures Cycle(env, s) == (Closed(s), Reset)
  {
  }
}
