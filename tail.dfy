/**
 * The class `drhino\Tail\Tail` (Tail/Tail.php) with its fields updated in
 * place.  Every method is proved against the function of module
 * `TailState` that specifies it.
 */
module TailObject {
  import opened Wrappers
  import opened TailState

  class Tail {
    const path: string
    var filehandle: Option<Handle>
    var realpath: string
    var pathInode: int
    var realpathInode: int

    /** The fields as a value. */
    function Fields(): State
      reads this
    {
      State(path, filehandle, realpath, pathInode, realpathInode)
    }

    ghost predicate Valid()
      reads this
    {
      TailState.Valid(Fields())
    }

    /** `__construct`: the path is stored as given; `Construct` states the rejected paths. */
    constructor (path: string)
      requires Construct(path).Success?
      ensures Fields() == Construct(path).value
      ensures Valid()
    {
      this.path := path;
      filehandle := None;
      realpath := "";
      pathInode := Unknown;
      realpathInode := Unknown;
    }

    /** `close()`. */
    method Close()
      modifies this
      ensures Fields() == Closed(old(Fields()))
      ensures Valid()
    {
      filehandle := None;
      realpath := "";
      pathInode := Unknown;
      realpathInode := Unknown;
    }

    /**
     * `inode($p, $ref)`: the new reference is returned instead of being
     * written through `&$ref`; the caller stores it.
     */
    method Inode(env: Env, p: string, ref: int) returns (close: bool, newRef: int)
      ensures Check(close, newRef) == InodeCheck(env.inodeOf(p), ref, filehandle.Some?)
    {
      var inode := env.inodeOf(p);
      if inode.None? {
        return true, ref;
      }
      if ref != inode.value {
        return filehandle.Some?, inode.value;
      }
      return false, ref;
    }

    /** `filehandle()`. */
    method FileHandle(env: Env) returns (acquired: Acquire)
      modifies this
      ensures (Fields(), acquired) == TailState.FileHandle(env, old(Fields()))
      ensures old(Valid()) ==> Valid()
    {
      var close, ref := Inode(env, path, pathInode);
      pathInode := ref;
      if close {
        return NotReady;
      }
      if realpath == "" {
        if env.isLink(path) {
          var target := env.readlink(path);
          if target.None? {
            return NotReady;
          }
          realpath := target.value;
        } else {
          realpath := path;
          realpathInode := pathInode;
        }
      }
      if pathInode != realpathInode {
        close, ref := Inode(env, realpath, realpathInode);
        realpathInode := ref;
        if close {
          return NotReady;
        }
      }
      if env.isDir(realpath) {
        return NotReady;
      }
      if filehandle.None? {
        var end := env.openAt(realpath);
        if end.None? {
          return Raised(OpenFailed);
        }
        filehandle := Some(Handle(end.value));
      }
      return Ready;
    }

    /** One iteration of the `stream()` loop. */
    method Step(env: Env) returns (outcome: Outcome)
      modifies this
      ensures (Fields(), outcome) == Cycle(env, old(Fields()))
      ensures Valid()
    {
      var acquired := FileHandle(env);
      if acquired == NotReady {
        Close();
        return Reset;
      }
      if acquired.Raised? {
        return Fatal(acquired.fault);
      }
      var size := env.sizeOf(realpath);
      if size.None? {
        return Fatal(SizeUnavailable);
      }
      if !env.tellOk {
        return Fatal(PositionUnavailable);
      }
      var position := filehandle.value.position;
      if size.value < position {
        Close();
        return Truncated;
      } else if size.value > position {
        if env.passed != Some(size.value - position) {
          return Fatal(TransferMismatch);
        }
        filehandle := Some(Handle(size.value));
        return Emitted(position, size.value);
      }
      return Idle;
    }
  }
}
