/**
 * Runs of the `stream()` loop: the cycles of module `TailState` applied one
 * after another, each against the filesystem as it is at that cycle.
 */
module TailRuns {
  import opened Wrappers
  import opened TailState

  /**
   * The states and outcomes of consecutive cycles, one per snapshot.  A
   * fatal outcome ends the loop, as a `TailException` ends `stream()`.
   */
  function Run(envs: seq<Env>, s: State): (r: (State, seq<Outcome>))
    ensures |r.1| <= |envs|
    ensures r.0.path == s.path
    ensures forall k :: 0 <= k < |r.1| - 1 ==> !r.1[k].Fatal?
    ensures |r.1| < |envs| ==> |r.1| > 0 && r.1[|r.1| - 1].Fatal?
    decreases |envs|
  {
    if envs == [] then (s, [])
    else
      var (next, outcome) := Cycle(envs[0], s);
      if outcome.Fatal? then (next, [outcome])
      else
        var (last, outcomes) := Run(envs[1..], next);
        (last, [outcome] + outcomes)
  }

  /** The handle stayed open through this cycle. */
  predicate KeptOpen(o: Outcome) {
    o.Idle? || o.Emitted?
  }

  /**
   * The emitted ranges in `outcomes`, in order, tile [p, q): each starts
   * where the previous one ended, none is empty and none overlaps another.
   */
  predicate Contiguous(outcomes: seq<Outcome>, p: nat, q: nat)
    decreases |outcomes|
  {
    if outcomes == [] then p == q
    else match outcomes[0]
      case Emitted(from, to) => from == p && p < to && Contiguous(outcomes[1..], to, q)
      case Idle => Contiguous(outcomes[1..], p, q)
      case _ => false
  }

  /** The total of the ranges that tile [p, q) is the q - p bytes appended. */
  function EmittedCount(outcomes: seq<Outcome>): nat
    decreases |outcomes|
  {
    if outcomes == [] then 0
    else (if outcomes[0].Emitted? && outcomes[0].from <= outcomes[0].to
          then outcomes[0].to - outcomes[0].from else 0) + EmittedCount(outcomes[1..])
  }

  lemma {:induction false} ContiguousCount(outcomes: seq<Outcome>, p: nat, q: nat)
    requires Contiguous(outcomes, p, q)
    ensures p <= q && EmittedCount(outcomes) == q - p
    decreases |outcomes|
  {
    if outcomes != [] {
      match outcomes[0]
      case Emitted(from, to) => ContiguousCount(outcomes[1..], to, q);
      case Idle => ContiguousCount(outcomes[1..], p, q);
    }
  }

  /**
   * Growth, exactly once and in order: while the handle stays open, the
   * emitted ranges start at the cursor the run began with and tile the
   * bytes up to the cursor it ends with; the cursor never moves back.
   */
  lemma {:induction false} OpenRunIsContiguous(envs: seq<Env>, s: State)
    requires s.handle.Some?
    requires forall k :: 0 <= k < |Run(envs, s).1| ==> KeptOpen(Run(envs, s).1[k])
    ensures |Run(envs, s).1| == |envs|
    ensures Run(envs, s).0.handle.Some?
    ensures Contiguous(Run(envs, s).1, s.handle.value.position, Run(envs, s).0.handle.value.position)
    ensures s.handle.value.position <= Run(envs, s).0.handle.value.position
    ensures EmittedCount(Run(envs, s).1) == Run(envs, s).0.handle.value.position - s.handle.value.position
    decreases |envs|
  {
    if envs != [] {
      var (next, outcome) := Cycle(envs[0], s);
      var rest := Run(envs[1..], next);
      assert KeptOpen(Run(envs, s).1[0]);
      assert Run(envs, s).1 == [outcome] + rest.1;
      forall k | 0 <= k < |rest.1|
        ensures KeptOpen(rest.1[k])
      {
        assert Run(envs, s).1[k + 1] == rest.1[k];
      }
      OpenRunIsContiguous(envs[1..], next);
      assert ([outcome] + rest.1)[1..] == rest.1;
    }
    ContiguousCount(Run(envs, s).1, s.handle.value.position, Run(envs, s).0.handle.value.position);
  }

  /**
   * A path whose resolved name is a directory, whether the path itself or
   * the target of a link, never gets a handle and never raises, cycle after
   * cycle: the object stays fully reset.
   */
  lemma {:induction false} DirectoryNeverOpens(envs: seq<Env>, s: State)
    requires IsReset(s)
    requires forall k :: 0 <= k < |envs| ==>
      Resolve(envs[k], s).Some? && envs[k].isDir(Resolve(envs[k], s).value.realpath)
    ensures IsReset(Run(envs, s).0)
    ensures |Run(envs, s).1| == |envs|
    ensures forall k :: 0 <= k < |envs| ==> Run(envs, s).1[k] == Reset
    decreases |envs|
  {
    if envs != [] {
      DirectoryResets(envs[0], s);
      assert Closed(s) == s;
      assert Cycle(envs[0], s) == (s, Reset);
      var rest := Run(envs[1..], s);
      forall k | 0 <= k < |envs| - 1
        ensures Resolve(envs[1..][k], s).Some? && envs[1..][k].isDir(Resolve(envs[1..][k], s).value.realpath)
      {
        assert envs[1..][k] == envs[k + 1];
      }
      DirectoryNeverOpens(envs[1..], s);
      assert Run(envs, s).1 == [Reset] + rest.1;
    }
  }

  /** A plain file `name` with inode 7, `size` bytes long, whose transfer reports `passed`. */
  function PlainFile(name: string, size: nat, passed: nat): Env {
    Env(
      p => if p == name then Some(7) else None,
      p => false,
      p => None,
      p => false,
      p => if p == name then Some(size) else None,
      p => if p == name then Some(size) else None,
      true,
      Some(passed))
  }

  /**
   * The file starts empty; "AAAA" is appended, the file is truncated to
   * nothing, "BB" is written, then "CC": the run opens at 0, emits [0, 4),
   * closes on truncation, reopens at 2 without emitting, and emits [2, 4).
   */
  lemma TruncationScenario()
    ensures Run([PlainFile("log", 0, 0), PlainFile("log", 4, 4), PlainFile("log", 0, 0),
                 PlainFile("log", 2, 0), PlainFile("log", 4, 2)], Initial("log")).1
            == [Idle, Emitted(0, 4), Truncated, Idle, Emitted(2, 4)]
  {
    var e := [PlainFile("log", 0, 0), PlainFile("log", 4, 4), PlainFile("log", 0, 0),
              PlainFile("log", 2, 0), PlainFile("log", 4, 2)];
    var s1 := State("log", Some(Handle(0)), "log", 7, 7);
    var s2 := State("log", Some(Handle(4)), "log", 7, 7);
    var s4 := State("log", Some(Handle(2)), "log", 7, 7);
    assert Cycle(e[0], Initial("log")) == (s1, Idle);
    assert Cycle(e[1], s1) == (s2, Emitted(0, 4)) by { SteadyCycle(e[1], s1, 4); }
    assert Cycle(e[2], s2) == (Initial("log"), Truncated) by { SteadyCycle(e[2], s2, 0); }
    assert Cycle(e[3], Initial("log")) == (s4, Idle);
    assert Cycle(e[4], s4) == (s2, Emitted(2, 4)) by { SteadyCycle(e[4], s4, 4); }
    assert e[1..][1..][1..][1..][1..] == [];
    assert Run(e[1..][1..][1..][1..], s4).1 == [Emitted(2, 4)];
    assert Run(e[1..][1..][1..], Initial("log")).1 == [Idle, Emitted(2, 4)];
    assert Run(e[1..][1..], s2).1 == [Truncated, Idle, Emitted(2, 4)];
    assert Run(e[1..], s1).1 == [Emitted(0, 4), Truncated, Idle, Emitted(2, 4)];
  }
}
