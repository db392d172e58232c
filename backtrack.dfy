/**
 * The explicit-stack backtracker of src/backtrack.rs: deferred threads
 * wait on a `ready` stack of at most `MAX_THREADS` entries, and a `Split`
 * on a full stack aborts the search. As for the recursive engines, every
 * fetched instruction costs one step of a budget.
 */
module Backtrack {
  import opened Options
  import opened Utf8
  import opened Syntax
  import opened Captures
  import opened Cursor
  import Recursive

  /**
   * A deferred alternative: where to resume, at which byte offset (the
   * boundary after the first `pos` chars), with which captures.
   */
  datatype Thread = Thread(pc: nat, offset: nat, ghost pos: nat, sub: Sub)

  const MAX_THREADS: nat := 1000

  /** How a search ends: a match with its captures, no match, the stack overflow panic, or out of steps. */
  datatype Outcome = Found(sub: Sub) | NotFound | Overflow | OutOfFuel

  /**
   * A thread the engine can resume: its offset is the char boundary after
   * `pos` chars and its store has `width` slots, at least one for every
   * `Save` of the program.
   */
  ghost predicate ThreadOk(insts: seq<Inst>, s: seq<char>, width: nat, t: Thread)
  {
    t.pos <= |s| && t.offset == ByteLen(s[..t.pos]) && |t.sub| == width && SlotCount(insts) <= width
  }

  ghost predicate ThreadsOk(insts: seq<Inst>, s: seq<char>, width: nat, ready: seq<Thread>)
  {
    forall i :: 0 <= i < |ready| ==> ThreadOk(insts, s, width, ready[i])
  }

  /** The search with the running thread at `pc`, `pos`, `sub` and the threads `ready` deferred. */
  ghost function Run(insts: seq<Inst>, s: seq<char>, pc: nat, pos: nat, sub: Sub, ready: seq<Thread>, fuel: nat): (r: Outcome)
    requires pos <= |s| && SlotCount(insts) <= |sub| && ThreadsOk(insts, s, |sub|, ready)
    ensures r.Found? ==> |r.sub| == |sub|
    decreases fuel, 0
  {
    if fuel == 0 then OutOfFuel
    else if pc >= |insts| then NotFound
    else match insts[pc]
      case Char(c) =>
        if pos < |s| && s[pos] == c then Run(insts, s, pc + 1, pos + 1, sub, ready, fuel - 1)
        else Resume(insts, s, |sub|, ready, fuel - 1)
      case Any =>
        if pos < |s| then Run(insts, s, pc + 1, pos + 1, sub, ready, fuel - 1)
        else Resume(insts, s, |sub|, ready, fuel - 1)
      case Match => Found(sub)
      case Jmp(x) => Run(insts, s, x, pos, sub, ready, fuel - 1)
      case Split(x, y) =>
        if |ready| >= MAX_THREADS then Overflow
        else Run(insts, s, x, pos, sub, ready + [Thread(y, ByteLen(s[..pos]), pos, sub)], fuel - 1)
      case Save(n) =>
        SaveBelowSlotCount(insts, pc);
        Run(insts, s, pc + 1, pos, Update(sub, n, ByteLen(s[..pos])), ready, fuel - 1)
  }

  /** Pop the most recently deferred thread and run it; an empty stack means no match. */
  ghost function Resume(insts: seq<Inst>, s: seq<char>, width: nat, ready: seq<Thread>, fuel: nat): (r: Outcome)
    requires ThreadsOk(insts, s, width, ready)
    ensures r.Found? ==> |r.sub| == width
    decreases fuel, 1
  {
    if ready == [] then NotFound
    else
      var t := ready[|ready| - 1];
      Run(insts, s, t.pc, t.pos, t.sub, ready[..|ready| - 1], fuel)
  }

  lemma ThreadsOkPop(insts: seq<Inst>, s: seq<char>, width: nat, ready: seq<Thread>)
    requires ThreadsOk(insts, s, width, ready) && ready != []
    ensures ThreadOk(insts, s, width, ready[|ready| - 1])
    ensures ThreadsOk(insts, s, width, ready[..|ready| - 1])
  {
  }

  lemma ThreadsOkPush(insts: seq<Inst>, s: seq<char>, width: nat, ready: seq<Thread>, t: Thread)
    requires ThreadsOk(insts, s, width, ready) && ThreadOk(insts, s, width, t)
    ensures ThreadsOk(insts, s, width, ready + [t])
  {
  }

  /**
   * `match_backtrack`: start one thread at instruction 0 and the cursor's
   * offset with every slot unset, and run threads until one reaches
   * `Match` (whose captures are copied out), the instruction pointer leaves
   * the program, or the stack runs dry. The stack never holds more than
   * `MAX_THREADS` threads.
   */
  method MatchBacktrack(vm: VM, subOut: Sub, fuel: nat) returns (r: Outcome, out: Sub)
    requires vm.Valid() && SlotCount(vm.insts) <= |subOut|
    modifies vm
    ensures r == Resume(vm.insts, vm.s, |subOut|, [Thread(0, old(vm.offset), old(vm.pos), NewSub(|subOut|))], fuel)
    ensures out == if r.Found? then r.sub else subOut
  {
    var width := |subOut|;
    var ready := [Thread(0, vm.offset, vm.pos, NewSub(width))];
    var left: nat := fuel;
    ghost var goal := Resume(vm.insts, vm.s, width, ready, left);
    while ready != []
      invariant ThreadsOk(vm.insts, vm.s, width, ready) && |ready| <= MAX_THREADS
      invariant Resume(vm.insts, vm.s, width, ready, left) == goal
      decreases left, |ready|
    {
      ThreadsOkPop(vm.insts, vm.s, width, ready);
      var thread := ready[|ready| - 1];
      ready := ready[..|ready| - 1];
      vm.SetPc(thread.pc);
      vm.SetOffset(thread.offset, thread.pos);
      var sub := thread.sub;
      ghost var left0 := left;
      while true
        invariant vm.Valid() && |sub| == width
        invariant ThreadsOk(vm.insts, vm.s, width, ready) && |ready| <= MAX_THREADS
        invariant Run(vm.insts, vm.s, vm.pc, vm.pos, sub, ready, left) == goal
        invariant left <= left0
        decreases left
      {
        if left == 0 {
          return OutOfFuel, subOut;
        }
        left := left - 1;
        var inst := vm.NextInst();
        if inst.None? {
          return NotFound, subOut;
        }
        match inst.value
        case Char(c) =>
          var ch := vm.NextChar();
          if ch != Some(c) {
            break;
          }
        case Any =>
          var ch := vm.NextChar();
          if ch.None? {
            break;
          }
        case Match =>
          return Found(sub), sub;
        case Jmp(x) =>
          vm.SetPc(x);
        case Split(x, y) =>
          if |ready| >= MAX_THREADS {
            return Overflow, subOut;
          }
          ThreadsOkPush(vm.insts, vm.s, width, ready, Thread(y, vm.offset, vm.pos, sub));
          ready := ready + [Thread(y, vm.offset, vm.pos, sub)];
          vm.SetPc(x);
        case Save(n) =>
          SaveBelowSlotCount(vm.insts, vm.pc - 1);
          sub := Update(sub, n, vm.offset);
      }
      assert left < left0;
    }
    r, out := NotFound, subOut;
  }

  /**
   * What the backtracker does after the recursive engine's run `r` of the
   * running thread: stop on a match or when out of steps, otherwise resume
   * the deferred threads with the steps left.
   */
  ghost function Continue(insts: seq<Inst>, s: seq<char>, width: nat, r: Recursive.Run, ready: seq<Thread>): Outcome
    requires ThreadsOk(insts, s, width, ready)
  {
    match r
    case Exhausted => OutOfFuel
    case Done(matched, sub, left) => if matched then Found(sub) else Resume(insts, s, width, ready, left)
  }

  /**
   * On a well-formed program the stack machine runs exactly as the
   * recursive engine, whenever its stack does not overflow: the running
   * thread's search is `Rec`, and a failure goes on with the deferred
   * threads.
   */
  lemma {:induction false} RunIsRec(insts: seq<Inst>, s: seq<char>, pc: nat, pos: nat, sub: Sub, ready: seq<Thread>, fuel: nat)
    requires WellFormed(insts) && pc < |insts| && pos <= |s| && SlotCount(insts) <= |sub|
    requires ThreadsOk(insts, s, |sub|, ready)
    requires !Run(insts, s, pc, pos, sub, ready, fuel).Overflow?
    ensures Run(insts, s, pc, pos, sub, ready, fuel) == Continue(insts, s, |sub|, Recursive.Rec(insts, s, pc, pos, sub, fuel), ready)
    decreases fuel, 1
  {
    if fuel > 0 {
      match insts[pc]
      case Char(c) =>
        SuccessorInRange(insts, pc);
        if pos < |s| && s[pos] == c {
          RunIsRec(insts, s, pc + 1, pos + 1, sub, ready, fuel - 1);
        }
      case Any =>
        SuccessorInRange(insts, pc);
        if pos < |s| {
          RunIsRec(insts, s, pc + 1, pos + 1, sub, ready, fuel - 1);
        }
      case Match =>
      case Jmp(x) =>
        assert TargetsBelow(insts[pc], |insts|);
        RunIsRec(insts, s, x, pos, sub, ready, fuel - 1);
      case Split(_, _) =>
        RunIsRecSplit(insts, s, pc, pos, sub, ready, fuel);
      case Save(_) =>
        RunIsRecSave(insts, s, pc, pos, sub, ready, fuel);
    }
  }

  lemma {:induction false} RunIsRecSplit(insts: seq<Inst>, s: seq<char>, pc: nat, pos: nat, sub: Sub, ready: seq<Thread>, fuel: nat)
    requires WellFormed(insts) && pc < |insts| && pos <= |s| && SlotCount(insts) <= |sub|
    requires ThreadsOk(insts, s, |sub|, ready)
    requires fuel > 0 && insts[pc].Split?
    requires !Run(insts, s, pc, pos, sub, ready, fuel).Overflow?
    ensures Run(insts, s, pc, pos, sub, ready, fuel) == Continue(insts, s, |sub|, Recursive.Rec(insts, s, pc, pos, sub, fuel), ready)
    decreases fuel, 0
  {
    var x, y := insts[pc].x, insts[pc].y;
    assert TargetsBelow(insts[pc], |insts|);
    var t := Thread(y, ByteLen(s[..pos]), pos, sub);
    ThreadsOkPush(insts, s, |sub|, ready, t);
    var first := Recursive.Rec(insts, s, x, pos, sub, fuel - 1);
    RunIsRec(insts, s, x, pos, sub, ready + [t], fuel - 1);
    if first.Done? && !first.matched {
      assert (ready + [t])[..|ready|] == ready;
      RunIsRec(insts, s, y, pos, sub, ready, first.fuel);
    }
  }

  lemma {:induction false} RunIsRecSave(insts: seq<Inst>, s: seq<char>, pc: nat, pos: nat, sub: Sub, ready: seq<Thread>, fuel: nat)
    requires WellFormed(insts) && pc < |insts| && pos <= |s| && SlotCount(insts) <= |sub|
    requires ThreadsOk(insts, s, |sub|, ready)
    requires fuel > 0 && insts[pc].Save?
    requires !Run(insts, s, pc, pos, sub, ready, fuel).Overflow?
    ensures Run(insts, s, pc, pos, sub, ready, fuel) == Continue(insts, s, |sub|, Recursive.Rec(insts, s, pc, pos, sub, fuel), ready)
    decreases fuel, 0
  {
    SaveBelowSlotCount(insts, pc);
    SuccessorInRange(insts, pc);
    RunIsRec(insts, s, pc + 1, pos, Update(sub, insts[pc].n, ByteLen(s[..pos])), ready, fuel - 1);
  }

  /**
   * `match_backtrack` and `match_recursive` agree on well-formed programs
   * when the stack does not overflow: started at instruction 0 with every
   * slot unset, the backtracker finds a match exactly when the recursive
   * engine does, with the same captures, and runs out of steps exactly
   * when it does.
   */
  lemma BacktrackAgreesWithRecursive(insts: seq<Inst>, s: seq<char>, pos: nat, width: nat, fuel: nat)
    requires WellFormed(insts) && pos <= |s| && SlotCount(insts) <= width
    requires !Resume(insts, s, width, [Thread(0, ByteLen(s[..pos]), pos, NewSub(width))], fuel).Overflow?
    ensures var b := Resume(insts, s, width, [Thread(0, ByteLen(s[..pos]), pos, NewSub(width))], fuel);
      var r := Recursive.Rec(insts, s, 0, pos, NewSub(width), fuel);
      (b.Found? <==> r.Done? && r.matched) && (b.Found? ==> b.sub == r.sub) &&
      (b.NotFound? <==> r.Done? && !r.matched) && (b.OutOfFuel? <==> r.Exhausted?)
  {
    var t := Thread(0, ByteLen(s[..pos]), pos, NewSub(width));
    assert [t][..0] == [];
    RunIsRec(insts, s, 0, pos, NewSub(width), [], fuel);
  }
}
