/**
 * The Pike VM of src/pike.rs: the Thompson simulation with a capture store
 * carried by each thread. `add_thread` expands Jmp, Split and Save at once
 * (a Save gives its path an updated store, a Split hands the same store to
 * both branches) and lists only the threads that wait on the input: Char,
 * Any and Match.
 */
module Pike {
  import opened Options
  import opened Utf8
  import opened Syntax
  import opened Captures
  import opened Cursor
  import opened Marks

  /** A thread: a pc and its own capture store. */
  datatype Thread = Thread(pc: nat, sub: Sub)

  /** The pcs of a generation, in order. */
  function Pcs(l: seq<Thread>): (p: seq<nat>)
    ensures |p| == |l| && forall k :: 0 <= k < |l| ==> p[k] == l[k].pc
  {
    seq(|l|, k requires 0 <= k < |l| => l[k].pc)
  }

  /** The instructions `add_thread` lists: the ones that wait on the next char. */
  predicate Stored(inst: Inst)
  {
    inst.Char? || inst.Any? || inst.Match?
  }

  /** Every thread is at an instruction of the program with a store of `width` slots. */
  predicate ThreadsOk(insts: seq<Inst>, width: nat, l: seq<Thread>)
  {
    forall k :: 0 <= k < |l| ==> l[k].pc < |insts| && |l[k].sub| == width
  }

  /**
   * `add_thread(l, Thread(pc, sub), visited, offset)`: a visited pc adds
   * nothing; otherwise pc is marked, and a Jmp goes on to its target, a
   * Split to x and then to y with the same store, a Save past itself with
   * slot n set to `off`; any other instruction is listed with `sub`.
   */
  function Closure(insts: seq<Inst>, v: seq<bool>, pc: nat, sub: Sub, off: nat, l: seq<Thread>): (r: (seq<Thread>, seq<bool>))
    requires WellFormed(insts) && |v| == |insts| && pc < |insts| && SlotCount(insts) <= |sub|
    ensures |r.1| == |v| && Unmarked(r.1) <= Unmarked(v)
    decreases Unmarked(v)
  {
    if v[pc] then (l, v)
    else
      var v1 := v[pc := true];
      MarkOne(v, pc);
      match insts[pc]
      case Jmp(x) =>
        assert TargetsBelow(insts[pc], |insts|);
        Closure(insts, v1, x, sub, off, l)
      case Split(x, y) =>
        assert TargetsBelow(insts[pc], |insts|);
        var a := Closure(insts, v1, x, sub, off, l);
        Closure(insts, a.1, y, sub, off, a.0)
      case Save(n) =>
        SaveBelowSlotCount(insts, pc);
        SuccessorInRange(insts, pc);
        Closure(insts, v1, pc + 1, Update(sub, n, off), off, l)
      case _ => (l + [Thread(pc, sub)], v1)
  }

  /**
   * A thread listed by a closure from store `sub` at offset `off`: it waits
   * on the input, and each of its slots is the one of `sub` or `off`.
   */
  predicate Derived(insts: seq<Inst>, t: Thread, sub: Sub, off: nat)
  {
    t.pc < |insts| && Stored(insts[t.pc]) && |t.sub| == |sub| &&
    forall i :: 0 <= i < |sub| ==> t.sub[i] == sub[i] || t.sub[i] == Some(off)
  }

  /** What a closure does to `l`: keep it as a prefix and add only threads derived from `sub`. */
  predicate Adds(insts: seq<Inst>, l: seq<Thread>, l2: seq<Thread>, sub: Sub, off: nat)
  {
    |l| <= |l2| && l2[..|l|] == l && forall k :: |l| <= k < |l2| ==> Derived(insts, l2[k], sub, off)
  }

  lemma AddsTrans(insts: seq<Inst>, l: seq<Thread>, l1: seq<Thread>, l2: seq<Thread>, sub: Sub, off: nat)
    requires Adds(insts, l, l1, sub, off) && Adds(insts, l1, l2, sub, off)
    ensures Adds(insts, l, l2, sub, off)
  {
    assert l2[..|l|] == l2[..|l1|][..|l|];
    forall k | |l| <= k < |l1|
      ensures l2[k] == l1[k]
    {
      assert l2[..|l1|][k] == l2[k];
    }
  }

  /** Threads derived from the store a Save made are derived from the store before it. */
  lemma AddsSave(insts: seq<Inst>, l: seq<Thread>, l2: seq<Thread>, sub: Sub, n: nat, off: nat)
    requires n < |sub| && Adds(insts, l, l2, Update(sub, n, off), off)
    ensures Adds(insts, l, l2, sub, off)
  {
  }

  /**
   * A closure only adds marks and lists each newly marked pc at most once
   * (so a generation has no pc twice); it keeps the list it is given and
   * adds only waiting threads whose stores differ from `sub` only in slots
   * set to `off`, so a Save on one branch of a Split never reaches the
   * other.
   */
  lemma {:induction false} ClosureGrows(insts: seq<Inst>, v: seq<bool>, pc: nat, sub: Sub, off: nat, l: seq<Thread>)
    requires WellFormed(insts) && |v| == |insts| && pc < |insts| && SlotCount(insts) <= |sub|
    ensures var r := Closure(insts, v, pc, sub, off, l);
      Grows(Pcs(l), v, Pcs(r.0), r.1) && Adds(insts, l, r.0, sub, off)
    decreases Unmarked(v)
  {
    var r := Closure(insts, v, pc, sub, off, l);
    if v[pc] {
      GrowsRefl(Pcs(l), v);
      assert l[..|l|] == l;
    } else {
      var v1 := v[pc := true];
      MarkOne(v, pc);
      match insts[pc]
      case Jmp(x) =>
        assert TargetsBelow(insts[pc], |insts|);
        GrowsMark(Pcs(l), v, pc, false);
        ClosureGrows(insts, v1, x, sub, off, l);
        GrowsTrans(Pcs(l), v, Pcs(l), v1, Pcs(r.0), r.1);
      case Split(x, y) =>
        assert TargetsBelow(insts[pc], |insts|);
        GrowsMark(Pcs(l), v, pc, false);
        var a := Closure(insts, v1, x, sub, off, l);
        ClosureGrows(insts, v1, x, sub, off, l);
        ClosureGrows(insts, a.1, y, sub, off, a.0);
        GrowsTrans(Pcs(l), v, Pcs(l), v1, Pcs(a.0), a.1);
        GrowsTrans(Pcs(l), v, Pcs(a.0), a.1, Pcs(r.0), r.1);
        AddsTrans(insts, l, a.0, r.0, sub, off);
      case Save(n) =>
        SaveBelowSlotCount(insts, pc);
        SuccessorInRange(insts, pc);
        GrowsMark(Pcs(l), v, pc, false);
        ClosureGrows(insts, v1, pc + 1, Update(sub, n, off), off, l);
        GrowsTrans(Pcs(l), v, Pcs(l), v1, Pcs(r.0), r.1);
        AddsSave(insts, l, r.0, sub, n, off);
      case Char(_) => ListOne(insts, v, pc, sub, off, l);
      case Any => ListOne(insts, v, pc, sub, off, l);
      case Match => ListOne(insts, v, pc, sub, off, l);
    }
  }

  lemma ListOne(insts: seq<Inst>, v: seq<bool>, pc: nat, sub: Sub, off: nat, l: seq<Thread>)
    requires pc < |insts| && |v| == |insts| && !v[pc] && Stored(insts[pc])
    ensures Grows(Pcs(l), v, Pcs(l + [Thread(pc, sub)]), v[pc := true])
    ensures Adds(insts, l, l + [Thread(pc, sub)], sub, off)
  {
    GrowsMark(Pcs(l), v, pc, true);
    assert Pcs(l + [Thread(pc, sub)]) == Pcs(l) + [pc];
    assert (l + [Thread(pc, sub)])[..|l|] == l;
  }

  /** A listed thread: at a waiting instruction, with a store of `width` slots. */
  predicate Waiting(insts: seq<Inst>, width: nat, t: Thread)
  {
    t.pc < |insts| && Stored(insts[t.pc]) && |t.sub| == width
  }

  /** `l2` is `l` followed by waiting threads only. */
  predicate Extends(insts: seq<Inst>, width: nat, l: seq<Thread>, l2: seq<Thread>)
  {
    |l| <= |l2| && l2[..|l|] == l && forall k :: |l| <= k < |l2| ==> Waiting(insts, width, l2[k])
  }

  lemma ExtendsTrans(insts: seq<Inst>, width: nat, l: seq<Thread>, l1: seq<Thread>, l2: seq<Thread>)
    requires Extends(insts, width, l, l1) && Extends(insts, width, l1, l2)
    ensures Extends(insts, width, l, l2)
  {
    assert l2[..|l|] == l2[..|l1|][..|l|];
    forall k | |l| <= k < |l1|
      ensures l2[k] == l1[k]
    {
      assert l2[..|l1|][k] == l2[k];
    }
  }

  /**
   * Draining generation `ts` against the char `ch` just read, closing
   * successors at `off`, the offset after it: like the Thompson drain, but
   * a successor keeps the store of the thread it came from, and the first
   * Match thread hands back its store.
   */
  function Step(insts: seq<Inst>, width: nat, ch: Option<char>, off: nat, ts: seq<Thread>, next: seq<Thread>, v: seq<bool>): (seq<Thread>, seq<bool>, Option<Sub>)
    requires WellFormed(insts) && SlotCount(insts) <= width && |v| == |insts| && ThreadsOk(insts, width, ts)
    decreases |ts|
  {
    if ts == [] then (next, v, None)
    else
      var t := ts[0];
      var rest := ts[1..];
      match insts[t.pc]
      case Char(c) =>
        if ch == Some(c) then
          SuccessorInRange(insts, t.pc);
          var a := Closure(insts, v, t.pc + 1, t.sub, off, next);
          Step(insts, width, ch, off, rest, a.0, a.1)
        else Step(insts, width, ch, off, rest, next, v)
      case Any =>
        if ch.Some? then
          SuccessorInRange(insts, t.pc);
          var a := Closure(insts, v, t.pc + 1, t.sub, off, next);
          Step(insts, width, ch, off, rest, a.0, a.1)
        else Step(insts, width, ch, off, rest, next, v)
      case Match => (next, v, Some(t.sub))
      case _ => Step(insts, width, ch, off, rest, next, v)
  }

  /** Draining only adds to `next` what closures add: waiting threads of the same width. */
  lemma {:induction false} StepGrows(insts: seq<Inst>, width: nat, ch: Option<char>, off: nat, ts: seq<Thread>, next: seq<Thread>, v: seq<bool>)
    requires WellFormed(insts) && SlotCount(insts) <= width && |v| == |insts| && ThreadsOk(insts, width, ts)
    ensures var r := Step(insts, width, ch, off, ts, next, v);
      Grows(Pcs(next), v, Pcs(r.0), r.1) && Extends(insts, width, next, r.0) &&
      (r.2.Some? ==> |r.2.value| == width)
    decreases |ts|, 1
  {
    var r := Step(insts, width, ch, off, ts, next, v);
    if ts == [] || insts[ts[0].pc].Match? {
      GrowsRefl(Pcs(next), v);
      assert next[..|next|] == next;
    } else {
      var t := ts[0];
      if (insts[t.pc].Char? && ch == Some(insts[t.pc].c)) || (insts[t.pc].Any? && ch.Some?) {
        StepGrowsConsume(insts, width, ch, off, ts, next, v);
      } else {
        StepGrows(insts, width, ch, off, ts[1..], next, v);
      }
    }
  }

  /** The case of `StepGrows` where the first thread consumes `ch`. */
  lemma {:induction false} StepGrowsConsume(insts: seq<Inst>, width: nat, ch: Option<char>, off: nat, ts: seq<Thread>, next: seq<Thread>, v: seq<bool>)
    requires WellFormed(insts) && SlotCount(insts) <= width && |v| == |insts| && ThreadsOk(insts, width, ts)
    requires ts != [] && ((insts[ts[0].pc].Char? && ch == Some(insts[ts[0].pc].c)) || (insts[ts[0].pc].Any? && ch.Some?))
    ensures var r := Step(insts, width, ch, off, ts, next, v);
      Grows(Pcs(next), v, Pcs(r.0), r.1) && Extends(insts, width, next, r.0) &&
      (r.2.Some? ==> |r.2.value| == width)
    decreases |ts|, 0
  {
    var t := ts[0];
    var r := Step(insts, width, ch, off, ts, next, v);
    SuccessorInRange(insts, t.pc);
    var a := Closure(insts, v, t.pc + 1, t.sub, off, next);
    ClosureGrows(insts, v, t.pc + 1, t.sub, off, next);
    StepGrows(insts, width, ch, off, ts[1..], a.0, a.1);
    GrowsTrans(Pcs(next), v, Pcs(a.0), a.1, Pcs(r.0), r.1);
    ExtendsTrans(insts, width, next, a.0, r.0);
  }

  /** The verdict (the store of the last Match reached) and the chars consumed when the loop stops. */
  datatype End = End(matched: Option<Sub>, pos: nat)

  /**
   * The main loop from generation `curr` with `pos` chars consumed: read
   * the next char, stop on an empty generation, drain it into the next one
   * at the offset after the char (a Match reached replaces the verdict),
   * and stop after the end-of-input round.
   */
  function Run(insts: seq<Inst>, width: nat, s: seq<char>, pos: nat, curr: seq<Thread>, matched: Option<Sub>): (r: End)
    requires WellFormed(insts) && SlotCount(insts) <= width && pos <= |s| && ThreadsOk(insts, width, curr)
    decreases |s| - pos
  {
    var ch := if pos < |s| then Some(s[pos]) else None;
    var pos1 := if pos < |s| then pos + 1 else pos;
    if curr == [] then End(matched, pos1)
    else
      var off := ByteLen(s[..pos1]);
      StepGrows(insts, width, ch, off, curr, [], AllClear(|insts|));
      var st := Step(insts, width, ch, off, curr, [], AllClear(|insts|));
      var matched1 := if st.2.Some? then st.2 else matched;
      if ch.None? then End(matched1, pos1)
      else Run(insts, width, s, pos1, st.0, matched1)
  }

  /** The first generation: the closure of pc 0 at offset 0 with every slot unset. */
  function First(insts: seq<Inst>, width: nat): (l: seq<Thread>)
    requires WellFormed(insts) && SlotCount(insts) <= width
    ensures ThreadsOk(insts, width, l)
  {
    ClosureGrows(insts, AllClear(|insts|), 0, NewSub(width), 0, []);
    Closure(insts, AllClear(|insts|), 0, NewSub(width), 0, []).0
  }

  /** `add_thread`, marking the shared `visited` array as it recurses. */
  method AddThread(insts: seq<Inst>, l: seq<Thread>, t: Thread, visited: array<bool>, offset: nat) returns (l2: seq<Thread>)
    requires WellFormed(insts) && visited.Length == |insts| && t.pc < |insts| && SlotCount(insts) <= |t.sub|
    modifies visited
    ensures (l2, visited[..]) == Closure(insts, old(visited[..]), t.pc, t.sub, offset, l)
    decreases Unmarked(visited[..])
  {
    var pc := t.pc;
    if visited[pc] {
      return l;
    }
    ghost var v0 := visited[..];
    visited[pc] := true;
    assert visited[..] == v0[pc := true];
    MarkOne(v0, pc);
    match insts[pc] {
      case Jmp(x) =>
        assert TargetsBelow(insts[pc], |insts|);
        l2 := AddThread(insts, l, Thread(x, t.sub), visited, offset);
      case Split(x, y) =>
        assert TargetsBelow(insts[pc], |insts|);
        l2 := AddThread(insts, l, Thread(x, t.sub), visited, offset);
        l2 := AddThread(insts, l2, Thread(y, t.sub), visited, offset);
      case Save(n) =>
        SaveBelowSlotCount(insts, pc);
        SuccessorInRange(insts, pc);
        var sub := Update(t.sub, n, offset);
        l2 := AddThread(insts, l, Thread(pc + 1, sub), visited, offset);
      case _ =>
        l2 := l + [t];
    }
  }

  /**
   * The `for t in curr_threads.drain(..)` loop of `match_pikevm`: the next
   * generation and the store of the Match thread reached, if any.
   */
  method Drain(insts: seq<Inst>, width: nat, ch: Option<char>, offset: nat, curr: seq<Thread>, visited: array<bool>)
    returns (next: seq<Thread>, found: Option<Sub>)
    requires WellFormed(insts) && SlotCount(insts) <= width && visited.Length == |insts| && ThreadsOk(insts, width, curr)
    modifies visited
    ensures Step(insts, width, ch, offset, curr, [], old(visited[..])) == (next, visited[..], found)
    ensures ThreadsOk(insts, width, next)
  {
    StepGrows(insts, width, ch, offset, curr, [], visited[..]);
    ghost var st := Step(insts, width, ch, offset, curr, [], visited[..]);
    found := None;
    next := [];
    var i := 0;
    while i < |curr|
      invariant i <= |curr|
      invariant Step(insts, width, ch, offset, curr[i..], next, visited[..]) == st
      decreases |curr| - i
    {
      var t := curr[i];
      match insts[t.pc] {
        case Char(c) =>
          if ch == Some(c) {
            SuccessorInRange(insts, t.pc);
            next := AddThread(insts, next, Thread(t.pc + 1, t.sub), visited, offset);
          }
        case Any =>
          if ch.Some? {
            SuccessorInRange(insts, t.pc);
            next := AddThread(insts, next, Thread(t.pc + 1, t.sub), visited, offset);
          }
        case Match =>
          found := Some(t.sub);
          break;
        case _ =>
      }
      i := i + 1;
    }
  }

  /** The result of `match_pikevm`: the matching thread's store, or false and every slot unset. */
  function Result(e: End, width: nat): (bool, Sub)
  {
    if e.matched.Some? then (true, e.matched.value) else (false, NewSub(width))
  }

  /** `match_pikevm`: the verdict and the final capture store, as `Run` from the first generation. */
  method MatchPike(vm: VM, subOut: Sub) returns (matched: bool, out: Sub)
    requires vm.Valid() && WellFormed(vm.insts) && SlotCount(vm.insts) <= |subOut|
    modifies vm`offset, vm`pos
    ensures var e := Run(vm.insts, |subOut|, vm.s, old(vm.pos), First(vm.insts, |subOut|), None);
      (matched, out) == Result(e, |subOut|) && vm.pos == e.pos
    ensures vm.Valid()
  {
    var width := |subOut|;
    var visited := new bool[|vm.insts|](_ => false);
    assert visited[..] == AllClear(|vm.insts|);
    out := NewSub(width);
    var curr := AddThread(vm.insts, [], Thread(0, NewSub(width)), visited, 0);
    assert curr == First(vm.insts, width);
    var next: seq<Thread> := [];
    var found: Option<Sub> := None;
    ghost var goal := Run(vm.insts, width, vm.s, vm.pos, curr, found);
    while true
      invariant vm.Valid() && visited.Length == |vm.insts| && ThreadsOk(vm.insts, width, curr)
      invariant Run(vm.insts, width, vm.s, vm.pos, curr, found) == goal
      decreases |vm.s| - vm.pos
    {
      var ch := vm.NextChar();
      if |curr| == 0 {
        break;
      }
      Clear(visited);
      var hit;
      next, hit := Drain(vm.insts, width, ch, vm.offset, curr, visited);
      if hit.Some? {
        found := hit;
      }
      curr, next := next, [];
      if ch.None? {
        break;
      }
    }
    if found.Some? {
      out := found.value;
      matched := true;
    } else {
      matched := false;
    }
  }

  /**
   * A generation lists each pc at most once, so it is no longer than the
   * program, and it holds only Char, Any and Match threads.
   */
  lemma StepGeneration(insts: seq<Inst>, width: nat, ch: Option<char>, off: nat, ts: seq<Thread>)
    requires WellFormed(insts) && SlotCount(insts) <= width && ThreadsOk(insts, width, ts)
    ensures var l := Step(insts, width, ch, off, ts, [], AllClear(|insts|)).0;
      |l| <= |insts| && (forall j, k :: 0 <= j < k < |l| ==> l[j].pc != l[k].pc) &&
      forall k :: 0 <= k < |l| ==> Waiting(insts, width, l[k])
  {
    StartRecords(|insts|);
    StepGrows(insts, width, ch, off, ts, [], AllClear(|insts|));
    var st := Step(insts, width, ch, off, ts, [], AllClear(|insts|));
    GrowsRecords([], AllClear(|insts|), Pcs(st.0), st.1);
    assert Pcs([]) == [];
  }

  /** The first generation, too, is duplicate-free, no longer than the program and waiting only. */
  lemma FirstGeneration(insts: seq<Inst>, width: nat)
    requires WellFormed(insts) && SlotCount(insts) <= width
    ensures var l := First(insts, width);
      |l| <= |insts| && (forall j, k :: 0 <= j < k < |l| ==> l[j].pc != l[k].pc) &&
      forall k :: 0 <= k < |l| ==> Waiting(insts, width, l[k])
  {
    StartRecords(|insts|);
    ClosureGrows(insts, AllClear(|insts|), 0, NewSub(width), 0, []);
    var r := Closure(insts, AllClear(|insts|), 0, NewSub(width), 0, []);
    GrowsRecords([], AllClear(|insts|), Pcs(r.0), r.1);
    assert Pcs([]) == [];
  }

  /** Every set slot of `sub` holds a char boundary of the input. */
  ghost predicate Captured(s: seq<char>, sub: Sub)
  {
    forall i :: 0 <= i < |sub| && sub[i].Some? ==> PrefixEnd(s, sub[i].value)
  }

  ghost predicate AllCaptured(s: seq<char>, l: seq<Thread>)
  {
    forall k :: 0 <= k < |l| ==> Captured(s, l[k].sub)
  }

  lemma ClosureCaptured(insts: seq<Inst>, s: seq<char>, v: seq<bool>, pc: nat, sub: Sub, off: nat, l: seq<Thread>)
    requires WellFormed(insts) && |v| == |insts| && pc < |insts| && SlotCount(insts) <= |sub|
    requires Captured(s, sub) && PrefixEnd(s, off) && AllCaptured(s, l)
    ensures AllCaptured(s, Closure(insts, v, pc, sub, off, l).0)
  {
    ClosureGrows(insts, v, pc, sub, off, l);
    var r := Closure(insts, v, pc, sub, off, l).0;
    forall k | 0 <= k < |r|
      ensures Captured(s, r[k].sub)
    {
      if k < |l| {
        assert r[..|l|][k] == r[k];
      } else {
        assert Derived(insts, r[k], sub, off);
      }
    }
  }

  lemma {:induction false} StepCaptured(insts: seq<Inst>, width: nat, s: seq<char>, ch: Option<char>, off: nat, ts: seq<Thread>, next: seq<Thread>, v: seq<bool>)
    requires WellFormed(insts) && SlotCount(insts) <= width && |v| == |insts| && ThreadsOk(insts, width, ts)
    requires AllCaptured(s, ts) && AllCaptured(s, next) && PrefixEnd(s, off)
    ensures var r := Step(insts, width, ch, off, ts, next, v);
      AllCaptured(s, r.0) && (r.2.Some? ==> Captured(s, r.2.value))
    decreases |ts|
  {
    if ts != [] && !insts[ts[0].pc].Match? {
      var t := ts[0];
      assert Captured(s, t.sub);
      if (insts[t.pc].Char? && ch == Some(insts[t.pc].c)) || (insts[t.pc].Any? && ch.Some?) {
        SuccessorInRange(insts, t.pc);
        ClosureCaptured(insts, s, v, t.pc + 1, t.sub, off, next);
        var a := Closure(insts, v, t.pc + 1, t.sub, off, next);
        StepCaptured(insts, width, s, ch, off, ts[1..], a.0, a.1);
      } else {
        StepCaptured(insts, width, s, ch, off, ts[1..], next, v);
      }
    }
  }

  lemma {:induction false} RunCaptured(insts: seq<Inst>, width: nat, s: seq<char>, pos: nat, curr: seq<Thread>, matched: Option<Sub>)
    requires WellFormed(insts) && SlotCount(insts) <= width && pos <= |s| && ThreadsOk(insts, width, curr)
    requires AllCaptured(s, curr) && (matched.Some? ==> |matched.value| == width && Captured(s, matched.value))
    ensures var m := Run(insts, width, s, pos, curr, matched).matched;
      m.Some? ==> |m.value| == width && Captured(s, m.value)
    decreases |s| - pos
  {
    if curr != [] {
      var ch := if pos < |s| then Some(s[pos]) else None;
      var pos1 := if pos < |s| then pos + 1 else pos;
      var off := ByteLen(s[..pos1]);
      assert PrefixEnd(s, off);
      StepGrows(insts, width, ch, off, curr, [], AllClear(|insts|));
      StepCaptured(insts, width, s, ch, off, curr, [], AllClear(|insts|));
      var st := Step(insts, width, ch, off, curr, [], AllClear(|insts|));
      if pos < |s| {
        RunCaptured(insts, width, s, pos1, st.0, if st.2.Some? then st.2 else matched);
      }
    }
  }

  /**
   * `match_pikevm` leaves `sub_out` with its width; on a match every set
   * slot is a char boundary of the input, and without one every slot is
   * unset.
   */
  lemma PikeCaptures(insts: seq<Inst>, s: seq<char>, pos: nat, width: nat)
    requires WellFormed(insts) && SlotCount(insts) <= width && pos <= |s|
    ensures var res := Result(Run(insts, width, s, pos, First(insts, width), None), width);
      |res.1| == width && Captured(s, res.1) &&
      (!res.0 ==> forall i :: 0 <= i < width ==> res.1[i].None?)
  {
    assert PrefixEnd(s, 0) by {
      assert ByteLen(s[..0]) == 0;
    }
    ClosureCaptured(insts, s, AllClear(|insts|), 0, NewSub(width), 0, []);
    RunCaptured(insts, width, s, pos, First(insts, width), None);
  }
}
