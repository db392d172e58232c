/**
 * The Thompson NFA simulation of src/thompson.rs: the program runs as a
 * list of threads (bare pcs), one generation per input char, each
 * generation closed under Jmp, Split and Save by `add_thread`, with a
 * `visited` mark per instruction so that a pc enters a generation once.
 */
module Thompson {
  import opened Options
  import opened Utf8
  import opened Syntax
  import opened Captures
  import opened Cursor
  import opened Marks

  /** Every listed pc is an instruction of the program. */
  predicate InRange(insts: seq<Inst>, l: seq<nat>)
  {
    forall k :: 0 <= k < |l| ==> l[k] < |insts|
  }

  /**
   * `add_thread(l, pc, visited)`: a visited pc adds nothing; otherwise pc
   * is marked and listed, then the closure goes on to the Jmp target, to
   * both Split targets (x first) or past a Save.
   */
  function Closure(insts: seq<Inst>, v: seq<bool>, pc: nat, l: seq<nat>): (r: (seq<nat>, seq<bool>))
    requires WellFormed(insts) && |v| == |insts| && pc < |insts|
    ensures |r.1| == |v| && Unmarked(r.1) <= Unmarked(v)
    decreases Unmarked(v)
  {
    if v[pc] then (l, v)
    else
      var v1 := v[pc := true];
      var l1 := l + [pc];
      MarkOne(v, pc);
      match insts[pc]
      case Jmp(x) =>
        assert TargetsBelow(insts[pc], |insts|);
        Closure(insts, v1, x, l1)
      case Split(x, y) =>
        assert TargetsBelow(insts[pc], |insts|);
        var a := Closure(insts, v1, x, l1);
        Closure(insts, a.1, y, a.0)
      case Save(_) =>
        SuccessorInRange(insts, pc);
        Closure(insts, v1, pc + 1, l1)
      case _ => (l1, v1)
  }

  /**
   * A closure only adds marks, keeps the list it is given as a prefix and
   * lists each newly marked pc once; a pc not yet visited comes first.
   */
  lemma {:induction false} ClosureGrows(insts: seq<Inst>, v: seq<bool>, pc: nat, l: seq<nat>)
    requires WellFormed(insts) && |v| == |insts| && pc < |insts|
    ensures var r := Closure(insts, v, pc, l); Grows(l, v, r.0, r.1)
    ensures v[pc] ==> Closure(insts, v, pc, l) == (l, v)
    ensures !v[pc] ==> |Closure(insts, v, pc, l).0| > |l| && Closure(insts, v, pc, l).0[|l|] == pc
    decreases Unmarked(v), 1
  {
    if v[pc] {
      GrowsRefl(l, v);
    } else {
      match insts[pc]
      case Jmp(_) => ClosureGrowsJmp(insts, v, pc, l);
      case Split(_, _) => ClosureGrowsSplit(insts, v, pc, l);
      case Save(_) => ClosureGrowsSave(insts, v, pc, l);
      case Char(_) => GrowsMark(l, v, pc, true);
      case Any => GrowsMark(l, v, pc, true);
      case Match => GrowsMark(l, v, pc, true);
    }
  }

  lemma {:induction false} ClosureGrowsJmp(insts: seq<Inst>, v: seq<bool>, pc: nat, l: seq<nat>)
    requires WellFormed(insts) && |v| == |insts| && pc < |insts| && !v[pc] && insts[pc].Jmp?
    ensures var r := Closure(insts, v, pc, l); Grows(l, v, r.0, r.1)
    ensures |Closure(insts, v, pc, l).0| > |l| && Closure(insts, v, pc, l).0[|l|] == pc
    decreases Unmarked(v), 0
  {
    var v1, l1 := v[pc := true], l + [pc];
    MarkOne(v, pc);
    GrowsMark(l, v, pc, true);
    assert TargetsBelow(insts[pc], |insts|);
    var r := Closure(insts, v1, insts[pc].x, l1);
    assert Closure(insts, v, pc, l) == r;
    ClosureGrows(insts, v1, insts[pc].x, l1);
    GrowsTrans(l, v, l1, v1, r.0, r.1);
    assert r.0[..|l1|][|l|] == pc;
  }

  lemma {:induction false} ClosureGrowsSplit(insts: seq<Inst>, v: seq<bool>, pc: nat, l: seq<nat>)
    requires WellFormed(insts) && |v| == |insts| && pc < |insts| && !v[pc] && insts[pc].Split?
    ensures var r := Closure(insts, v, pc, l); Grows(l, v, r.0, r.1)
    ensures |Closure(insts, v, pc, l).0| > |l| && Closure(insts, v, pc, l).0[|l|] == pc
    decreases Unmarked(v), 0
  {
    var v1, l1 := v[pc := true], l + [pc];
    MarkOne(v, pc);
    GrowsMark(l, v, pc, true);
    assert TargetsBelow(insts[pc], |insts|);
    var a := Closure(insts, v1, insts[pc].x, l1);
    var r := Closure(insts, a.1, insts[pc].y, a.0);
    assert Closure(insts, v, pc, l) == r;
    ClosureGrows(insts, v1, insts[pc].x, l1);
    ClosureGrows(insts, a.1, insts[pc].y, a.0);
    GrowsTrans(l, v, l1, v1, a.0, a.1);
    GrowsTrans(l, v, a.0, a.1, r.0, r.1);
    assert r.0[..|a.0|][..|l1|][|l|] == pc;
  }

  lemma {:induction false} ClosureGrowsSave(insts: seq<Inst>, v: seq<bool>, pc: nat, l: seq<nat>)
    requires WellFormed(insts) && |v| == |insts| && pc < |insts| && !v[pc] && insts[pc].Save?
    ensures var r := Closure(insts, v, pc, l); Grows(l, v, r.0, r.1)
    ensures |Closure(insts, v, pc, l).0| > |l| && Closure(insts, v, pc, l).0[|l|] == pc
    decreases Unmarked(v), 0
  {
    var v1, l1 := v[pc := true], l + [pc];
    MarkOne(v, pc);
    GrowsMark(l, v, pc, true);
    SuccessorInRange(insts, pc);
    var r := Closure(insts, v1, pc + 1, l1);
    assert Closure(insts, v, pc, l) == r;
    ClosureGrows(insts, v1, pc + 1, l1);
    GrowsTrans(l, v, l1, v1, r.0, r.1);
    assert r.0[..|l1|][|l|] == pc;
  }

  /**
   * Draining generation `ts` against the char `ch` just read (None at the
   * end of the input): a Char thread that matches `ch`, or an Any thread
   * when there is a char, closes `pc + 1` into `next`; the first Match
   * thread stops the drain and reports a hit; Jmp, Split and Save threads
   * do nothing here.
   */
  function Step(insts: seq<Inst>, ch: Option<char>, ts: seq<nat>, next: seq<nat>, v: seq<bool>): (seq<nat>, seq<bool>, bool)
    requires WellFormed(insts) && |v| == |insts| && InRange(insts, ts)
    decreases |ts|
  {
    if ts == [] then (next, v, false)
    else
      var pc := ts[0];
      var rest := ts[1..];
      match insts[pc]
      case Char(c) =>
        if ch == Some(c) then
          SuccessorInRange(insts, pc);
          var a := Closure(insts, v, pc + 1, next);
          Step(insts, ch, rest, a.0, a.1)
        else Step(insts, ch, rest, next, v)
      case Any =>
        if ch.Some? then
          SuccessorInRange(insts, pc);
          var a := Closure(insts, v, pc + 1, next);
          Step(insts, ch, rest, a.0, a.1)
        else Step(insts, ch, rest, next, v)
      case Match => (next, v, true)
      case _ => Step(insts, ch, rest, next, v)
  }

  /** Draining a generation only adds to `next` the way a closure does. */
  lemma {:induction false} StepGrows(insts: seq<Inst>, ch: Option<char>, ts: seq<nat>, next: seq<nat>, v: seq<bool>)
    requires WellFormed(insts) && |v| == |insts| && InRange(insts, ts)
    ensures var r := Step(insts, ch, ts, next, v); Grows(next, v, r.0, r.1)
    decreases |ts|
  {
    if ts == [] {
      GrowsRefl(next, v);
    } else {
      var pc := ts[0];
      if insts[pc].Match? {
        GrowsRefl(next, v);
      } else if (insts[pc].Char? && ch == Some(insts[pc].c)) || (insts[pc].Any? && ch.Some?) {
        SuccessorInRange(insts, pc);
        var a := Closure(insts, v, pc + 1, next);
        ClosureGrows(insts, v, pc + 1, next);
        StepGrows(insts, ch, ts[1..], a.0, a.1);
        var b := Step(insts, ch, ts[1..], a.0, a.1);
        GrowsTrans(next, v, a.0, a.1, b.0, b.1);
      } else {
        StepGrows(insts, ch, ts[1..], next, v);
      }
    }
  }

  /** The verdict, the capture store and the chars consumed when the loop stops. */
  datatype End = End(matched: bool, sub: Sub, pos: nat)

  /**
   * The main loop from generation `curr` with `pos` chars consumed: read
   * the next char (the offset moves past it even when the loop then
   * stops), stop on an empty generation, drain it into the next one (a
   * hit records the offset before the char in slot 1), and stop after the
   * end-of-input round.
   */
  function Run(insts: seq<Inst>, s: seq<char>, pos: nat, curr: seq<nat>, matched: bool, sub: Sub): (r: End)
    requires WellFormed(insts) && pos <= |s| && InRange(insts, curr)
    ensures matched ==> r.matched
    ensures |r.sub| == |sub| && pos <= r.pos <= |s|
    decreases |s| - pos
  {
    var offset := ByteLen(s[..pos]);
    var ch := if pos < |s| then Some(s[pos]) else None;
    var pos1 := if pos < |s| then pos + 1 else pos;
    if curr == [] then End(matched, sub, pos1)
    else
      StepGrows(insts, ch, curr, [], AllClear(|insts|));
      var st := Step(insts, ch, curr, [], AllClear(|insts|));
      var sub1 := if st.2 && |sub| >= 2 then sub[1 := Some(offset)] else sub;
      if ch.None? then End(matched || st.2, sub1, pos1)
      else Run(insts, s, pos1, st.0, matched || st.2, sub1)
  }

  /** The store after `sub_out.reset()` and, when there is a slot 0, `set(0, 0)`. */
  function Start(width: nat): (sub: Sub)
    ensures |sub| == width
    ensures width >= 1 ==> sub[0] == Some(0)
    ensures forall i :: 1 <= i < width ==> sub[i].None?
  {
    if width >= 1 then NewSub(width)[0 := Some(0)] else NewSub(width)
  }

  /** The first generation: the closure of pc 0 with every mark clear. */
  function First(insts: seq<Inst>): (l: seq<nat>)
    requires WellFormed(insts)
    ensures InRange(insts, l)
  {
    ClosureGrows(insts, AllClear(|insts|), 0, []);
    Closure(insts, AllClear(|insts|), 0, []).0
  }

  /** `add_thread`, marking the shared `visited` array as it recurses. */
  method AddThread(insts: seq<Inst>, l: seq<nat>, pc: nat, visited: array<bool>) returns (l2: seq<nat>)
    requires WellFormed(insts) && visited.Length == |insts| && pc < |insts|
    modifies visited
    ensures (l2, visited[..]) == Closure(insts, old(visited[..]), pc, l)
    decreases Unmarked(visited[..])
  {
    if visited[pc] {
      return l;
    }
    ghost var v0 := visited[..];
    visited[pc] := true;
    assert visited[..] == v0[pc := true];
    MarkOne(v0, pc);
    l2 := l + [pc];
    match insts[pc] {
      case Jmp(x) =>
        assert TargetsBelow(insts[pc], |insts|);
        l2 := AddThread(insts, l2, x, visited);
      case Split(x, y) =>
        assert TargetsBelow(insts[pc], |insts|);
        l2 := AddThread(insts, l2, x, visited);
        l2 := AddThread(insts, l2, y, visited);
      case Save(_) =>
        SuccessorInRange(insts, pc);
        l2 := AddThread(insts, l2, pc + 1, visited);
      case _ =>
    }
  }

  /**
   * The `for t in curr_threads.drain(..)` loop of `match_thompsonvm`:
   * the next generation, built in the cleared `visited` marks, and whether
   * a Match thread was reached.
   */
  method Drain(insts: seq<Inst>, ch: Option<char>, curr: seq<nat>, visited: array<bool>) returns (next: seq<nat>, hit: bool)
    requires WellFormed(insts) && visited.Length == |insts| && InRange(insts, curr)
    modifies visited
    ensures Step(insts, ch, curr, [], old(visited[..])) == (next, visited[..], hit)
    ensures InRange(insts, next)
  {
    StepGrows(insts, ch, curr, [], visited[..]);
    ghost var st := Step(insts, ch, curr, [], visited[..]);
    hit := false;
    next := [];
    var i := 0;
    while i < |curr|
      invariant i <= |curr|
      invariant Step(insts, ch, curr[i..], next, visited[..]) == st
      decreases |curr| - i
    {
      var pc := curr[i];
      match insts[pc] {
        case Char(c) =>
          if ch == Some(c) {
            SuccessorInRange(insts, pc);
            next := AddThread(insts, next, pc + 1, visited);
          }
        case Any =>
          if ch.Some? {
            SuccessorInRange(insts, pc);
            next := AddThread(insts, next, pc + 1, visited);
          }
        case Match =>
          hit := true;
          break;
        case _ =>
      }
      i := i + 1;
    }
  }

  /**
   * `match_thompsonvm`: the verdict and the final capture store, as `Run`
   * from the first generation; the loop takes at most one round per char
   * left plus the end-of-input round.
   */
  method MatchThompson(vm: VM, subOut: Sub) returns (matched: bool, out: Sub, ghost rounds: nat)
    requires vm.Valid() && WellFormed(vm.insts)
    modifies vm`offset, vm`pos
    ensures Run(vm.insts, vm.s, old(vm.pos), First(vm.insts), false, Start(|subOut|)) == End(matched, out, vm.pos)
    ensures vm.Valid() && rounds <= |vm.s| - old(vm.pos) + 1
  {
    var visited := new bool[|vm.insts|](_ => false);
    assert visited[..] == AllClear(|vm.insts|);
    var curr := AddThread(vm.insts, [], 0, visited);
    assert curr == First(vm.insts);
    var next: seq<nat> := [];
    out := NewSub(|subOut|);
    if |out| >= 1 {
      out := out[0 := Some(0)];
    }
    matched := false;
    rounds := 0;
    ghost var pos0 := vm.pos;
    ghost var goal := Run(vm.insts, vm.s, vm.pos, curr, matched, out);
    while true
      invariant vm.Valid() && visited.Length == |vm.insts| && InRange(vm.insts, curr)
      invariant Run(vm.insts, vm.s, vm.pos, curr, matched, out) == goal
      invariant pos0 + rounds <= vm.pos
      decreases |vm.s| - vm.pos
    {
      var offset := vm.offset;
      var ch := vm.NextChar();
      rounds := rounds + 1;
      if |curr| == 0 {
        break;
      }
      Clear(visited);
      var hit;
      next, hit := Drain(vm.insts, ch, curr, visited);
      if hit {
        if |out| >= 2 {
          out := out[1 := Some(offset)];
        }
        matched := true;
      }
      curr, next := next, [];
      if ch.None? {
        break;
      }
    }
  }

  /** No generation holds a pc twice, so none is longer than the program. */
  lemma StepGeneration(insts: seq<Inst>, ch: Option<char>, ts: seq<nat>)
    requires WellFormed(insts) && InRange(insts, ts)
    ensures var l := Step(insts, ch, ts, [], AllClear(|insts|)).0;
      |l| <= |insts| && forall j, k :: 0 <= j < k < |l| ==> l[j] != l[k]
  {
    StartRecords(|insts|);
    StepGrows(insts, ch, ts, [], AllClear(|insts|));
    var st := Step(insts, ch, ts, [], AllClear(|insts|));
    GrowsRecords([], AllClear(|insts|), st.0, st.1);
  }

  /** The first generation, too, is duplicate-free and no longer than the program. */
  lemma FirstGeneration(insts: seq<Inst>)
    requires WellFormed(insts)
    ensures var l := First(insts);
      |l| <= |insts| && forall j, k :: 0 <= j < k < |l| ==> l[j] != l[k]
    ensures First(insts) != [] && First(insts)[0] == 0
  {
    StartRecords(|insts|);
    ClosureGrows(insts, AllClear(|insts|), 0, []);
    var r := Closure(insts, AllClear(|insts|), 0, []);
    GrowsRecords([], AllClear(|insts|), r.0, r.1);
  }

  /**
   * The slots the Thompson engine fills: slot 0 holds 0, slot 1 is set
   * exactly when a Match is reached and then holds a char boundary of the
   * input, and every other slot stays unset.
   */
  ghost predicate Slots(s: seq<char>, sub: Sub, matched: bool)
  {
    (|sub| >= 1 ==> sub[0] == Some(0)) &&
    (forall i :: 2 <= i < |sub| ==> sub[i].None?) &&
    (|sub| >= 2 ==> (sub[1].Some? <==> matched) && (sub[1].Some? ==> PrefixEnd(s, sub[1].value)))
  }

  lemma {:induction false} RunSlots(insts: seq<Inst>, s: seq<char>, pos: nat, curr: seq<nat>, matched: bool, sub: Sub)
    requires WellFormed(insts) && pos <= |s| && InRange(insts, curr)
    requires Slots(s, sub, matched)
    ensures var e := Run(insts, s, pos, curr, matched, sub); Slots(s, e.sub, e.matched)
    decreases |s| - pos
  {
    if curr != [] {
      StepGrows(insts, if pos < |s| then Some(s[pos]) else None, curr, [], AllClear(|insts|));
      var st := Step(insts, if pos < |s| then Some(s[pos]) else None, curr, [], AllClear(|insts|));
      var sub1 := if st.2 && |sub| >= 2 then sub[1 := Some(ByteLen(s[..pos]))] else sub;
      assert Slots(s, sub1, matched || st.2);
      if pos < |s| {
        RunSlots(insts, s, pos + 1, st.0, matched || st.2, sub1);
      }
    }
  }

  /**
   * `match_thompsonvm` resets the store and sets slot 0 to 0; on a match it
   * leaves in slot 1 the end of the match, a char boundary, and it never
   * writes any other slot.
   */
  lemma ThompsonSlots(insts: seq<Inst>, s: seq<char>, pos: nat, width: nat)
    requires WellFormed(insts) && pos <= |s|
    ensures var e := Run(insts, s, pos, First(insts), false, Start(width));
      |e.sub| == width && Slots(s, e.sub, e.matched)
  {
    RunSlots(insts, s, pos, First(insts), false, Start(width));
  }

  /** At the end of the input no thread advances, so the next generation stays as it was. */
  lemma {:induction false} StepAtEnd(insts: seq<Inst>, ts: seq<nat>, next: seq<nat>, v: seq<bool>)
    requires WellFormed(insts) && |v| == |insts| && InRange(insts, ts)
    ensures Step(insts, None, ts, next, v).0 == next
    ensures Step(insts, None, ts, next, v).1 == v
    decreases |ts|
  {
    if ts != [] && !insts[ts[0]].Match? {
      StepAtEnd(insts, ts[1..], next, v);
    }
  }
}
