/**
 * The recursive backtracking engines of src/recursive.rs. The Rust
 * functions need not terminate (a program with an empty loop, such as the
 * one for `(a*)*` against "b", recurses forever), so every run here is
 * granted a number of instruction steps: each fetched instruction costs
 * one step, and a `Split` continues its second branch with the steps its
 * first branch left over.
 */
module Recursive {
  import opened Options
  import opened Utf8
  import opened Syntax
  import opened Captures
  import opened Cursor

  /** The outcome of a run: the verdict, the capture store and the steps left, or out of steps. */
  datatype Run = Done(matched: bool, sub: Sub, fuel: nat) | Exhausted

  /**
   * The meaning of `match_recursive` from instruction `pc` with `pos`
   * chars of `s` consumed (at byte offset `ByteLen(s[..pos])`) and capture
   * store `sub`. A failed run hands back the store it
   * was given: each `Save` puts the old slot value back when the rest of
   * the program fails after it.
   */
  function Rec(insts: seq<Inst>, s: seq<char>, pc: nat, pos: nat, sub: Sub, fuel: nat): (r: Run)
    requires pos <= |s|
    ensures r.Done? ==> r.fuel < fuel && |r.sub| == |sub|
    ensures r.Done? && !r.matched ==> r.sub == sub
    decreases fuel
  {
    if fuel == 0 then Exhausted
    else if pc >= |insts| then Done(false, sub, fuel - 1)
    else match insts[pc]
      case Char(c) =>
        if pos < |s| && s[pos] == c then Rec(insts, s, pc + 1, pos + 1, sub, fuel - 1) else Done(false, sub, fuel - 1)
      case Any =>
        if pos < |s| then Rec(insts, s, pc + 1, pos + 1, sub, fuel - 1) else Done(false, sub, fuel - 1)
      case Match => Done(true, sub, fuel - 1)
      case Jmp(x) => Rec(insts, s, x, pos, sub, fuel - 1)
      case Split(x, y) =>
        var first := Rec(insts, s, x, pos, sub, fuel - 1);
        if first.Exhausted? || first.matched then first
        else Rec(insts, s, y, pos, first.sub, first.fuel)
      case Save(n) =>
        if n >= |sub| then Rec(insts, s, pc + 1, pos, sub, fuel - 1)
        else
          var rest := Rec(insts, s, pc + 1, pos, Update(sub, n, ByteLen(s[..pos])), fuel - 1);
          if rest.Exhausted? || rest.matched then rest
          else Done(false, rest.sub[n := sub[n]], rest.fuel)
  }

  /**
   * `match_recursive`: the direct recursive form. A `Split` explores its
   * first branch on a clone of the cursor, so the second branch starts
   * from the same offset. The ensures, that the result is exactly `Rec`
   * from the cursor's pc and offset, is what ties the method to the source;
   * `RecAtSplit` only reads the Split case off `Rec`.
   */
  method MatchRecursive(vm: VM, sub: Sub, fuel: nat) returns (r: Run)
    requires vm.Valid()
    modifies vm
    ensures r == Rec(vm.insts, vm.s, old(vm.pc), old(vm.pos), sub, fuel)
    decreases fuel
  {
    if fuel == 0 {
      return Exhausted;
    }
    var inst := vm.NextInst();
    if inst.None? {
      return Done(false, sub, fuel - 1);
    }
    match inst.value
    case Char(c) =>
      var ch := vm.NextChar();
      if ch.Some? && c == ch.value {
        r := MatchRecursive(vm, sub, fuel - 1);
      } else {
        r := Done(false, sub, fuel - 1);
      }
    case Any =>
      var ch := vm.NextChar();
      if ch.Some? {
        r := MatchRecursive(vm, sub, fuel - 1);
      } else {
        r := Done(false, sub, fuel - 1);
      }
    case Match =>
      r := Done(true, sub, fuel - 1);
    case Jmp(x) =>
      vm.SetPc(x);
      r := MatchRecursive(vm, sub, fuel - 1);
    case Split(x, y) =>
      vm.SetPc(x);
      var branch := vm.Clone();
      var first := MatchRecursive(branch, sub, fuel - 1);
      RecAtSplit(vm.insts, vm.s, old(vm.pc), old(vm.pos), sub, fuel);
      if first.Exhausted? || first.matched {
        return first;
      }
      vm.SetPc(y);
      r := MatchRecursive(vm, first.sub, first.fuel);
    case Save(n) =>
      if n >= |sub| {
        r := MatchRecursive(vm, sub, fuel - 1);
        return;
      }
      var saved := sub[n];
      var rest := MatchRecursive(vm, Update(sub, n, vm.offset), fuel - 1);
      RecAtSave(vm.insts, vm.s, old(vm.pc), old(vm.pos), sub, fuel);
      if rest.Exhausted? || rest.matched {
        return rest;
      }
      r := Done(false, rest.sub[n := saved], rest.fuel);
  }

  /**
   * `match_recursive_loop`: the same search with the tail calls turned
   * into a loop; only the first branch of a `Split` and the rest of the
   * program after a `Save` still recurse.
   */
  method MatchRecursiveLoop(vm: VM, sub: Sub, fuel: nat) returns (r: Run)
    requires vm.Valid()
    modifies vm
    ensures r == Rec(vm.insts, vm.s, old(vm.pc), old(vm.pos), sub, fuel)
    decreases fuel
  {
    ghost var goal := Rec(vm.insts, vm.s, vm.pc, vm.pos, sub, fuel);
    var cur, left := sub, fuel;
    while left > 0
      invariant vm.Valid()
      invariant Rec(vm.insts, vm.s, vm.pc, vm.pos, cur, left) == goal
      decreases left
    {
      left := left - 1;
      var inst := vm.NextInst();
      if inst.None? {
        return Done(false, cur, left);
      }
      match inst.value
      case Char(c) =>
        var ch := vm.NextChar();
        if ch != Some(c) {
          return Done(false, cur, left);
        }
      case Any =>
        var ch := vm.NextChar();
        if ch.None? {
          return Done(false, cur, left);
        }
      case Match =>
        return Done(true, cur, left);
      case Jmp(x) =>
        vm.SetPc(x);
      case Split(x, y) =>
        RecAtSplit(vm.insts, vm.s, vm.pc - 1, vm.pos, cur, left + 1);
        vm.SetPc(x);
        var branch := vm.Clone();
        var first := MatchRecursiveLoop(branch, cur, left);
        if first.Exhausted? || first.matched {
          return first;
        }
        vm.SetPc(y);
        cur, left := first.sub, first.fuel;
      case Save(n) =>
        if n < |cur| {
          var saved := cur[n];
          RecAtSave(vm.insts, vm.s, vm.pc - 1, vm.pos, cur, left + 1);
          var rest := MatchRecursiveLoop(vm, Update(cur, n, vm.offset), left);
          if rest.Exhausted? || rest.matched {
            return rest;
          }
          return Done(false, rest.sub[n := saved], rest.fuel);
        }
    }
    r := Exhausted;
  }

  /** `Rec` at a `Split`: the second branch runs only when the first fails, with what it left. */
  lemma RecAtSplit(insts: seq<Inst>, s: seq<char>, pc: nat, pos: nat, sub: Sub, fuel: nat)
    requires pos <= |s| && fuel > 0 && pc < |insts| && insts[pc].Split?
    ensures var first := Rec(insts, s, insts[pc].x, pos, sub, fuel - 1);
      Rec(insts, s, pc, pos, sub, fuel) ==
        if first.Exhausted? || first.matched then first
        else Rec(insts, s, insts[pc].y, pos, first.sub, first.fuel)
  {
  }

  /** `Rec` at an in-range `Save`: the slot is put back when the rest fails. */
  lemma RecAtSave(insts: seq<Inst>, s: seq<char>, pc: nat, pos: nat, sub: Sub, fuel: nat)
    requires pos <= |s| && fuel > 0 && pc < |insts| && insts[pc].Save? && insts[pc].n < |sub|
    ensures var rest := Rec(insts, s, pc + 1, pos, Update(sub, insts[pc].n, ByteLen(s[..pos])), fuel - 1);
      Rec(insts, s, pc, pos, sub, fuel) ==
        if rest.Exhausted? || rest.matched then rest
        else Done(false, sub, rest.fuel)
  {
  }

  /** `Rec` from `pc` with the same arguments but `extra` more steps. */
  predicate MoreFuelAgrees(insts: seq<Inst>, s: seq<char>, pc: nat, pos: nat, sub: Sub, fuel: nat, extra: nat)
    requires pos <= |s|
  {
    var r := Rec(insts, s, pc, pos, sub, fuel);
    r.Done? ==> Rec(insts, s, pc, pos, sub, fuel + extra) == Done(r.matched, r.sub, r.fuel + extra)
  }

  /**
   * The step budget only bounds the search: a run that finishes with some
   * budget finishes the same way with any larger one, with the surplus
   * left over.
   */
  lemma {:induction false} RecMoreFuel(insts: seq<Inst>, s: seq<char>, pc: nat, pos: nat, sub: Sub, fuel: nat, extra: nat)
    requires pos <= |s|
    requires Rec(insts, s, pc, pos, sub, fuel).Done?
    ensures Rec(insts, s, pc, pos, sub, fuel + extra) ==
      Done(Rec(insts, s, pc, pos, sub, fuel).matched, Rec(insts, s, pc, pos, sub, fuel).sub, Rec(insts, s, pc, pos, sub, fuel).fuel + extra)
    decreases fuel, 1
  {
    if pc < |insts| {
      match insts[pc]
      case Char(_) => MoreFuelConsume(insts, s, pc, pos, sub, fuel, extra);
      case Any => MoreFuelConsume(insts, s, pc, pos, sub, fuel, extra);
      case Match =>
      case Jmp(x) => RecMoreFuel(insts, s, x, pos, sub, fuel - 1, extra);
      case Split(_, _) => MoreFuelSplit(insts, s, pc, pos, sub, fuel, extra);
      case Save(_) => MoreFuelSave(insts, s, pc, pos, sub, fuel, extra);
    }
  }

  lemma {:induction false} MoreFuelConsume(insts: seq<Inst>, s: seq<char>, pc: nat, pos: nat, sub: Sub, fuel: nat, extra: nat)
    requires pos <= |s| && fuel > 0 && pc < |insts| && (insts[pc].Char? || insts[pc].Any?)
    requires Rec(insts, s, pc, pos, sub, fuel).Done?
    ensures MoreFuelAgrees(insts, s, pc, pos, sub, fuel, extra)
    decreases fuel, 0
  {
    if pos < |s| && (insts[pc].Any? || s[pos] == insts[pc].c) {
      RecMoreFuel(insts, s, pc + 1, pos + 1, sub, fuel - 1, extra);
    }
  }

  lemma {:induction false} MoreFuelSplit(insts: seq<Inst>, s: seq<char>, pc: nat, pos: nat, sub: Sub, fuel: nat, extra: nat)
    requires pos <= |s| && fuel > 0 && pc < |insts| && insts[pc].Split?
    requires Rec(insts, s, pc, pos, sub, fuel).Done?
    ensures MoreFuelAgrees(insts, s, pc, pos, sub, fuel, extra)
    decreases fuel, 0
  {
    var first := Rec(insts, s, insts[pc].x, pos, sub, fuel - 1);
    RecMoreFuel(insts, s, insts[pc].x, pos, sub, fuel - 1, extra);
    if !first.matched {
      RecMoreFuel(insts, s, insts[pc].y, pos, first.sub, first.fuel, extra);
    }
  }

  lemma {:induction false} MoreFuelSave(insts: seq<Inst>, s: seq<char>, pc: nat, pos: nat, sub: Sub, fuel: nat, extra: nat)
    requires pos <= |s| && fuel > 0 && pc < |insts| && insts[pc].Save?
    requires Rec(insts, s, pc, pos, sub, fuel).Done?
    ensures MoreFuelAgrees(insts, s, pc, pos, sub, fuel, extra)
    decreases fuel, 0
  {
    var n := insts[pc].n;
    if n >= |sub| {
      RecMoreFuel(insts, s, pc + 1, pos, sub, fuel - 1, extra);
    } else {
      RecMoreFuel(insts, s, pc + 1, pos, Update(sub, n, ByteLen(s[..pos])), fuel - 1, extra);
    }
  }
}
