/**
 * The Thompson and Pike engines are the same simulation: a Thompson
 * generation, with its Jmp, Split and Save entries dropped, is the list of
 * pcs of the Pike generation, with the same marks. So on every input both
 * report a match or neither does.
 */
module Agreement {
  import opened Options
  import opened Utf8
  import opened Syntax
  import opened Captures
  import opened Marks
  import Thompson
  import Pike

  /** The pcs of `l` whose instructions wait on the input, in order. */
  function Filter(insts: seq<Inst>, l: seq<nat>): seq<nat>
  {
    if l == [] then []
    else
      var last := l[|l| - 1];
      Filter(insts, l[..|l| - 1]) + (if last < |insts| && Pike.Stored(insts[last]) then [last] else [])
  }

  lemma {:induction false} FilterCons(insts: seq<Inst>, l: seq<nat>)
    requires l != []
    ensures Filter(insts, l) == (if l[0] < |insts| && Pike.Stored(insts[l[0]]) then [l[0]] else []) + Filter(insts, l[1..])
    decreases |l|
  {
    if |l| > 1 {
      assert l[1..][..|l[1..]| - 1] == l[..|l| - 1][1..];
      FilterCons(insts, l[..|l| - 1]);
    } else {
      assert l[1..] == [] && l[..|l| - 1] == [];
    }
  }

  /** Both closures mark the same pcs and list the same waiting pcs. */
  lemma {:induction false} ClosureAgree(insts: seq<Inst>, v: seq<bool>, pc: nat, lt: seq<nat>, sub: Sub, off: nat, lp: seq<Pike.Thread>)
    requires WellFormed(insts) && |v| == |insts| && pc < |insts| && SlotCount(insts) <= |sub|
    requires Thompson.InRange(insts, lt) && Pike.Pcs(lp) == Filter(insts, lt)
    ensures var t := Thompson.Closure(insts, v, pc, lt);
      var p := Pike.Closure(insts, v, pc, sub, off, lp);
      Thompson.InRange(insts, t.0) && t.1 == p.1 && Pike.Pcs(p.0) == Filter(insts, t.0)
    decreases Unmarked(v)
  {
    Thompson.ClosureGrows(insts, v, pc, lt);
    if !v[pc] {
      var v1 := v[pc := true];
      var lt1 := lt + [pc];
      MarkOne(v, pc);
      assert lt1[..|lt1| - 1] == lt;
      assert Thompson.InRange(insts, lt1);
      match insts[pc]
      case Jmp(x) =>
        assert TargetsBelow(insts[pc], |insts|);
        ClosureAgree(insts, v1, x, lt1, sub, off, lp);
      case Split(x, y) =>
        assert TargetsBelow(insts[pc], |insts|);
        ClosureAgree(insts, v1, x, lt1, sub, off, lp);
        var a := Thompson.Closure(insts, v1, x, lt1);
        var b := Pike.Closure(insts, v1, x, sub, off, lp);
        ClosureAgree(insts, a.1, y, a.0, sub, off, b.0);
      case Save(n) =>
        SaveBelowSlotCount(insts, pc);
        SuccessorInRange(insts, pc);
        ClosureAgree(insts, v1, pc + 1, lt1, Update(sub, n, off), off, lp);
      case Char(_) =>
        assert Pike.Pcs(lp + [Pike.Thread(pc, sub)]) == Pike.Pcs(lp) + [pc];
      case Any =>
        assert Pike.Pcs(lp + [Pike.Thread(pc, sub)]) == Pike.Pcs(lp) + [pc];
      case Match =>
        assert Pike.Pcs(lp + [Pike.Thread(pc, sub)]) == Pike.Pcs(lp) + [pc];
    }
  }

  /** A Thompson generation with no waiting pc does nothing when drained. */
  lemma {:induction false} StepNothingWaiting(insts: seq<Inst>, ch: Option<char>, ts: seq<nat>, next: seq<nat>, v: seq<bool>)
    requires WellFormed(insts) && |v| == |insts| && Thompson.InRange(insts, ts)
    requires Filter(insts, ts) == []
    ensures Thompson.Step(insts, ch, ts, next, v) == (next, v, false)
    decreases |ts|
  {
    if ts != [] {
      FilterCons(insts, ts);
      StepNothingWaiting(insts, ch, ts[1..], next, v);
    }
  }

  /** Draining corresponding generations gives corresponding next generations and the same hit. */
  lemma {:induction false} StepAgree(insts: seq<Inst>, width: nat, ch: Option<char>, off: nat,
                                     tt: seq<nat>, nt: seq<nat>, tp: seq<Pike.Thread>, np: seq<Pike.Thread>, v: seq<bool>)
    requires WellFormed(insts) && SlotCount(insts) <= width && |v| == |insts|
    requires Thompson.InRange(insts, tt) && Thompson.InRange(insts, nt) && Pike.ThreadsOk(insts, width, tp)
    requires Pike.Pcs(tp) == Filter(insts, tt) && Pike.Pcs(np) == Filter(insts, nt)
    ensures var t := Thompson.Step(insts, ch, tt, nt, v);
      var p := Pike.Step(insts, width, ch, off, tp, np, v);
      t.1 == p.1 && Pike.Pcs(p.0) == Filter(insts, t.0) && t.2 == p.2.Some?
    decreases |tt|, 1
  {
    if tt != [] {
      FilterCons(insts, tt);
      var pc := tt[0];
      if !Pike.Stored(insts[pc]) {
        StepAgree(insts, width, ch, off, tt[1..], nt, tp, np, v);
      } else {
        assert tp != [] && tp[0].pc == pc;
        assert Pike.Pcs(tp[1..]) == Filter(insts, tt[1..]);
        if (insts[pc].Char? && ch == Some(insts[pc].c)) || (insts[pc].Any? && ch.Some?) {
          StepAgreeConsume(insts, width, ch, off, tt, nt, tp, np, v);
        } else if !insts[pc].Match? {
          StepAgree(insts, width, ch, off, tt[1..], nt, tp[1..], np, v);
        }
      }
    }
  }

  /** The case of `StepAgree` where the first thread consumes `ch`. */
  lemma {:induction false} StepAgreeConsume(insts: seq<Inst>, width: nat, ch: Option<char>, off: nat,
                                            tt: seq<nat>, nt: seq<nat>, tp: seq<Pike.Thread>, np: seq<Pike.Thread>, v: seq<bool>)
    requires WellFormed(insts) && SlotCount(insts) <= width && |v| == |insts|
    requires Thompson.InRange(insts, tt) && Thompson.InRange(insts, nt) && Pike.ThreadsOk(insts, width, tp)
    requires Pike.Pcs(np) == Filter(insts, nt)
    requires tt != [] && tp != [] && tp[0].pc == tt[0] && Pike.Pcs(tp[1..]) == Filter(insts, tt[1..])
    requires (insts[tt[0]].Char? && ch == Some(insts[tt[0]].c)) || (insts[tt[0]].Any? && ch.Some?)
    ensures var t := Thompson.Step(insts, ch, tt, nt, v);
      var p := Pike.Step(insts, width, ch, off, tp, np, v);
      t.1 == p.1 && Pike.Pcs(p.0) == Filter(insts, t.0) && t.2 == p.2.Some?
    decreases |tt|, 0
  {
    var pc := tt[0];
    SuccessorInRange(insts, pc);
    ClosureAgree(insts, v, pc + 1, nt, tp[0].sub, off, np);
    var a := Thompson.Closure(insts, v, pc + 1, nt);
    var b := Pike.Closure(insts, v, pc + 1, tp[0].sub, off, np);
    assert Thompson.Step(insts, ch, tt, nt, v) == Thompson.Step(insts, ch, tt[1..], a.0, a.1);
    assert Pike.Step(insts, width, ch, off, tp, np, v) == Pike.Step(insts, width, ch, off, tp[1..], b.0, a.1);
    StepAgree(insts, width, ch, off, tt[1..], a.0, tp[1..], b.0, a.1);
  }

  lemma {:induction false} RunAgree(insts: seq<Inst>, width: nat, s: seq<char>, pos: nat,
                                    ct: seq<nat>, mt: bool, sub: Sub, cp: seq<Pike.Thread>, mp: Option<Sub>)
    requires WellFormed(insts) && SlotCount(insts) <= width && pos <= |s|
    requires Thompson.InRange(insts, ct) && Pike.ThreadsOk(insts, width, cp)
    requires Pike.Pcs(cp) == Filter(insts, ct) && mt == mp.Some?
    ensures Thompson.Run(insts, s, pos, ct, mt, sub).matched == Pike.Run(insts, width, s, pos, cp, mp).matched.Some?
    decreases |s| - pos
  {
    if ct != [] {
      var ch := if pos < |s| then Some(s[pos]) else None;
      var pos1 := if pos < |s| then pos + 1 else pos;
      var off := ByteLen(s[..pos1]);
      var v := AllClear(|insts|);
      Thompson.StepGrows(insts, ch, ct, [], v);
      var t := Thompson.Step(insts, ch, ct, [], v);
      var sub1 := if t.2 && |sub| >= 2 then sub[1 := Some(ByteLen(s[..pos]))] else sub;
      if cp == [] {
        StepNothingWaiting(insts, ch, ct, [], v);
      } else {
        Pike.StepGrows(insts, width, ch, off, cp, [], v);
        StepAgree(insts, width, ch, off, ct, [], cp, [], v);
        var p := Pike.Step(insts, width, ch, off, cp, [], v);
        if pos < |s| {
          RunAgree(insts, width, s, pos1, t.0, mt || t.2, sub1, p.0, if p.2.Some? then p.2 else mp);
        }
      }
    }
  }

  /**
   * From the same cursor, `match_thompsonvm` and `match_pikevm` give the
   * same verdict.
   */
  lemma ThompsonAgreesWithPike(insts: seq<Inst>, s: seq<char>, pos: nat, width: nat)
    requires WellFormed(insts) && SlotCount(insts) <= width && pos <= |s|
    ensures Thompson.Run(insts, s, pos, Thompson.First(insts), false, Thompson.Start(width)).matched ==
      Pike.Run(insts, width, s, pos, Pike.First(insts, width), None).matched.Some?
  {
    ClosureAgree(insts, AllClear(|insts|), 0, [], NewSub(width), 0, []);
    RunAgree(insts, width, s, pos, Thompson.First(insts), false, Thompson.Start(width), Pike.First(insts, width), None);
  }
}
