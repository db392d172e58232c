/**
 * The parsed pattern (`Regexp`), the bytecode (`Inst`) and the compiled
 * program (`Prog`) of src/regexp.rs.
 */
module Syntax {
  import opened Options

  /** A parsed pattern; the `bool` of Quest, Star and Plus is "greedy". */
  datatype Regexp =
    | Alt(left: Regexp, right: Regexp)
    | Cat(left: Regexp, right: Regexp)
    | Lit(ch: char)
    | Dot
    | Paren(n: nat, inner: Regexp)
    | Quest(greedy: bool, inner: Regexp)
    | Star(greedy: bool, inner: Regexp)
    | Plus(greedy: bool, inner: Regexp)

  /** Outcome of the (external) parser: the pattern or the parser's error. */
  datatype Result<T, E> = Ok(value: T) | Err(error: E)

  /**
   * `Regexp::parse_wrapped`: a parse error is passed on unchanged; a parsed
   * pattern becomes the unanchored search `.*?(re)`, with the whole match
   * as group 0.
   */
  function ParseWrapped<E>(parsed: Result<Regexp, E>): (r: Result<Regexp, E>)
    ensures parsed.Err? <==> r.Err?
    ensures parsed.Err? ==> r.error == parsed.error
    ensures parsed.Ok? ==> r.value.Cat? && r.value.right == Paren(0, parsed.value)
    ensures parsed.Ok? ==> r.value.left == Star(false, Dot)
  {
    match parsed
    case Err(e) => Err(e)
    case Ok(re) => Ok(Cat(Star(false, Dot), Paren(0, re)))
  }

  datatype Inst =
    | Char(c: char)
    | Match
    | Jmp(x: nat)
    | Split(x: nat, y: nat)
    | Any
    | Save(n: nat)

  /** The branch targets of `inst` are all below `len`. */
  predicate TargetsBelow(inst: Inst, len: nat)
  {
    match inst
    case Jmp(x) => x < len
    case Split(x, y) => x < len && y < len
    case _ => true
  }

  /**
   * The shape every engine relies on when it indexes `insts[pc]` and
   * `insts[pc + 1]` without a check: the program ends in Match and every
   * branch target is an instruction of the program.
   */
  predicate WellFormed(insts: seq<Inst>)
  {
    |insts| > 0 && insts[|insts| - 1] == Match &&
    forall i :: 0 <= i < |insts| ==> TargetsBelow(insts[i], |insts|)
  }

  /** In a well-formed program the instruction after a non-final one exists. */
  lemma SuccessorInRange(insts: seq<Inst>, pc: nat)
    requires WellFormed(insts) && pc < |insts| && !insts[pc].Match?
    ensures pc + 1 < |insts|
  {
  }

  /** One past the slot written by `inst`, or 0 when it is not a Save. */
  function SlotBound(inst: Inst): nat
  {
    if inst.Save? then inst.n + 1 else 0
  }

  /** The number of capture slots a program writes: the largest `n + 1` over its `Save(n)`. */
  function SlotCount(insts: seq<Inst>): nat
  {
    if insts == [] then 0
    else
      var b := SlotBound(insts[0]);
      var c := SlotCount(insts[1..]);
      if c < b then b else c
  }

  /**
   * `SlotCount` is the least bound on the slots written: 0 when there is no
   * Save, otherwise every `Save(n)` has `n < SlotCount` and one has
   * `n == SlotCount - 1`.
   */
  lemma {:induction false} SlotCountIsLeastBound(insts: seq<Inst>)
    ensures forall i :: 0 <= i < |insts| && insts[i].Save? ==> insts[i].n < SlotCount(insts)
    ensures SlotCount(insts) == 0 <==> forall i :: 0 <= i < |insts| ==> !insts[i].Save?
    ensures SlotCount(insts) > 0 ==> exists i :: 0 <= i < |insts| && insts[i] == Save(SlotCount(insts) - 1)
  {
    if insts != [] {
      var tail := insts[1..];
      SlotCountIsLeastBound(tail);
      assert forall i :: 1 <= i < |insts| ==> insts[i] == tail[i - 1];
      if SlotCount(insts) > 0 && SlotCount(tail) != SlotCount(insts) {
        assert insts[0] == Save(SlotCount(insts) - 1);
      }
    }
  }

  /** The slot of the `Save` at `pc` is below the program's slot count. */
  lemma SaveBelowSlotCount(insts: seq<Inst>, pc: nat)
    requires pc < |insts| && insts[pc].Save?
    ensures insts[pc].n < SlotCount(insts)
  {
    SlotCountIsLeastBound(insts);
  }

  lemma {:induction false} SlotCountSnoc(insts: seq<Inst>, inst: Inst)
    ensures SlotCount(insts + [inst]) == if SlotCount(insts) < SlotBound(inst) then SlotBound(inst) else SlotCount(insts)
  {
    if insts == [] {
      assert [] + [inst] == [inst];
      assert [inst][1..] == [];
    } else {
      assert (insts + [inst])[1..] == insts[1..] + [inst];
      SlotCountSnoc(insts[1..], inst);
    }
  }

  /** A compiled program with the number of capture slots its groups need. */
  datatype Prog = Prog(insts: seq<Inst>, nsub: nat)
  {
    /** `Prog::inst`: the instruction at `pc`, None past the end. */
    function Inst(pc: nat): (r: Option<Inst>)
      ensures r.None? <==> pc >= |insts|
      ensures r.Some? ==> r.value == insts[pc]
    {
      if pc < |insts| then Some(insts[pc]) else None
    }

    /** `Prog::nsaved`: one pass over the program keeping the largest `n + 1`. */
    method NSaved() returns (count: nat)
      ensures count == SlotCount(insts)
      ensures forall i :: 0 <= i < |insts| && insts[i].Save? ==> insts[i].n < count
      ensures count == 0 <==> forall i :: 0 <= i < |insts| ==> !insts[i].Save?
    {
      count := 0;
      for i := 0 to |insts|
        invariant count == SlotCount(insts[..i])
      {
        assert insts[..i + 1] == insts[..i] + [insts[i]];
        SlotCountSnoc(insts[..i], insts[i]);
        if insts[i].Save? {
          count := if count < insts[i].n + 1 then insts[i].n + 1 else count;
        }
      }
      assert insts[..|insts|] == insts;
      SlotCountIsLeastBound(insts);
    }
  }
}
