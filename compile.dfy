/**
 * The compiler of src/compile.rs: a pattern becomes a program by recursive
 * emission into a growing buffer, with branch placeholders overwritten by
 * index once the extent of their operands is known.
 */
module Compile {
  import opened Syntax

  /** `usize::MAX`, the operand of the placeholder Split. */
  const USIZE_MAX: nat := 0xFFFF_FFFF_FFFF_FFFF

  /** `count_insts`: the number of instructions `r` compiles to. */
  function CountInsts(r: Regexp): nat
  {
    match r
    case Alt(left, right) => 2 + CountInsts(left) + CountInsts(right)
    case Cat(left, right) => CountInsts(left) + CountInsts(right)
    case Lit(_) => 1
    case Dot => 1
    case Paren(_, inner) => 2 + CountInsts(inner)
    case Quest(_, inner) => 1 + CountInsts(inner)
    case Star(_, inner) => 2 + CountInsts(inner)
    case Plus(_, inner) => 1 + CountInsts(inner)
  }

  function Max(a: nat, b: nat): nat
  {
    if a < b then b else a
  }

  /** The slot count the groups of `r` need: 2 * (largest group id + 1), 0 without groups. */
  function NSub(r: Regexp): nat
  {
    match r
    case Alt(left, right) => Max(NSub(left), NSub(right))
    case Cat(left, right) => Max(NSub(left), NSub(right))
    case Lit(_) => 0
    case Dot => 0
    case Paren(n, inner) => Max(2 * (n + 1), NSub(inner))
    case Quest(_, inner) => NSub(inner)
    case Star(_, inner) => NSub(inner)
    case Plus(_, inner) => NSub(inner)
  }

  /** The Split that prefers `body` when greedy and `after` when not. */
  function Prefer(greedy: bool, body: nat, after: nat): Inst
  {
    if greedy then Split(body, after) else Split(after, body)
  }

  /**
   * The fragment `push_regexp(r)` appends when the buffer already holds
   * `base` instructions; its branch targets are absolute indices.
   */
  function Emit(r: Regexp, base: nat): seq<Inst>
  {
    match r
    case Alt(left, right) =>
      var y := base + 2 + CountInsts(left);
      [Split(base + 1, y)] + Emit(left, base + 1) + [Jmp(y + CountInsts(right))] + Emit(right, y)
    case Cat(left, right) =>
      Emit(left, base) + Emit(right, base + CountInsts(left))
    case Lit(c) => [Char(c)]
    case Dot => [Any]
    case Paren(n, inner) => [Save(2 * n)] + Emit(inner, base + 1) + [Save(2 * n + 1)]
    case Quest(greedy, inner) =>
      [Prefer(greedy, base + 1, base + 1 + CountInsts(inner))] + Emit(inner, base + 1)
    case Star(greedy, inner) =>
      [Prefer(greedy, base + 1, base + 2 + CountInsts(inner))] + Emit(inner, base + 1) + [Jmp(base)]
    case Plus(greedy, inner) =>
      Emit(inner, base) + [Prefer(greedy, base, base + CountInsts(inner) + 1)]
  }

  /** `count_insts` is exact: the fragment has that many instructions. */
  lemma {:induction false} EmitLength(r: Regexp, base: nat)
    ensures |Emit(r, base)| == CountInsts(r)
    decreases r, 1
  {
    match r
    case Alt(left, right) => EmitLengthAlt(left, right, base);
    case Cat(left, right) => EmitLengthCat(left, right, base);
    case Lit(_) =>
    case Dot =>
    case Paren(_, inner) => EmitLength(inner, base + 1);
    case Quest(_, inner) => EmitLength(inner, base + 1);
    case Star(_, inner) => EmitLength(inner, base + 1);
    case Plus(_, inner) => EmitLength(inner, base);
  }

  lemma {:induction false} EmitLengthAlt(left: Regexp, right: Regexp, base: nat)
    ensures |Emit(Alt(left, right), base)| == CountInsts(Alt(left, right))
    decreases Alt(left, right), 0
  {
    EmitLength(left, base + 1);
    EmitLength(right, base + 2 + CountInsts(left));
  }

  lemma {:induction false} EmitLengthCat(left: Regexp, right: Regexp, base: nat)
    ensures |Emit(Cat(left, right), base)| == CountInsts(Cat(left, right))
    decreases Cat(left, right), 0
  {
    EmitLength(left, base);
    EmitLength(right, base + CountInsts(left));
  }


  /** Every branch target of `inst` lies in `lo..hi` inclusive. */
  predicate TargetWithin(inst: Inst, lo: nat, hi: nat)
  {
    match inst
    case Jmp(x) => lo <= x <= hi
    case Split(x, y) => lo <= x <= hi && lo <= y <= hi
    case _ => true
  }

  predicate TargetsWithin(frag: seq<Inst>, lo: nat, hi: nat)
  {
    forall i :: 0 <= i < |frag| ==> TargetWithin(frag[i], lo, hi)
  }

  lemma {:induction false} TargetsWithinAppend(a: seq<Inst>, b: seq<Inst>, lo: nat, hi: nat)
    requires TargetsWithin(a, lo, hi) && TargetsWithin(b, lo, hi)
    ensures TargetsWithin(a + b, lo, hi)
  {
    forall i | 0 <= i < |a + b| ensures TargetWithin((a + b)[i], lo, hi) {
      if i < |a| { assert (a + b)[i] == a[i]; } else { assert (a + b)[i] == b[i - |a|]; }
    }
  }

  lemma {:induction false} TargetsWithinWiden(a: seq<Inst>, lo: nat, hi: nat, lo': nat, hi': nat)
    requires TargetsWithin(a, lo, hi) && lo' <= lo && hi <= hi'
    ensures TargetsWithin(a, lo', hi')
  {
    forall i | 0 <= i < |a| ensures TargetWithin(a[i], lo', hi') {
      assert TargetWithin(a[i], lo, hi);
    }
  }

  /** `[p] + body + [q]` keeps its targets in `lo..hi` when each part does. */
  lemma {:induction false} TargetsWithinWrap(p: Inst, body: seq<Inst>, q: Inst, lo: nat, hi: nat)
    requires TargetWithin(p, lo, hi) && TargetsWithin(body, lo, hi) && TargetWithin(q, lo, hi)
    ensures TargetsWithin([p] + body, lo, hi)
    ensures TargetsWithin(body + [q], lo, hi)
    ensures TargetsWithin([p] + body + [q], lo, hi)
  {
    TargetsWithinAppend([p], body, lo, hi);
    TargetsWithinAppend(body, [q], lo, hi);
    TargetsWithinAppend([p] + body, [q], lo, hi);
  }

  /** `[p] + a + [q] + b` keeps its targets in `lo..hi` when each part does. */
  lemma {:induction false} TargetsWithinAltShape(p: Inst, a: seq<Inst>, q: Inst, b: seq<Inst>, lo: nat, hi: nat)
    requires TargetWithin(p, lo, hi) && TargetsWithin(a, lo, hi) && TargetWithin(q, lo, hi) && TargetsWithin(b, lo, hi)
    ensures TargetsWithin([p] + a + [q] + b, lo, hi)
  {
    TargetsWithinWrap(p, a, q, lo, hi);
    TargetsWithinAppend([p] + a + [q], b, lo, hi);
  }

  lemma {:induction false} EmitTargetsAlt(left: Regexp, right: Regexp, base: nat)
    ensures TargetsWithin(Emit(Alt(left, right), base), base, base + CountInsts(Alt(left, right)))
    decreases Alt(left, right), 0
  {
    EmitTargets(left, base + 1);
    EmitTargets(right, base + 2 + CountInsts(left));
    AltWithLengths(left, right, base);
  }

  lemma {:induction false} AltWithLengths(left: Regexp, right: Regexp, base: nat)
    requires TargetsWithin(Emit(left, base + 1), base + 1, base + 1 + CountInsts(left))
    requires TargetsWithin(Emit(right, base + 2 + CountInsts(left)), base + 2 + CountInsts(left), base + 2 + CountInsts(left) + CountInsts(right))
    ensures TargetsWithin(Emit(Alt(left, right), base), base, base + CountInsts(Alt(left, right)))
  {
    EmitLength(left, base + 1);
    EmitLength(right, base + 2 + CountInsts(left));
    AltFromParts(left, right, base);
  }

  lemma {:induction false} AltFromParts(left: Regexp, right: Regexp, base: nat)
    requires |Emit(left, base + 1)| == CountInsts(left)
    requires |Emit(right, base + 2 + CountInsts(left))| == CountInsts(right)
    requires TargetsWithin(Emit(left, base + 1), base + 1, base + 1 + CountInsts(left))
    requires TargetsWithin(Emit(right, base + 2 + CountInsts(left)), base + 2 + CountInsts(left), base + 2 + CountInsts(left) + CountInsts(right))
    ensures TargetsWithin(Emit(Alt(left, right), base), base, base + CountInsts(Alt(left, right)))
  {
    EmitAlt(left, right, base);
    AltTargets(Emit(left, base + 1), Emit(right, base + 2 + CountInsts(left)), base, CountInsts(left), CountInsts(right),
      base + CountInsts(Alt(left, right)), Emit(Alt(left, right), base));
  }

  /** The Alt layout keeps its targets inside when both operands do. */
  lemma {:induction false} AltTargets(l: seq<Inst>, rr: seq<Inst>, base: nat, nl: nat, nr: nat, hi: nat, frag: seq<Inst>)
    requires |l| == nl && |rr| == nr && hi == base + 2 + nl + nr
    requires frag == [Split(base + 1, base + 2 + nl)] + l + [Jmp(base + 2 + nl + nr)] + rr
    requires TargetsWithin(l, base + 1, base + 1 + nl)
    requires TargetsWithin(rr, base + 2 + nl, base + 2 + nl + nr)
    ensures TargetsWithin(frag, base, hi)
  {
    TargetsWithinWiden(l, base + 1, base + 1 + nl, base, hi);
    TargetsWithinWiden(rr, base + 2 + nl, hi, base, hi);
    TargetsWithinAltShape(Split(base + 1, base + 2 + nl), l, Jmp(hi), rr, base, hi);
  }

  lemma {:induction false} EmitTargetsCat(left: Regexp, right: Regexp, base: nat)
    ensures TargetsWithin(Emit(Cat(left, right), base), base, base + CountInsts(Cat(left, right)))
    decreases Cat(left, right), 0
  {
    EmitTargets(left, base);
    EmitTargets(right, base + CountInsts(left));
    CatFromParts(left, right, base);
  }

  lemma {:induction false} CatFromParts(left: Regexp, right: Regexp, base: nat)
    requires TargetsWithin(Emit(left, base), base, base + CountInsts(left))
    requires TargetsWithin(Emit(right, base + CountInsts(left)), base + CountInsts(left), base + CountInsts(left) + CountInsts(right))
    ensures TargetsWithin(Emit(Cat(left, right), base), base, base + CountInsts(Cat(left, right)))
  {
    EmitCat(left, right, base);
    CatTargets(Emit(left, base), Emit(right, base + CountInsts(left)), base, base + CountInsts(left),
      base + CountInsts(Cat(left, right)), Emit(Cat(left, right), base));
  }

  lemma {:induction false} CatTargets(l: seq<Inst>, rr: seq<Inst>, base: nat, mid: nat, hi: nat, frag: seq<Inst>)
    requires base <= mid <= hi && frag == l + rr
    requires TargetsWithin(l, base, mid) && TargetsWithin(rr, mid, hi)
    ensures TargetsWithin(frag, base, hi)
  {
    TargetsWithinWiden(l, base, mid, base, hi);
    TargetsWithinWiden(rr, mid, hi, base, hi);
    TargetsWithinAppend(l, rr, base, hi);
  }

  /** `[p] + body`, `body + [q]` or `[p] + body + [q]` as `frag`, with every part inside `lo..hi`. */
  lemma {:induction false} WrapTargets(p: Inst, body: seq<Inst>, q: Inst, lo: nat, hi: nat, frag: seq<Inst>)
    requires TargetWithin(p, lo, hi) && TargetsWithin(body, lo, hi) && TargetWithin(q, lo, hi)
    requires frag == [p] + body || frag == body + [q] || frag == [p] + body + [q]
    ensures TargetsWithin(frag, lo, hi)
  {
    TargetsWithinWrap(p, body, q, lo, hi);
  }

  lemma {:induction false} EmitTargetsParen(n: nat, inner: Regexp, base: nat)
    ensures TargetsWithin(Emit(Paren(n, inner), base), base, base + CountInsts(Paren(n, inner)))
    decreases Paren(n, inner), 0
  {
    EmitTargets(inner, base + 1);
    UnaryFromParts(Paren(n, inner), base);
  }

  lemma {:induction false} EmitTargetsQuest(g: bool, inner: Regexp, base: nat)
    ensures TargetsWithin(Emit(Quest(g, inner), base), base, base + CountInsts(Quest(g, inner)))
    decreases Quest(g, inner), 0
  {
    EmitTargets(inner, base + 1);
    UnaryFromParts(Quest(g, inner), base);
  }

  lemma {:induction false} EmitTargetsStar(g: bool, inner: Regexp, base: nat)
    ensures TargetsWithin(Emit(Star(g, inner), base), base, base + CountInsts(Star(g, inner)))
    decreases Star(g, inner), 0
  {
    EmitTargets(inner, base + 1);
    UnaryFromParts(Star(g, inner), base);
  }

  lemma {:induction false} EmitTargetsPlus(g: bool, inner: Regexp, base: nat)
    ensures TargetsWithin(Emit(Plus(g, inner), base), base, base + CountInsts(Plus(g, inner)))
    decreases Plus(g, inner), 0
  {
    EmitTargets(inner, base);
    UnaryFromParts(Plus(g, inner), base);
  }

  /** Paren, Quest, Star and Plus wrap one operand; the operand's start is `base`, or `base + 1` behind a leading instruction. */
  function InnerBase(r: Regexp, base: nat): nat
  {
    if r.Plus? then base else base + 1
  }

  lemma {:induction false} UnaryFromParts(r: Regexp, base: nat)
    requires r.Paren? || r.Quest? || r.Star? || r.Plus?
    requires TargetsWithin(Emit(r.inner, InnerBase(r, base)), InnerBase(r, base), InnerBase(r, base) + CountInsts(r.inner))
    ensures TargetsWithin(Emit(r, base), base, base + CountInsts(r))
  {
    var e, hi := Emit(r.inner, InnerBase(r, base)), base + CountInsts(r);
    TargetsWithinWiden(e, InnerBase(r, base), InnerBase(r, base) + CountInsts(r.inner), base, hi);
    match r
    case Paren(n, _) => WrapTargets(Save(2 * n), e, Save(2 * n + 1), base, hi, Emit(r, base));
    case Quest(g, _) => WrapTargets(Prefer(g, base + 1, hi), e, Any, base, hi, Emit(r, base));
    case Star(g, _) => WrapTargets(Prefer(g, base + 1, hi), e, Jmp(base), base, hi, Emit(r, base));
    case Plus(g, _) => WrapTargets(Any, e, Prefer(g, base, hi), base, hi, Emit(r, base));
  }

  /**
   * A fragment only jumps inside itself or to the instruction just after
   * it: every target lies in `base..base + count_insts(r)`.
   */
  lemma {:induction false} EmitTargets(r: Regexp, base: nat)
    ensures TargetsWithin(Emit(r, base), base, base + CountInsts(r))
    decreases r, 1
  {
    match r
    case Alt(left, right) => EmitTargetsAlt(left, right, base);
    case Cat(left, right) => EmitTargetsCat(left, right, base);
    case Lit(_) => assert TargetWithin(Emit(r, base)[0], base, base + 1);
    case Dot => assert TargetWithin(Emit(r, base)[0], base, base + 1);
    case Paren(n, inner) => EmitTargetsParen(n, inner, base);
    case Quest(g, inner) => EmitTargetsQuest(g, inner, base);
    case Star(g, inner) => EmitTargetsStar(g, inner, base);
    case Plus(g, inner) => EmitTargetsPlus(g, inner, base);
  }


  lemma {:induction false} SlotCountAppend(a: seq<Inst>, b: seq<Inst>)
    ensures SlotCount(a + b) == Max(SlotCount(a), SlotCount(b))
  {
    if a == [] {
      assert a + b == b;
    } else {
      assert (a + b)[1..] == a[1..] + b;
      SlotCountAppend(a[1..], b);
    }
  }

  lemma {:induction false} SlotCountSingle(x: Inst)
    ensures SlotCount([x]) == SlotBound(x)
  {
    assert [x][1..] == [];
  }

  /** The slot count of `[p] + body + [q]` is the largest of its parts'. */
  lemma {:induction false} SlotCountWrap(p: Inst, body: seq<Inst>, q: Inst)
    ensures SlotCount([p] + body) == Max(SlotBound(p), SlotCount(body))
    ensures SlotCount([p] + body + [q]) == Max(Max(SlotBound(p), SlotCount(body)), SlotBound(q))
  {
    SlotCountSingle(p);
    SlotCountSingle(q);
    SlotCountAppend([p], body);
    SlotCountAppend([p] + body, [q]);
  }

  lemma {:induction false} EmitSlotsAlt(r: Regexp, base: nat)
    requires r.Alt?
    ensures SlotCount(Emit(r, base)) == NSub(r)
    decreases r, 0
  {
    var y := base + 2 + CountInsts(r.left);
    EmitSlots(r.left, base + 1);
    EmitSlots(r.right, y);
    var s, a, j, b := Split(base + 1, y), Emit(r.left, base + 1), Jmp(y + CountInsts(r.right)), Emit(r.right, y);
    assert Emit(r, base) == [s] + a + [j] + b;
    SlotCountWrap(s, a, j);
    SlotCountAppend([s] + a + [j], b);
  }

  lemma {:induction false} EmitSlotsCat(r: Regexp, base: nat)
    requires r.Cat?
    ensures SlotCount(Emit(r, base)) == NSub(r)
    decreases r, 0
  {
    EmitSlots(r.left, base);
    EmitSlots(r.right, base + CountInsts(r.left));
    SlotCountAppend(Emit(r.left, base), Emit(r.right, base + CountInsts(r.left)));
  }

  lemma {:induction false} EmitSlotsParen(r: Regexp, base: nat)
    requires r.Paren?
    ensures SlotCount(Emit(r, base)) == NSub(r)
    decreases r, 0
  {
    var n := r.n;
    EmitSlots(r.inner, base + 1);
    assert Emit(r, base) == [Save(2 * n)] + Emit(r.inner, base + 1) + [Save(2 * n + 1)];
    SlotCountWrap(Save(2 * n), Emit(r.inner, base + 1), Save(2 * n + 1));
  }

  lemma {:induction false} EmitSlotsQuest(r: Regexp, base: nat)
    requires r.Quest?
    ensures SlotCount(Emit(r, base)) == NSub(r)
    decreases r, 0
  {
    EmitSlots(r.inner, base + 1);
    var p := Prefer(r.greedy, base + 1, base + 1 + CountInsts(r.inner));
    assert Emit(r, base) == [p] + Emit(r.inner, base + 1);
    SlotCountSingle(p);
    SlotCountAppend([p], Emit(r.inner, base + 1));
  }

  lemma {:induction false} EmitSlotsStar(r: Regexp, base: nat)
    requires r.Star?
    ensures SlotCount(Emit(r, base)) == NSub(r)
    decreases r, 0
  {
    EmitSlots(r.inner, base + 1);
    var p := Prefer(r.greedy, base + 1, base + 2 + CountInsts(r.inner));
    assert Emit(r, base) == [p] + Emit(r.inner, base + 1) + [Jmp(base)];
    SlotCountWrap(p, Emit(r.inner, base + 1), Jmp(base));
  }

  lemma {:induction false} EmitSlotsPlus(r: Regexp, base: nat)
    requires r.Plus?
    ensures SlotCount(Emit(r, base)) == NSub(r)
    decreases r, 0
  {
    EmitSlots(r.inner, base);
    var p := Prefer(r.greedy, base, base + CountInsts(r.inner) + 1);
    assert Emit(r, base) == Emit(r.inner, base) + [p];
    SlotCountSingle(p);
    SlotCountAppend(Emit(r.inner, base), [p]);
  }

  /** The slots written by the fragment of `r` are exactly those its groups need. */
  lemma {:induction false} EmitSlots(r: Regexp, base: nat)
    ensures SlotCount(Emit(r, base)) == NSub(r)
    decreases r, 1
  {
    match r
    case Alt(_, _) => EmitSlotsAlt(r, base);
    case Cat(_, _) => EmitSlotsCat(r, base);
    case Lit(c) => SlotCountSingle(Char(c));
    case Dot => SlotCountSingle(Any);
    case Paren(_, _) => EmitSlotsParen(r, base);
    case Quest(_, _) => EmitSlotsQuest(r, base);
    case Star(_, _) => EmitSlotsStar(r, base);
    case Plus(_, _) => EmitSlotsPlus(r, base);
  }

  /** `ProgBuilder`: the instruction buffer being filled and the slot count so far. */
  class ProgBuilder {
    var insts: seq<Inst>
    var nsub: nat

    constructor ()
      ensures insts == [] && nsub == 0
    {
      insts := [];
      nsub := 0;
    }

    /** `push_split_placeholder`: append `Split(usize::MAX, usize::MAX)` and return its index. */
    method PushSplitPlaceholder() returns (pc: nat)
      modifies this`insts
      ensures pc == |old(insts)|
      ensures insts == old(insts) + [Split(USIZE_MAX, USIZE_MAX)]
    {
      pc := |insts|;
      insts := insts + [Split(USIZE_MAX, USIZE_MAX)];
    }

    /**
     * `push_regexp`: append the fragment of `r` and return the index where
     * it begins; the instructions already in the buffer are left as they were.
     */
    method PushRegexp(r: Regexp) returns (pc: nat)
      modifies this
      ensures pc == |old(insts)|
      ensures insts == old(insts) + Emit(r, pc)
      ensures nsub == Max(old(nsub), NSub(r))
      decreases r, 1
    {
      match r
      case Alt(_, _) => pc := PushAlt(r);
      case Cat(_, _) => pc := PushCat(r);
      case Lit(c) =>
        pc := |insts|;
        insts := insts + [Char(c)];
      case Dot =>
        pc := |insts|;
        insts := insts + [Any];
      case Paren(_, _) => pc := PushParen(r);
      case Quest(_, _) => pc := PushQuest(r);
      case Star(_, _) => pc := PushStar(r);
      case Plus(_, _) => pc := PushPlus(r);
    }

    /** The Alt arm: Split, left, Jmp, right, with both placeholders patched afterwards. */
    method PushAlt(r: Regexp) returns (pc: nat)
      requires r.Alt?
      modifies this
      ensures pc == |old(insts)|
      ensures insts == old(insts) + Emit(r, pc)
      ensures nsub == Max(old(nsub), NSub(r))
      decreases r, 0
    {
      pc := |insts|;
      ghost var before, nsub0 := insts, nsub;
      var split := PushSplitPlaceholder();
      var x := PushRegexp(r.left);
      EmitLength(r.left, x);
      var jmp := PushSplitPlaceholder();
      var y := PushRegexp(r.right);
      EmitLength(r.right, y);
      ghost var unpatched := insts;
      ghost var a, b := Emit(r.left, x), Emit(r.right, y);
      assert unpatched == before + [Split(USIZE_MAX, USIZE_MAX)] + a + [Split(USIZE_MAX, USIZE_MAX)] + b;
      insts := insts[split := Split(x, y)];
      insts := insts[jmp := Jmp(|insts|)];
      PatchAlt(before, a, b, Split(x, y), Jmp(|unpatched|), unpatched, insts);
      AltLayout(r.left, r.right, pc, x, y, |unpatched|);
      assert r == Alt(r.left, r.right);
      MaxAssoc(nsub0, NSub(r.left), NSub(r.right));
    }

    /**
     * The Cat arm: left then right. Its ensures, that the buffer grows by
     * exactly `Emit(r, pc)`, is what ties the arm to the source; `EmitCat`
     * only reads the same layout off `Emit`.
     */
    method PushCat(r: Regexp) returns (pc: nat)
      requires r.Cat?
      modifies this
      ensures pc == |old(insts)|
      ensures insts == old(insts) + Emit(r, pc)
      ensures nsub == Max(old(nsub), NSub(r))
      decreases r, 0
    {
      pc := |insts|;
      ghost var before, nsub0 := insts, nsub;
      var _ := PushRegexp(r.left);
      EmitLength(r.left, pc);
      var _ := PushRegexp(r.right);
      MaxAssoc(nsub0, NSub(r.left), NSub(r.right));
    }

    /** The Paren arm: Save(2n), the group, Save(2n+1), and the slot count raised to 2(n+1). */
    method PushParen(r: Regexp) returns (pc: nat)
      requires r.Paren?
      modifies this
      ensures pc == |old(insts)|
      ensures insts == old(insts) + Emit(r, pc)
      ensures nsub == Max(old(nsub), NSub(r))
      decreases r, 0
    {
      pc := |insts|;
      ghost var nsub0 := nsub;
      insts := insts + [Save(2 * r.n)];
      var _ := PushRegexp(r.inner);
      insts := insts + [Save(2 * r.n + 1)];
      nsub := Max(nsub, 2 * (r.n + 1));
      MaxAssoc(nsub0, NSub(r.inner), 2 * (r.n + 1));
    }

    /** The Quest arm: a Split placeholder before the operand, patched to skip it. */
    method PushQuest(r: Regexp) returns (pc: nat)
      requires r.Quest?
      modifies this
      ensures pc == |old(insts)|
      ensures insts == old(insts) + Emit(r, pc)
      ensures nsub == Max(old(nsub), NSub(r))
      decreases r, 0
    {
      pc := |insts|;
      ghost var before := insts;
      var split := PushSplitPlaceholder();
      var x := PushRegexp(r.inner);
      EmitLength(r.inner, x);
      ghost var unpatched := insts;
      insts := insts[split := if r.greedy then Split(x, |insts|) else Split(|insts|, x)];
      PatchHead(before, Emit(r.inner, x), [], Prefer(r.greedy, x, |unpatched|), unpatched, insts);
    }

    /** The Star arm: a Split placeholder, the operand, a Jmp back to the Split. */
    method PushStar(r: Regexp) returns (pc: nat)
      requires r.Star?
      modifies this
      ensures pc == |old(insts)|
      ensures insts == old(insts) + Emit(r, pc)
      ensures nsub == Max(old(nsub), NSub(r))
      decreases r, 0
    {
      pc := |insts|;
      ghost var before := insts;
      var split := PushSplitPlaceholder();
      var x := PushRegexp(r.inner);
      EmitLength(r.inner, x);
      insts := insts + [Jmp(split)];
      ghost var unpatched := insts;
      insts := insts[split := if r.greedy then Split(x, |insts|) else Split(|insts|, x)];
      PatchHead(before, Emit(r.inner, x), [Jmp(pc)], Prefer(r.greedy, x, |unpatched|), unpatched, insts);
    }

    /** The Plus arm: the operand, then a Split back to its start. */
    method PushPlus(r: Regexp) returns (pc: nat)
      requires r.Plus?
      modifies this
      ensures pc == |old(insts)|
      ensures insts == old(insts) + Emit(r, pc)
      ensures nsub == Max(old(nsub), NSub(r))
      decreases r, 0
    {
      var x := PushRegexp(r.inner);
      EmitLength(r.inner, x);
      pc := x;
      insts := insts + [if r.greedy then Split(x, |insts| + 1) else Split(|insts| + 1, x)];
    }
  }

  lemma MaxAssoc(a: nat, b: nat, c: nat)
    ensures Max(Max(a, b), c) == Max(a, Max(b, c))
    ensures Max(Max(a, b), c) == Max(a, Max(c, b))
  {
  }

  /** Backpatching an Alt: overwriting both placeholders by index gives the Alt layout. */
  lemma PatchAlt(before: seq<Inst>, a: seq<Inst>, b: seq<Inst>, s: Inst, j: Inst, unpatched: seq<Inst>, patched: seq<Inst>)
    requires unpatched == before + [Split(USIZE_MAX, USIZE_MAX)] + a + [Split(USIZE_MAX, USIZE_MAX)] + b
    requires patched == unpatched[|before| := s][|before| + 1 + |a| := j]
    ensures patched == before + ([s] + a + [j] + b)
  {
  }

  /** Backpatching a Quest or Star: overwriting the leading placeholder by index. */
  lemma PatchHead(before: seq<Inst>, body: seq<Inst>, tail: seq<Inst>, s: Inst, unpatched: seq<Inst>, patched: seq<Inst>)
    requires unpatched == before + [Split(USIZE_MAX, USIZE_MAX)] + body + tail
    requires patched == unpatched[|before| := s]
    ensures patched == before + ([s] + body + tail)
  {
  }

  /** The Cat case of `Emit`, for use in proofs about the layout. */
  lemma {:induction false} EmitCat(left: Regexp, right: Regexp, base: nat)
    ensures Emit(Cat(left, right), base) == Emit(left, base) + Emit(right, base + CountInsts(left))
  {
  }

  lemma {:induction false} EmitAlt(left: Regexp, right: Regexp, base: nat)
    ensures Emit(Alt(left, right), base) ==
      var y := base + 2 + CountInsts(left);
      [Split(base + 1, y)] + Emit(left, base + 1) + [Jmp(y + CountInsts(right))] + Emit(right, y)
  {
  }

  /** The Alt layout with the operand positions named. */
  lemma {:induction false} AltLayout(left: Regexp, right: Regexp, base: nat, x: nat, y: nat, end: nat)
    requires x == base + 1 && y == x + 1 + CountInsts(left) && end == y + CountInsts(right)
    ensures Emit(Alt(left, right), base) == [Split(x, y)] + Emit(left, x) + [Jmp(end)] + Emit(right, y)
  {
    EmitAlt(left, right, base);
  }

  /** `a` and `b` agree except at `i`, where `a` has a Split and `b` the same Split with its operands swapped. */
  predicate SwappedAt(a: seq<Inst>, b: seq<Inst>, i: nat)
  {
    |a| == |b| && i < |a| && a[i].Split? && b[i] == Split(a[i].y, a[i].x) &&
    forall j :: 0 <= j < |a| && j != i ==> a[j] == b[j]
  }

  /**
   * Greedy and non-greedy Quest, Star and Plus compile to the same code
   * except for one Split: the greedy one tries the body first, the
   * non-greedy one the instruction after the loop.
   */
  lemma {:induction false} GreedyOnlySwapsSplit(e: Regexp, base: nat)
    ensures SwappedAt(Emit(Quest(true, e), base), Emit(Quest(false, e), base), 0)
    ensures Emit(Quest(true, e), base)[0] == Split(base + 1, base + CountInsts(Quest(true, e)))
    ensures SwappedAt(Emit(Star(true, e), base), Emit(Star(false, e), base), 0)
    ensures Emit(Star(true, e), base)[0] == Split(base + 1, base + CountInsts(Star(true, e)))
    ensures SwappedAt(Emit(Plus(true, e), base), Emit(Plus(false, e), base), CountInsts(e))
    ensures Emit(Plus(true, e), base)[CountInsts(e)] == Split(base, base + CountInsts(Plus(true, e)))
  {
    EmitLength(e, base + 1);
    EmitLength(e, base);
    QuestSwap(e, base);
    StarSwap(e, base);
    PlusSwap(e, base);
  }

  lemma {:induction false} QuestSwap(e: Regexp, base: nat)
    ensures SwappedAt(Emit(Quest(true, e), base), Emit(Quest(false, e), base), 0)
  {
    EmitLength(e, base + 1);
    var q, q' := Emit(Quest(true, e), base), Emit(Quest(false, e), base);
    assert forall j :: 1 <= j < |q| ==> q[j] == Emit(e, base + 1)[j - 1] == q'[j];
  }

  lemma {:induction false} StarSwap(e: Regexp, base: nat)
    ensures SwappedAt(Emit(Star(true, e), base), Emit(Star(false, e), base), 0)
  {
    EmitLength(e, base + 1);
    var s, s' := Emit(Star(true, e), base), Emit(Star(false, e), base);
    assert forall j :: 1 <= j < |s| - 1 ==> s[j] == Emit(e, base + 1)[j - 1] == s'[j];
  }

  lemma {:induction false} PlusSwap(e: Regexp, base: nat)
    ensures SwappedAt(Emit(Plus(true, e), base), Emit(Plus(false, e), base), CountInsts(e))
  {
    EmitLength(e, base);
    var p, p' := Emit(Plus(true, e), base), Emit(Plus(false, e), base);
    assert forall j :: 0 <= j < CountInsts(e) ==> p[j] == Emit(e, base)[j] == p'[j];
  }

  /**
   * The loop and branch jumps: a Star ends with a Jmp back to its own
   * Split, and the Jmp after an Alt's left operand goes to the instruction
   * just after the whole Alt.
   */
  lemma {:induction false} FragmentJumps(e: Regexp, left: Regexp, right: Regexp, g: bool, base: nat)
    ensures |Emit(Star(g, e), base)| == CountInsts(Star(g, e)) && Emit(Star(g, e), base)[CountInsts(Star(g, e)) - 1] == Jmp(base)
    ensures Emit(Star(g, e), base)[0].Split?
    ensures |Emit(Alt(left, right), base)| == CountInsts(Alt(left, right)) &&
      Emit(Alt(left, right), base)[1 + CountInsts(left)] == Jmp(base + CountInsts(Alt(left, right)))
  {
    EmitLength(Star(g, e), base);
    EmitLength(Alt(left, right), base);
    EmitLength(left, base + 1);
    EmitAlt(left, right, base);
    var a := Emit(Alt(left, right), base);
    assert a[1 + CountInsts(left)] == ([Split(base + 1, base + 2 + CountInsts(left))] + Emit(left, base + 1) + [Jmp(base + CountInsts(Alt(left, right)))])[1 + CountInsts(left)];
  }

  /** A group's fragment opens with `Save(2n)` and closes with `Save(2n + 1)`. */
  lemma {:induction false} ParenSaves(n: nat, e: Regexp, base: nat)
    ensures |Emit(Paren(n, e), base)| == CountInsts(Paren(n, e))
    ensures Emit(Paren(n, e), base)[0] == Save(2 * n)
    ensures Emit(Paren(n, e), base)[CountInsts(Paren(n, e)) - 1] == Save(2 * n + 1)
  {
    EmitLength(Paren(n, e), base);
  }

  /**
   * No placeholder `Split(usize::MAX, usize::MAX)` survives compilation:
   * every Split of the program points inside it, and no program reaches
   * `usize::MAX` instructions.
   */
  lemma {:induction false} NoPlaceholderLeft(r: Regexp)
    requires CountInsts(r) < USIZE_MAX
    ensures forall i :: 0 <= i < |Emit(r, 0) + [Match]| ==> (Emit(r, 0) + [Match])[i] != Split(USIZE_MAX, USIZE_MAX)
  {
    EmitTargets(r, 0);
    EmitLength(r, 0);
    var p := Emit(r, 0) + [Match];
    forall i | 0 <= i < |p|
      ensures p[i] != Split(USIZE_MAX, USIZE_MAX)
    {
      if i < |Emit(r, 0)| {
        assert p[i] == Emit(r, 0)[i];
        assert TargetWithin(p[i], 0, CountInsts(r));
      }
    }
  }

  /**
   * `Regexp::compile`: the fragment of `r` followed by Match, with the slot
   * count of its groups. The result is well formed: its length is
   * `count_insts(r) + 1`, it ends in Match, every branch target is one of
   * its instructions, and its slot count is the one `Prog::nsaved` finds.
   */
  method Compile(r: Regexp) returns (p: Prog)
    ensures p.insts == Emit(r, 0) + [Match]
    ensures |p.insts| == CountInsts(r) + 1
    ensures p.insts[|p.insts| - 1] == Match
    ensures WellFormed(p.insts)
    ensures p.nsub == NSub(r) == SlotCount(p.insts)
  {
    var b := new ProgBuilder();
    var _ := b.PushRegexp(r);
    b.insts := b.insts + [Match];
    p := Prog(b.insts, b.nsub);
    EmitLength(r, 0);
    EmitTargets(r, 0);
    TargetsWithinAppend(Emit(r, 0), [Match], 0, CountInsts(r));
    EmitSlots(r, 0);
    SlotCountAppend(Emit(r, 0), [Match]);
  }
}
