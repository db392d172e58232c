/**
 * The VM cursor of src/regexp.rs: a program counter and a byte offset into
 * the input, stepped by the engines.
 */
module Cursor {
  import opened Options
  import opened Utf8
  import opened Syntax

  class VM {
    const insts: seq<Inst>
    const s: seq<char>
    var pc: nat
    var offset: nat
    /** The number of chars before `offset`; it exists only in the proof. */
    ghost var pos: nat

    /** The offset is the char boundary after the first `pos` chars of the input. */
    ghost predicate Valid()
      reads this`offset, this`pos
    {
      pos <= |s| && offset == ByteLen(s[..pos])
    }

    /** `VM::new`: the cursor at the first instruction and the start of the input. */
    constructor (prog: Prog, s: seq<char>)
      ensures insts == prog.insts && this.s == s
      ensures pc == 0 && offset == 0 && pos == 0
      ensures Valid()
    {
      insts := prog.insts;
      this.s := s;
      pc := 0;
      offset := 0;
      pos := 0;
    }

    /** `self.clone()`: a fresh cursor in the same state. */
    method Clone() returns (v: VM)
      ensures fresh(v)
      ensures v.insts == insts && v.s == s && v.pc == pc && v.offset == offset && v.pos == pos
    {
      v := new VM.Copy(this);
    }

    constructor Copy(other: VM)
      ensures insts == other.insts && s == other.s
      ensures pc == other.pc && offset == other.offset && pos == other.pos
    {
      insts := other.insts;
      s := other.s;
      pc := other.pc;
      offset := other.offset;
      pos := other.pos;
    }

    /** `VM::inst`: the instruction at `pc`, None past the end. */
    function Inst(): (r: Option<Inst>)
      reads this`pc
      ensures r.None? <==> pc >= |insts|
      ensures r.Some? ==> r.value == insts[pc]
    {
      if pc < |insts| then Some(insts[pc]) else None
    }

    /** `VM::next_inst`: fetch the instruction at `pc` and step past it. */
    method NextInst() returns (r: Option<Inst>)
      modifies this`pc
      ensures old(pc) < |insts| ==> r == Some(insts[old(pc)]) && pc == old(pc) + 1
      ensures old(pc) >= |insts| ==> r.None? && pc == old(pc)
    {
      r := Inst();
      if r.Some? {
        pc := pc + 1;
      }
    }

    /**
     * `VM::next_char`: read the char at `offset` and step past its UTF-8
     * bytes, as `Utf8.NextChar` does; at the end of the input, None and no
     * move.
     */
    method NextChar() returns (r: Option<char>)
      requires Valid()
      modifies this`offset, this`pos
      ensures Valid()
      ensures old(pos) < |s| ==> r == Some(s[old(pos)]) && pos == old(pos) + 1
      ensures old(pos) == |s| ==> r.None? && pos == old(pos)
      ensures r.Some? ==> offset == old(offset) + Utf8Len(r.value)
      ensures r.None? ==> offset == old(offset)
    {
      NextCharAt(s, pos);
      var step := Utf8.NextChar(s, offset);
      r := step.0;
      offset := step.1;
      if r.Some? {
        pos := pos + 1;
        ByteLenSnoc(s, pos - 1);
      }
    }

    /** Move the cursor to boundary `off`, the one after the first `k` chars. */
    method SetOffset(off: nat, ghost k: nat)
      requires k <= |s| && off == ByteLen(s[..k])
      modifies this`offset, this`pos
      ensures offset == off && pos == k && Valid()
    {
      offset := off;
      pos := k;
    }

    /** `VM::set_pc`. */
    method SetPc(target: nat)
      modifies this`pc
      ensures pc == target
    {
      pc := target;
    }

    /** `VM::reset`: back to the first instruction and the start of the input. */
    method Reset()
      modifies this`pc, this`offset, this`pos
      ensures pc == 0 && offset == 0 && pos == 0
      ensures Valid()
    {
      pc := 0;
      offset := 0;
      pos := 0;
    }
  }
}
