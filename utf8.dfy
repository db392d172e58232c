/**
 * The input text as the engines see it: a sequence of Unicode scalar values
 * addressed by BYTE offsets into its UTF-8 encoding, as Rust's `&str` is.
 */
module Utf8 {
  import opened Options

  /** Number of bytes of the UTF-8 encoding of `c` (Rust's `char::len_utf8`). */
  function Utf8Len(c: char): (r: nat)
    ensures 1 <= r <= 4
    ensures r == 1 <==> (c as int) < 0x80
    ensures r == 4 <==> (c as int) >= 0x10000
  {
    if (c as int) < 0x80 then 1
    else if (c as int) < 0x800 then 2
    else if (c as int) < 0x10000 then 3
    else 4
  }

  /** Length in bytes of the UTF-8 encoding of `s` (Rust's `str::len`). */
  function ByteLen(s: seq<char>): nat
  {
    if s == [] then 0 else Utf8Len(s[0]) + ByteLen(s[1..])
  }

  lemma {:induction false} ByteLenAppend(a: seq<char>, b: seq<char>)
    ensures ByteLen(a + b) == ByteLen(a) + ByteLen(b)
  {
    if a == [] {
      assert a + b == b;
    } else {
      assert (a + b)[1..] == a[1..] + b;
      ByteLenAppend(a[1..], b);
    }
  }

  /** The prefix of `k + 1` chars is one char longer, in bytes, than that of `k` chars. */
  lemma {:induction false} ByteLenSnoc(s: seq<char>, k: nat)
    requires k < |s|
    ensures ByteLen(s[..k + 1]) == ByteLen(s[..k]) + Utf8Len(s[k])
  {
    assert s[..k + 1] == s[..k] + [s[k]];
    ByteLenAppend(s[..k], [s[k]]);
    assert [s[k]][1..] == [];
  }

  /**
   * The chars of `s` that start at byte offset `off`, or None when `off` is
   * not the offset of a char boundary (where Rust's `&s[off..]` panics).
   */
  function Decode(s: seq<char>, off: nat): Option<seq<char>>
  {
    if off == 0 then Some(s)
    else if s == [] then None
    else if off < Utf8Len(s[0]) then None
    else Decode(s[1..], off - Utf8Len(s[0]))
  }

  /** What `Decode` finds is a suffix of `s`, and `off` is the byte length of the chars before it. */
  lemma {:induction false} DecodeSuffix(s: seq<char>, off: nat)
    requires Decode(s, off).Some?
    ensures |Decode(s, off).value| <= |s|
    ensures Decode(s, off).value == s[|s| - |Decode(s, off).value|..]
    ensures off == ByteLen(s[..|s| - |Decode(s, off).value|])
  {
    if off != 0 {
      var r := Decode(s[1..], off - Utf8Len(s[0]));
      DecodeSuffix(s[1..], off - Utf8Len(s[0]));
      var k := |s| - |r.value|;
      assert s[1..][|s| - 1 - |r.value|..] == s[k..];
      assert s[..k][1..] == s[1..][..k - 1];
    }
  }

  /** Every prefix of whole chars ends at a boundary, where exactly the rest remains. */
  lemma {:induction false} DecodePrefix(s: seq<char>, k: nat)
    requires k <= |s|
    ensures Decode(s, ByteLen(s[..k])) == Some(s[k..])
  {
    if k > 0 {
      assert s[..k][1..] == s[1..][..k - 1];
      assert ByteLen(s[..k]) == Utf8Len(s[0]) + ByteLen(s[1..][..k - 1]);
      DecodePrefix(s[1..], k - 1);
      assert s[1..][k - 1..] == s[k..];
    }
  }

  /** `off` is the byte offset of a char boundary of `s` (or its end). */
  predicate Boundary(s: seq<char>, off: nat)
  {
    Decode(s, off).Some?
  }

  lemma {:induction false} BoundaryWithin(s: seq<char>, off: nat)
    requires Boundary(s, off)
    ensures off <= ByteLen(s)
    ensures off == ByteLen(s) <==> Decode(s, off) == Some([])
  {
    DecodeSuffix(s, off);
    var r := Decode(s, off).value;
    var k := |s| - |r|;
    assert s == s[..k] + s[k..];
    ByteLenAppend(s[..k], s[k..]);
    if r != [] {
      assert s[k..][1..] == s[k + 1..];
    }
  }

  /** Past the first char at a boundary, the rest of the chars remain, at the next boundary. */
  lemma {:induction false} DecodeAdvance(s: seq<char>, off: nat)
    requires Boundary(s, off) && Decode(s, off).value != []
    ensures Decode(s, off + Utf8Len(Decode(s, off).value[0])) == Some(Decode(s, off).value[1..])
    ensures Boundary(s, off + Utf8Len(Decode(s, off).value[0]))
  {
    DecodeSuffix(s, off);
    var r := Decode(s, off).value;
    var k := |s| - |r|;
    assert off == ByteLen(s[..k]) && s[k] == r[0] && s[k + 1..] == r[1..];
    ByteLenSnoc(s, k);
    DecodePrefix(s, k + 1);
  }

  /**
   * Rust's `self.s[self.offset..].chars().next()` followed by
   * `self.offset = self.s.len() - chars.as_str().len()`: the char at `off`
   * and the offset just after it; at the end of the input, None and `off`.
   */
  function NextChar(s: seq<char>, off: nat): (r: (Option<char>, nat))
    requires Boundary(s, off)
    ensures Boundary(s, r.1)
    ensures r.0.None? <==> off == ByteLen(s)
    ensures r.0.None? ==> r.1 == off
    ensures r.0.Some? ==> Decode(s, off).value != [] && r.0.value == Decode(s, off).value[0]
    ensures r.0.Some? ==> r.1 == off + Utf8Len(r.0.value)
  {
    BoundaryWithin(s, off);
    var rest := Decode(s, off).value;
    if rest == [] then (None, off)
    else
      DecodeAdvance(s, off);
      (Some(rest[0]), off + Utf8Len(rest[0]))
  }

  /** `off` is where some prefix of whole chars ends; by `BoundaryIffPrefix`, a char boundary. */
  ghost predicate PrefixEnd(s: seq<char>, off: nat)
  {
    exists k :: 0 <= k <= |s| && ByteLen(s[..k]) == off
  }

  /** Boundaries are exactly the byte lengths of the char prefixes. */
  lemma {:induction false} BoundaryIffPrefix(s: seq<char>, off: nat)
    ensures Boundary(s, off) <==> PrefixEnd(s, off)
  {
    if Boundary(s, off) {
      DecodeSuffix(s, off);
      var k := |s| - |Decode(s, off).value|;
      assert ByteLen(s[..k]) == off;
    }
    if exists k :: 0 <= k <= |s| && ByteLen(s[..k]) == off {
      var k :| 0 <= k <= |s| && ByteLen(s[..k]) == off;
      DecodePrefix(s, k);
    }
  }

  /**
   * At the boundary after `k` whole chars, `NextChar` reads char `k` and
   * steps to the boundary after `k + 1` chars; after the last char it
   * reports the end of the input.
   */
  lemma {:induction false} NextCharAt(s: seq<char>, k: nat)
    requires k <= |s|
    ensures Boundary(s, ByteLen(s[..k]))
    ensures k < |s| ==> NextChar(s, ByteLen(s[..k])) == (Some(s[k]), ByteLen(s[..k + 1]))
    ensures k == |s| ==> NextChar(s, ByteLen(s[..k])) == (None, ByteLen(s[..k]))
  {
    DecodePrefix(s, k);
    if k < |s| {
      ByteLenSnoc(s, k);
    }
  }
}
