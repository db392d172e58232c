/**
 * The per-generation `visited` marks of the Thompson and Pike engines, one
 * flag per instruction, and the facts about them that bound a generation.
 */
module Marks {
  /** `vec![false; n]` and the state after `visited.fill(false)`. */
  function AllClear(n: nat): (v: seq<bool>)
    ensures |v| == n && forall i :: 0 <= i < n ==> !v[i]
  {
    seq(n, _ => false)
  }

  /** `visited.fill(false)`. */
  method Clear(visited: array<bool>)
    modifies visited
    ensures visited[..] == AllClear(visited.Length)
  {
    forall i | 0 <= i < visited.Length {
      visited[i] := false;
    }
  }

  /** The number of instructions not yet visited in this generation. */
  function Unmarked(v: seq<bool>): nat
  {
    if v == [] then 0 else (if v[0] then 0 else 1) + Unmarked(v[1..])
  }

  lemma {:induction false} UnmarkedBound(v: seq<bool>)
    ensures Unmarked(v) <= |v|
    ensures Unmarked(v) == |v| <==> forall i :: 0 <= i < |v| ==> !v[i]
  {
    if v != [] {
      UnmarkedBound(v[1..]);
      assert forall i :: 1 <= i < |v| ==> v[i] == v[1..][i - 1];
    }
  }

  /** Marking an unvisited instruction leaves one fewer unvisited. */
  lemma {:induction false} MarkOne(v: seq<bool>, i: nat)
    requires i < |v| && !v[i]
    ensures Unmarked(v[i := true]) == Unmarked(v) - 1
  {
    if i > 0 {
      assert v[i := true][1..] == v[1..][i - 1 := true];
      MarkOne(v[1..], i - 1);
    }
  }

  /**
   * `l` lists instructions of the current generation: each is in range and
   * visited, none twice, and there are no more than the visited ones.
   */
  predicate Records(l: seq<nat>, v: seq<bool>)
  {
    (forall k :: 0 <= k < |l| ==> l[k] < |v| && v[l[k]]) &&
    (forall j, k :: 0 <= j < k < |l| ==> l[j] != l[k]) &&
    |l| + Unmarked(v) <= |v|
  }

  /** A new generation starts empty with every mark clear. */
  lemma StartRecords(n: nat)
    ensures Records([], AllClear(n))
  {
    UnmarkedBound(AllClear(n));
  }

  /** A recorded generation has distinct entries and at most one per instruction. */
  lemma RecordsBound(l: seq<nat>, v: seq<bool>)
    requires Records(l, v)
    ensures |l| <= |v|
    ensures forall j, k :: 0 <= j < k < |l| ==> l[j] != l[k]
  {
  }

  /**
   * What a closure may do to a generation `l` with marks `v`: only add
   * marks, keep `l` as a prefix, and list after it only instructions it
   * newly marked, each once, so that the listed ones cost unvisited marks.
   */
  predicate Grows(l: seq<nat>, v: seq<bool>, l2: seq<nat>, v2: seq<bool>)
  {
    |v2| == |v| && (forall i :: 0 <= i < |v| && v[i] ==> v2[i]) &&
    |l| <= |l2| && l2[..|l|] == l &&
    (forall k :: |l| <= k < |l2| ==> l2[k] < |v| && !v[l2[k]] && v2[l2[k]]) &&
    (forall j, k :: |l| <= j < k < |l2| ==> l2[j] != l2[k]) &&
    |l2| - |l| + Unmarked(v2) <= Unmarked(v)
  }

  lemma GrowsRefl(l: seq<nat>, v: seq<bool>)
    ensures Grows(l, v, l, v)
  {
    assert l[..|l|] == l;
  }

  /** Marking an unvisited instruction, and listing it or not. */
  lemma GrowsMark(l: seq<nat>, v: seq<bool>, pc: nat, listed: bool)
    requires pc < |v| && !v[pc]
    ensures Grows(l, v, if listed then l + [pc] else l, v[pc := true])
  {
    MarkOne(v, pc);
    assert (l + [pc])[..|l|] == l;
    assert l[..|l|] == l;
  }

  lemma GrowsTrans(l: seq<nat>, v: seq<bool>, l1: seq<nat>, v1: seq<bool>, l2: seq<nat>, v2: seq<bool>)
    requires Grows(l, v, l1, v1) && Grows(l1, v1, l2, v2)
    ensures Grows(l, v, l2, v2)
  {
    assert l2[..|l|] == l2[..|l1|][..|l|];
    forall k | |l| <= k < |l1|
      ensures l2[k] == l1[k]
    {
      assert l2[..|l1|][k] == l2[k];
    }
  }

  /** A closure keeps a record of the generation. */
  lemma GrowsRecords(l: seq<nat>, v: seq<bool>, l2: seq<nat>, v2: seq<bool>)
    requires Grows(l, v, l2, v2)
    ensures Records(l, v) ==> Records(l2, v2)
  {
    if Records(l, v) {
      forall k | 0 <= k < |l|
        ensures l2[k] == l[k]
      {
        assert l2[..|l|][k] == l2[k];
      }
    }
  }
}
