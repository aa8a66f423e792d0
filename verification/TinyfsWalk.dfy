/**
 Following a file block by block: what a walk that has not ended yet says about the chain,
 and which blocks a walk that runs into itself condemns.
 */
module TinyfsWalk {
  import opened TinyfsBlock
  import opened TinyfsMedium

  /** From start, the full data blocks of seen lead to bno. */
  ghost predicate IsWalk(m: Medium, start: nat, seen: seq<nat>, bno: nat) {
    && (forall i :: 0 <= i < |seen| ==> IsData(m, seen[i]) && At(m, seen[i]).Data?)
    && (forall i :: 0 <= i < |seen| - 1 ==> Links(m, seen, i))
    && (if seen == [] then bno == start else seen[0] == start && At(m, seen[|seen| - 1]).next == bno)
  }

  lemma WalkStart(m: Medium, start: nat)
    ensures IsWalk(m, start, [], start)
  {
  }

  lemma WalkStep(m: Medium, start: nat, seen: seq<nat>, bno: nat)
    requires IsWalk(m, start, seen, bno) && IsData(m, bno) && At(m, bno).Data?
    ensures IsWalk(m, start, seen + [bno], At(m, bno).next)
  {
    var s := seen + [bno];
    forall i | 0 <= i < |s| - 1
      ensures Links(m, s, i)
    {
      if i < |seen| - 1 { assert Links(m, seen, i); }
    }
  }

  lemma WalkEnds(m: Medium, start: nat, seen: seq<nat>, bno: nat)
    requires IsWalk(m, start, seen, bno) && IsData(m, bno) && At(m, bno).End?
    ensures IsChain(m, seen + [bno]) && (seen + [bno])[0] == start
  {
    var s := seen + [bno];
    forall i | 0 <= i < |s| - 1
      ensures Links(m, s, i)
    {
      if i < |seen| - 1 { assert Links(m, seen, i); }
    }
  }

  lemma WalkFrom(m: Medium, start: nat, seen: seq<nat>, bno: nat, k: nat)
    requires IsWalk(m, start, seen, bno) && k <= |seen|
    ensures IsWalk(m, if k < |seen| then seen[k] else bno, seen[k..], bno)
  {
    forall i | 0 <= i < |seen[k..]| - 1
      ensures Links(m, seen[k..], i)
    {
      assert Links(m, seen, k + i);
    }
  }

  /** A walk is a proper prefix of the chain, if there is one. */
  lemma {:induction false} WalkIsPrefix(m: Medium, start: nat, seen: seq<nat>, bno: nat, p: seq<nat>)
    requires IsWalk(m, start, seen, bno) && IsChain(m, p) && p[0] == start
    ensures |seen| < |p| && p[..|seen|] == seen && p[|seen|] == bno
    decreases |seen|
  {
    if seen != [] {
      assert |p| > 1;
      assert Links(m, p, 0);
      if |seen| > 1 { assert Links(m, seen, 0); }
      WalkFrom(m, start, seen, bno, 1);
      ChainSuffix(m, p, 1);
      WalkIsPrefix(m, p[1], seen[1..], bno, p[1..]);
      assert seen == [seen[0]] + seen[1..];
      assert p == [p[0]] + p[1..];
    }
  }

  /** The blocks on a cycle, and so the start of a walk into it, have no chain. */
  lemma CycleHasNoChain(m: Medium, start: nat, seen: seq<nat>, bno: nat, j: nat, t: nat)
    requires IsWalk(m, start, seen, bno) && j <= t < |seen| && seen[j] == bno
    ensures !HasChain(m, seen[t])
  {
    if HasChain(m, seen[t]) {
      var q := ChainOf(m, seen[t]);
      WalkFrom(m, start, seen, bno, t);
      WalkIsPrefix(m, seen[t], seen[t..], bno, q);
      var n := |seen| - t;
      ChainSuffix(m, q, n);
      WalkFrom(m, start, seen, bno, j);
      WalkIsPrefix(m, bno, seen[j..], bno, q[n..]);
      assert q[n..][t - j] == seen[j..][t - j] == seen[t];
      ChainAcyclic(m, q, 0, n + (t - j));
    }
  }

  /** What freeblocks visits: from bno through data blocks up to bend or an end block. */
  ghost predicate IsRun(m: Medium, bno: nat, bend: nat, run: seq<nat>) {
    && (forall i :: 0 <= i < |run| ==> IsData(m, run[i]) && run[i] != bend)
    && (forall i :: 0 <= i < |run| - 1 ==> Links(m, run, i))
    && (if run == [] then bno == bend || bno == NOTABNO
        else run[0] == bno && (At(m, run[|run| - 1]).Data? ==> At(m, run[|run| - 1]).next == bend))
  }

  lemma ChainIsRun(m: Medium, p: seq<nat>)
    requires IsChain(m, p)
    ensures IsRun(m, p[0], NOTABNO, p)
  {
  }

  /** Cut at the first visit of bno, a walk is what freeblocks visits. */
  lemma WalkIsRun(m: Medium, start: nat, seen: seq<nat>, bno: nat, j: nat)
    requires IsWalk(m, start, seen, bno) && j <= |seen| && bno !in seen[..j]
    requires j < |seen| ==> seen[j] == bno
    ensures IsRun(m, start, bno, seen[..j])
  {
    var run := seen[..j];
    forall i | 0 <= i < |run|
      ensures IsData(m, run[i]) && run[i] != bno
      ensures i < |run| - 1 ==> Links(m, run, i)
    {
      assert run[i] == seen[i];
      if i < |run| - 1 { assert Links(m, seen, i); }
    }
    if 0 < j < |seen| { assert Links(m, seen, j - 1); }
  }

  ghost function Elems(s: seq<nat>): (e: set<nat>)
    ensures forall x :: x in e <==> x in s
  {
    set x | x in s
  }

  function FirstAt(s: seq<nat>, x: nat): (j: nat)
    ensures j <= |s| && x !in s[..j] && (j < |s| ==> s[j] == x)
  {
    if s == [] || s[0] == x then 0
    else
      var j := 1 + FirstAt(s[1..], x);
      assert s[..j] == [s[0]] + s[1..][..j - 1];
      j
  }
}
