/**
 How single block writes change the image of a clean medium: writes outside every file are
 invisible, and each of the two committing writes changes exactly one file.
 */
module TinyfsCommit {
  import opened Octets
  import opened TinyfsBlock
  import opened TinyfsMedium

  /** Block b belongs to no file. */
  ghost predicate Unowned(m: Medium, b: nat) {
    !IsDir(m, b) && forall d :: Intact(m, d) ==> b !in FileChain(m, d)
  }

  /** m' differs from m only in blocks that belong to no file and are no directories. */
  ghost predicate OnlyUnowned(m: Medium, m': Medium) {
    && |m'| == |m|
    && forall b: nat :: b < |m| && m'[b] != m[b] ==> Unowned(m, b) && !IsDir(m', b)
  }

  lemma Untouched(m: Medium, m': Medium)
    requires Clean(m) && OnlyUnowned(m, m')
    ensures Clean(m') && Image(m') == Image(m)
    ensures forall b :: Intact(m', b) <==> Intact(m, b)
    ensures forall b :: Intact(m, b) ==> FileChain(m', b) == FileChain(m, b)
    ensures forall b: nat :: b < |m| ==> (IsDir(m', b) <==> IsDir(m, b)) && (IsDir(m, b) ==> At(m', b) == At(m, b))
  {
    forall b: nat | b < |m|
      ensures IsDir(m', b) <==> IsDir(m, b)
      ensures IsDir(m, b) ==> m'[b] == m[b]
    {
    }
    forall b | Intact(m, b)
      ensures Intact(m', b) && FileChain(m', b) == FileChain(m, b) && ImageAt(m', b) == ImageAt(m, b)
    {
      var p := FileChain(m, b);
      assert forall i :: 0 <= i < |p| ==> p[i] in p;
      ChainFrame(m, m', p);
    }
  }

  /** A file none of whose blocks is written stays what it is. */
  lemma FileFrame(m: Medium, m': Medium, b: nat)
    requires |m'| == |m| && Intact(m, b) && m'[b] == m[b]
    requires forall x :: x in FileChain(m, b) ==> m'[x] == m[x]
    ensures Intact(m', b) && FileChain(m', b) == FileChain(m, b) && ImageAt(m', b) == ImageAt(m, b)
  {
    var p := FileChain(m, b);
    assert forall i :: 0 <= i < |p| ==> p[i] in p;
    ChainFrame(m, m', p);
  }

  /** Apart from file d, the directories and chains of m are those of m'. */
  ghost predicate OthersStay(m: Medium, m': Medium, d: nat) {
    && |m'| == |m|
    && (forall b: nat :: b < |m| && b != d && (IsDir(m, b) || IsDir(m', b)) ==> m'[b] == m[b])
    && (forall b, x :: b != d && Intact(m, b) && x in FileChain(m, b) ==> m'[x] == m[x])
  }

  lemma OthersIntact(m: Medium, m': Medium, d: nat)
    requires Clean(m) && OthersStay(m, m', d)
    ensures forall b :: b != d ==> (Intact(m', b) <==> Intact(m, b)) && (IsDir(m', b) ==> Intact(m', b))
    ensures forall b :: b != d && Intact(m, b) ==> FileChain(m', b) == FileChain(m, b) && ImageAt(m', b) == ImageAt(m, b)
  {
    forall b: nat | b != d && IsDir(m', b)
      ensures Intact(m, b)
    {
      assert m'[b] == m[b] && IsDir(m, b);
    }
    forall b | b != d && Intact(m, b)
      ensures Intact(m', b) && FileChain(m', b) == FileChain(m, b) && ImageAt(m', b) == ImageAt(m, b)
    {
      FileFrame(m, m', b);
    }
  }

  /** A new chain r for file d that shares no block with another file leaves the medium clean. */
  lemma Rechained(m: Medium, m': Medium, d: nat, r: seq<nat>)
    requires Clean(m) && OthersStay(m, m', d)
    requires IsDir(m', d) && IsChain(m', r) && r[0] == At(m', d).dbno
    requires forall b :: b != d && Intact(m, b) ==> Disjoint(r, FileChain(m, b))
    ensures Clean(m')
    ensures forall b :: Intact(m', b) <==> Intact(m, b) || b == d
    ensures forall b :: Intact(m', b) ==> FileChain(m', b) == if b == d then r else FileChain(m, b)
    ensures Image(m') == Image(m)[d := FileImage(At(m', d).name, At(m', d).pin, Bytes(m', r))]
  {
    hide Image, IsChain;
    OthersIntact(m, m', d);
    ChainOfIs(m', r);
    RechainedClean(m, m', d);
    RechainedImage(m, m', d);
  }

  lemma RechainedClean(m: Medium, m': Medium, d: nat)
    requires Clean(m) && Intact(m', d)
    requires forall b: nat :: b != d ==> (Intact(m', b) <==> Intact(m, b)) && (IsDir(m', b) ==> Intact(m', b))
    requires forall b: nat :: b != d && Intact(m, b) ==> FileChain(m', b) == FileChain(m, b)
    requires forall b: nat :: b != d && Intact(m, b) ==> Disjoint(FileChain(m', d), FileChain(m, b))
    ensures Clean(m')
  {
    hide HasChain, IsChain;
    forall b: nat, c: nat | IsDir(m', b) && IsDir(m', c) && b != c
      ensures Intact(m', b) && Intact(m', c) && Disjoint(FileChain(m', b), FileChain(m', c))
    {
      if b != d && c != d { assert Disjoint(FileChain(m, b), FileChain(m, c)); }
    }
  }

  lemma RechainedImage(m: Medium, m': Medium, d: nat)
    requires Intact(m', d)
    requires forall b: nat :: b != d ==> (Intact(m', b) <==> Intact(m, b))
    requires forall b: nat :: b != d && Intact(m, b) ==> ImageAt(m', b) == ImageAt(m, b)
    ensures Image(m') == Image(m)[d := ImageAt(m', d)]
  {
  }

  /** m' is m with block e rewritten to hold x and lead on to chain q, or to end there. */
  ghost predicate Rewritten(m: Medium, m': Medium, e: nat, q: seq<nat>, x: seq<Byte>) {
    && |m'| == |m| && e < |m|
    && (forall b: nat :: b < |m| && b != e ==> m'[b] == m[b])
    && m'[e] == (if q == [] then End(x) else Data(q[0], x))
    && (q != [] ==> IsChain(m, q))
  }

  /** Chain p with its last block rewritten to lead on to chain q. */
  lemma ExtendChain(m: Medium, m': Medium, p: seq<nat>, q: seq<nat>, x: seq<Byte>)
    requires IsChain(m, p) && Disjoint(q, p)
    requires Rewritten(m, m', p[|p| - 1], q, x)
    ensures IsChain(m', p + q)
  {
    var n := |p| - 1;
    var e := p[n];
    var r := p + q;
    forall i | 0 <= i < |p|
      ensures i < n ==> p[i] != e
      ensures IsData(m', p[i])
    {
      if i < n { ChainAcyclic(m, p, i, n); }
    }
    forall i | 0 <= i < |q|
      ensures q[i] != e && IsData(m', q[i])
    {
      assert q[i] in q && e in p;
    }
    assert forall i :: 0 <= i < |r| ==> r[i] == if i <= n then p[i] else q[i - n - 1];
    forall i | 0 <= i < |r| - 1
      ensures Links(m', r, i)
    {
      if i < n { assert Links(m, p, i); }
      else if n < i { assert Links(m, q, i - n - 1); }
    }
  }

  lemma ExtendBytes(m: Medium, m': Medium, p: seq<nat>, q: seq<nat>, x: seq<Byte>)
    requires IsChain(m, p) && Disjoint(q, p)
    requires Rewritten(m, m', p[|p| - 1], q, x)
    requires IsChain(m', p + q)
    ensures Bytes(m', p + q) == Bytes(m, p[..|p| - 1]) + x + Bytes(m, q)
  {
    var n := |p| - 1;
    var e := p[n];
    assert forall i :: 0 <= i < |p| ==> (p + q)[i] == p[i];
    assert forall i :: 0 <= i < |q| ==> (p + q)[n + 1 + i] == q[i];
    forall i | 0 <= i < n
      ensures p[i] != e
    {
      ChainAcyclic(m, p, i, n);
    }
    forall i | 0 <= i < |q|
      ensures q[i] != e
    {
      assert q[i] in q && e in p;
    }
    BytesConcat(m', p, q);
    BytesFrame(m, m', p[..n]);
    BytesFrame(m, m', q);
  }

  /** Rewriting the last block of file d so that it holds x and leads on to chain q. */
  lemma CommitTail(m: Medium, m': Medium, d: nat, q: seq<nat>, x: seq<Byte>)
    requires Clean(m) && Intact(m, d)
    requires Rewritten(m, m', FileChain(m, d)[|FileChain(m, d)| - 1], q, x)
    requires forall b :: b in q ==> Unowned(m, b)
    ensures Clean(m')
    ensures forall b :: Intact(m', b) <==> Intact(m, b)
    ensures forall b :: Intact(m, b) ==>
              FileChain(m', b) == if b == d then FileChain(m, d) + q else FileChain(m, b)
    ensures var p := FileChain(m, d);
            Image(m') == Image(m)[d := FileImage(At(m, d).name, At(m, d).pin,
                                                 Bytes(m, p[..|p| - 1]) + x + Bytes(m, q))]
  {
    var p := FileChain(m, d);
    var e := p[|p| - 1];
    assert e in p && IsData(m, e);
    ExtendChain(m, m', p, q, x);
    ExtendBytes(m, m', p, q, x);
    assert (p + q)[0] == p[0];
    forall b | b != d && Intact(m, b)
      ensures Disjoint(p + q, FileChain(m, b))
    {
      assert Disjoint(p, FileChain(m, b));
    }
    Rechained(m, m', d, p + q);
  }

  lemma OffChain(m: Medium, b: nat, d: nat)
    requires Intact(m, b) && !IsData(m, d)
    ensures d !in FileChain(m, b)
  {
    var p := FileChain(m, b);
    assert forall i :: 0 <= i < |p| ==> IsData(m, p[i]);
  }

  /** m' is m with block d, which is on no chain, rewritten. */
  ghost predicate DirRewritten(m: Medium, m': Medium, d: nat) {
    d < |m| && !IsData(m, d) && |m'| == |m| && forall b: nat :: b < |m| && b != d ==> m'[b] == m[b]
  }

  lemma DirRewrittenStays(m: Medium, m': Medium, d: nat)
    requires Clean(m) && DirRewritten(m, m', d)
    ensures OthersStay(m, m', d)
  {
    forall b, x | b != d && Intact(m, b) && x in FileChain(m, b)
      ensures m'[x] == m[x]
    {
      OffChain(m, b, d);
    }
  }

  /** Writing directory block d so that it leads to chain q. */
  lemma CommitDir(m: Medium, m': Medium, d: nat, q: seq<nat>)
    requires Clean(m) && DirRewritten(m, m', d)
    requires IsChain(m, q) && (forall b :: b in q ==> Unowned(m, b))
    requires IsDir(m', d) && At(m', d).dbno == q[0]
    ensures Clean(m')
    ensures forall b :: Intact(m', b) <==> Intact(m, b) || b == d
    ensures forall b :: Intact(m', b) ==> FileChain(m', b) == if b == d then q else FileChain(m, b)
    ensures Image(m') == Image(m)[d := FileImage(At(m', d).name, At(m', d).pin, Bytes(m, q))]
  {
    DirRewrittenStays(m, m', d);
    ChainFrame(m, m', q);
    Rechained(m, m', d, q);
  }

  lemma ImageWithout(m: Medium, m': Medium, d: nat)
    requires forall b :: Intact(m', b) <==> Intact(m, b) && b != d
    requires forall b :: Intact(m', b) ==> ImageAt(m', b) == ImageAt(m, b)
    ensures Image(m') == Image(m) - {d}
  {
  }

  /** Overwriting directory block d with something that is no block removes file d only. */
  lemma CommitRemoval(m: Medium, m': Medium, d: nat)
    requires Clean(m) && DirRewritten(m, m', d) && !IsDir(m', d)
    ensures Clean(m')
    ensures forall b :: Intact(m', b) <==> Intact(m, b) && b != d
    ensures forall b :: Intact(m', b) ==> FileChain(m', b) == FileChain(m, b)
    ensures Image(m') == Image(m) - {d}
  {
    DirRewrittenStays(m, m', d);
    OthersIntact(m, m', d);
    assert !Intact(m', d);
    ImageWithout(m, m', d);
  }
}
