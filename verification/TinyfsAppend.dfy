/**
 Appending to a file: building the new chain from its end in free blocks, and what the one
 committing write makes of the file.
 */
module TinyfsAppend {
  import opened Octets
  import opened TinyfsBlock
  import opened TinyfsMedium
  import opened TinyfsCommit
  import opened TinyfsWalk
  import opened TinyfsTable

  /** The two media hold the same files in the same blocks. */
  ghost predicate SameFiles(m: Medium, m': Medium) {
    && |m'| == |m| && Clean(m) && Clean(m') && Image(m') == Image(m)
    && (forall b: nat :: Intact(m', b) <==> Intact(m, b))
    && (forall b: nat :: Intact(m, b) ==> FileChain(m', b) == FileChain(m, b) && m'[b] == m[b])
  }

  lemma FreeIsUnowned(m: Medium, used: set<nat>, b: nat)
    requires Mapped(m, used) && b !in used
    ensures Unowned(m, b)
  {
  }

  /** Putting data or an end into a free block changes no file. */
  lemma FreeBlockWritten(m: Medium, m': Medium, used: set<nat>, b: nat)
    requires Clean(m) && Mapped(m, used) && b < |m| && b !in used
    requires |m'| == |m| && m' == m[b := m'[b]] && !IsDir(m', b)
    ensures SameFiles(m, m') && Mapped(m', used)
  {
    FreeIsUnowned(m, used, b);
    Untouched(m, m');
    forall d: nat, x | Intact(m', d) && x in FileChain(m', d)
      ensures x in used
    {
      assert x in FileChain(m, d);
    }
  }

  lemma PrependChain(m: Medium, m': Medium, b: nat, q: seq<nat>, x: seq<Byte>)
    requires Rewritten(m, m', b, q, x) && b !in q
    ensures IsChain(m', [b] + q)
  {
    var r := [b] + q;
    assert forall i :: 0 <= i < |q| ==> q[i] in q && r[i + 1] == q[i];
    forall i | 0 <= i < |r|
      ensures IsData(m', r[i])
    {
      if i > 0 { assert r[i] == q[i - 1]; }
    }
    forall i | 0 <= i < |r| - 1
      ensures Links(m', r, i)
    {
      if i > 0 { assert Links(m, q, i - 1); }
    }
  }

  lemma PrependBytes(m: Medium, m': Medium, b: nat, q: seq<nat>, x: seq<Byte>)
    requires Rewritten(m, m', b, q, x) && b !in q
    ensures forall i :: 0 <= i < |[b] + q| ==> IsData(m', ([b] + q)[i])
    ensures Bytes(m', [b] + q) == x + Bytes(m, q)
  {
    assert forall i :: 0 <= i < |q| ==> q[i] in q;
    assert Bytes(m', [b]) == x by {
      assert [b][..0] == [];
    }
    BytesFrame(m, m', q);
    BytesConcat(m', [b], q);
  }

  /** Chain q, in blocks that were free, holds bytes; nothing else has changed. */
  ghost predicate Building(m0: Medium, used0: set<nat>, m: Medium, used: set<nat>, q: seq<nat>, dbno: nat, bytes: seq<Byte>) {
    && SameFiles(m0, m) && Mapped(m, used0)
    && (forall b: nat :: b < |m0| && b in used0 ==> m[b] == m0[b])
    && used == used0 + Elems(q) && Fresh(q, used0)
    && (if q == [] then dbno == NOTABNO else IsChain(m, q) && dbno == q[0] && DataAt(m, q[|q| - 1]) != [])
    && Bytes(m, q) == bytes
  }

  lemma BuildStart(m: Medium, used: set<nat>)
    requires Clean(m) && Mapped(m, used)
    ensures SameFiles(m, m) && Building(m, used, m, used, [], NOTABNO, [])
  {
  }

  lemma BuiltFrom(m0: Medium, used0: set<nat>, m: Medium, used: set<nat>, q: seq<nat>, dbno: nat, bytes: seq<Byte>)
    requires Building(m0, used0, m, used, q, dbno, bytes)
    ensures SameFiles(m0, m) && forall b: nat :: b < |m0| && b in used0 ==> m[b] == m0[b]
  {
  }

  lemma BuildStep(m0: Medium, used0: set<nat>, m: Medium, used: set<nat>, q: seq<nat>, dbno: nat, bytes: seq<Byte>,
                  m': Medium, bno: nat, x: seq<Byte>)
    requires Building(m0, used0, m, used, q, dbno, bytes)
    requires Rewritten(m, m', bno, q, x) && bno !in used && x != []
    ensures Building(m0, used0, m', used + {bno}, [bno] + q, bno, x + bytes)
  {
    FreeBlockWritten(m, m', used0, bno);
    PrependChain(m, m', bno, q, x);
    PrependBytes(m, m', bno, q, x);
    assert Elems([bno] + q) == Elems(q) + {bno};
    var r := [bno] + q;
    if q != [] {
      assert r[|r| - 1] == q[|q| - 1] && q[|q| - 1] in q;
    }
  }

  lemma UsedGrows(m: Medium, used: set<nat>, used': set<nat>)
    requires Mapped(m, used) && used <= used'
    ensures Mapped(m, used')
  {
  }

  lemma TableStays(m: Medium, m': Medium, used: set<nat>, used': set<nat>, f: seq<Tfile>)
    requires SameFiles(m, m') && TableOk(m, used, f) && used <= used'
    requires forall b: nat :: b < |m| && b in used ==> m'[b] == m[b]
    ensures TableOk(m', used', f)
    ensures forall i: nat :: Live(f, i) ==> (Exact(m', f[i]) <==> Exact(m, f[i])) && (Whole(m', f[i]) <==> Whole(m, f[i]))
  {
    forall i: nat | Live(f, i)
      ensures EntryOk(m', used', f[i])
      ensures (Exact(m', f[i]) <==> Exact(m, f[i])) && (Whole(m', f[i]) <==> Whole(m, f[i]))
    {
      assert EntryOk(m, used, f[i]);
      WholeStays(m, m', f[i]);
    }
  }

  // ----- what an append makes of a file

  /** The last block of the file is not an empty end block behind other blocks. */
  ghost predicate GoodTail(m: Medium, e: Tfile)
    requires Exact(m, e)
  {
    e.length == 0 || DataAt(m, FileChain(m, e.bno)[|FileChain(m, e.bno)| - 1]) != []
  }

  /** A file as tinyfs itself leaves it. */
  ghost predicate Whole(m: Medium, e: Tfile) {
    Exact(m, e) && GoodTail(m, e)
  }

  /** Whether a file is whole can be told from its length and the number of its blocks. */
  lemma WholeByLength(m: Medium, e: Tfile)
    requires Exact(m, e) && e.dbno != NOTABNO
    ensures GoodTail(m, e) <==> e.length == 0 || e.length > DLEN * (|FileChain(m, e.bno)| - 1)
  {
    ChainLength(m, FileChain(m, e.bno));
  }

  lemma WholeStays(m: Medium, m': Medium, e: Tfile)
    requires e.dbno != NOTABNO ==> Intact(m, e.bno) && Intact(m', e.bno)
    requires e.dbno != NOTABNO ==> FileChain(m', e.bno) == FileChain(m, e.bno) && Image(m')[e.bno] == Image(m)[e.bno]
    ensures Exact(m', e) <==> Exact(m, e)
    ensures Whole(m', e) <==> Whole(m, e)
  {
    if Exact(m, e) && e.dbno != NOTABNO {
      WholeByLength(m, e);
      WholeByLength(m', e);
    }
  }

  /** The empty end block becomes a data block, which counts as full. */
  ghost function Gap(m: Medium, e: Tfile): seq<Byte>
    requires Exact(m, e)
  {
    if GoodTail(m, e) then [] else Zeros(DLEN)
  }

  ghost function Appended(m: Medium, e: Tfile, data: seq<Byte>): FileImage
    requires Exact(m, e)
  {
    FileImage(if e.length == 0 then Take(e.name, NLEN - 1) else At(m, e.bno).name,
              e.pin, BytesOf(m, e) + Gap(m, e) + data)
  }

  /** Where new blocks begin: the next block boundary, unless the data ends before it. */
  function Boundary(off: nat, total: nat): (b: nat)
    requires off <= total
    ensures off <= b <= total && b < off + DLEN && (b < total ==> b % DLEN == 0)
    ensures off % DLEN == 0 ==> b == off
  {
    var up := ((off + DLEN - 1) / DLEN) * DLEN;
    if up < total then up else total
  }

  /** Counting down in steps of one block from the last one stops at the boundary. */
  lemma BoundaryReached(off: nat, total: nat, last: nat, j: int)
    requires DLEN * j < off <= last <= DLEN * j + DLEN
    requires last == total || (last == DLEN * j + DLEN && last < total)
    ensures last == Boundary(off, total)
    ensures (total - 1) / DLEN - j == Needed(off, total - off)
  {
    assert (off + DLEN - 1) / DLEN == j + 1;
    assert (off - 1) / DLEN == j;
  }

  /** The end block has room for the bytes up to the next block boundary. */
  lemma TailRoom(m: Medium, e: Tfile, total: nat)
    requires Exact(m, e) && 0 < e.length <= total
    ensures var last := Boundary(e.length, total);
            var p := FileChain(m, e.bno);
            var t := DataAt(m, p[|p| - 1]);
            && |t| + last - e.length <= DLEN
            && (last < total && t != [] ==> |t| + last - e.length == DLEN)
            && (t == [] ==> last == e.length)
  {
    ChainLength(m, FileChain(m, e.bno));
  }

  /** What the committing write stores in the last block: old bytes, new ones, and padding. */
  ghost function TailData(m: Medium, e: Tfile, q: seq<nat>, data: seq<Byte>, last: nat): seq<Byte>
    requires Exact(m, e) && e.dbno != NOTABNO && e.length <= last <= e.length + |data|
  {
    var p := FileChain(m, e.bno);
    var t := DataAt(m, p[|p| - 1]) + data[..last - e.length];
    if q == [] || |t| > DLEN then t else t + Zeros(DLEN - |t|)
  }

  /** The blocks of q hold the bytes from last on; what precedes fits the last block of e. */
  ghost predicate ReadyToCommit(m: Medium, e: Tfile, q: seq<nat>, data: seq<Byte>, last: nat) {
    && data != [] && Clean(m) && Exact(m, e)
    && last == Boundary(e.length, e.length + |data|)
    && (q == [] <==> last == e.length + |data|)
    && (q != [] ==> IsChain(m, q) && DataAt(m, q[|q| - 1]) != [])
    && (forall b :: b in q ==> Unowned(m, b))
    && Bytes(m, q) == data[last - e.length..]
  }

  lemma AppendBytes(m: Medium, e: Tfile, q: seq<nat>, data: seq<Byte>, last: nat)
    requires ReadyToCommit(m, e, q, data, last) && e.dbno != NOTABNO && e.length > 0
    ensures var p := FileChain(m, e.bno);
            Bytes(m, p[..|p| - 1]) + TailData(m, e, q, data, last) + Bytes(m, q) == BytesOf(m, e) + Gap(m, e) + data
    ensures q == [] ==> |TailData(m, e, q, data, last)| <= DLEN
  {
    var p := FileChain(m, e.bno);
    var t := DataAt(m, p[|p| - 1]);
    var fill := data[..last - e.length];
    TailRoom(m, e, e.length + |data|);
    TailBytes(t, Gap(m, e), fill, q != []);
    Reassociate(Bytes(m, p[..|p| - 1]), t, Gap(m, e), fill, Bytes(m, q));
    assert data == fill + data[last - e.length..];
  }

  /** The committing write of an append to a file that has data. */
  lemma AppendCommits(m: Medium, m': Medium, e: Tfile, q: seq<nat>, data: seq<Byte>, last: nat)
    requires ReadyToCommit(m, e, q, data, last) && e.dbno != NOTABNO && e.length > 0 && At(m, e.bno).pin == e.pin
    requires Rewritten(m, m', FileChain(m, e.bno)[|FileChain(m, e.bno)| - 1], q, TailData(m, e, q, data, last))
    ensures Clean(m')
    ensures forall b: nat :: Intact(m', b) <==> Intact(m, b)
    ensures forall b: nat :: Intact(m, b) ==>
              FileChain(m', b) == if b == e.bno then FileChain(m, b) + q else FileChain(m, b)
    ensures Image(m') == Image(m)[e.bno := Appended(m, e, data)]
  {
    AppendBytes(m, e, q, data, last);
    CommitTail(m, m', e.bno, q, TailData(m, e, q, data, last));
  }

  lemma TailBytes(t: seq<Byte>, gap: seq<Byte>, fill: seq<Byte>, more: bool)
    requires |t + fill| <= DLEN && gap == (if t == [] then Zeros(DLEN) else [])
    requires t == [] ==> fill == []
    requires if more then t != [] ==> |t + fill| == DLEN else t != []
    ensures (if more then t + fill + Zeros(DLEN - |t + fill|) else t + fill) == t + gap + fill
  {
    if more && t == [] {
      assert t + fill == [];
    }
  }

  lemma Reassociate(a: seq<Byte>, t: seq<Byte>, gap: seq<Byte>, fill: seq<Byte>, rest: seq<Byte>)
    ensures a + (t + gap + fill) + rest == a + t + gap + (fill + rest)
  {
  }

  lemma BadTailView()
    ensures var m := View([DirBlock([65], 0, 1), DataBlock(2, Zeros(DLEN)), EndBlock([])]);
            |m| == 3 && m[0] == Dir([65], 0, 1) && m[1] == Data(2, Zeros(DLEN)) && m[2] == End([])
  {
    hide Seal, Decode, DirBlock, DataBlock, EndBlock, Sum;
    DirRoundTrip([65], 0, 1, 3);
    DataRoundTrip(2, Zeros(DLEN), 3);
    EndRoundTrip([], 3);
  }

  /**
   A medium on which an append goes wrong: the file ends in an empty end block behind a full
   one, so that 44 zeros come between its bytes and what is appended.
   */
  lemma BadTailExample() returns (m: Medium, e: Tfile)
    ensures m == View([DirBlock([65], 0, 1), DataBlock(2, Zeros(DLEN)), EndBlock([])])
    ensures Clean(m) && Intact(m, 0) && e == MountedEntry(m, 0) && Exact(m, e) && !GoodTail(m, e)
    ensures Appended(m, e, [7]).content == BytesOf(m, e) + Zeros(DLEN) + [7]
  {
    hide Seal, Decode, DirBlock, DataBlock, EndBlock, Sum, View;
    m := View([DirBlock([65], 0, 1), DataBlock(2, Zeros(DLEN)), EndBlock([])]);
    BadTailView();
    var p := [1, 2];
    assert Links(m, p, 0);
    assert IsChain(m, p);
    ChainOfIs(m, p);
    ChainLength(m, p);
    e := MountedEntry(m, 0);
  }

  // ----- running out of space

  ghost function FreeSet(n: nat, used: set<nat>): (free: set<nat>)
    ensures forall b :: b in free <==> 0 <= b < n && b !in used
  {
    set b | 0 <= b < n && b !in used
  }

  /** How many new blocks bytes [offset, offset + n) call for. */
  function Needed(offset: nat, n: nat): int {
    (offset + n - 1) / DLEN - (offset - 1) / DLEN
  }

  lemma TakeFree(n: nat, used: set<nat>, b: nat)
    requires b < n && b !in used
    ensures |FreeSet(n, used + {b})| == |FreeSet(n, used)| - 1
  {
    assert FreeSet(n, used + {b}) == FreeSet(n, used) - {b};
  }

  // ----- the state after an append

  /** The entry of a file after an append. */
  function Grown(e: Tfile, q: seq<nat>, n: nat): Tfile {
    e.(dbno := if e.length == 0 && q != [] then q[0] else e.dbno, length := e.length + n)
  }

  /**
   The medium and table after a committed append to entry i: the table is sound, the other
   files are as exact as before, and this one is exact just when its tail was good.
   */
  ghost predicate AppendDone(m0: Medium, m: Medium, used: set<nat>, f: seq<Tfile>, f': seq<Tfile>, i: nat, data: seq<Byte>)
    requires Live(f, i) && Exact(m0, f[i])
  {
    && |m| == |m0| && |f'| == |f| && Clean(m) && Mapped(m, used) && TableOk(m, used, f')
    && Image(m) == Image(m0)[f[i].bno := Appended(m0, f[i], data)]
    && (forall j: nat :: Live(f, j) && j != i ==> (Exact(m, f'[j]) <==> Exact(m0, f[j])) && (Whole(m, f'[j]) <==> Whole(m0, f[j])))
    && f'[i].dbno != NOTABNO && Intact(m, f'[i].bno)
    && (Exact(m, f'[i]) <==> GoodTail(m0, f[i]))
    && (Whole(m0, f[i]) ==> Whole(m, f'[i]))
    && BytesOf(m, f'[i]) == BytesOf(m0, f[i]) + Gap(m0, f[i]) + data
  }

  lemma AppendDoneKeeps(m0: Medium, m: Medium, used: set<nat>, f: seq<Tfile>, f': seq<Tfile>, i: nat, data: seq<Byte>)
    requires Live(f, i) && Exact(m0, f[i]) && AppendDone(m0, m, used, f, f', i, data)
    ensures Clean(m) && Mapped(m, used) && TableOk(m, used, f')
  {
  }

  /** Block z was rewritten; file d, and nothing else, is now fi. */
  ghost predicate Committed(m: Medium, m': Medium, z: nat, d: nat, fi: FileImage) {
    && |m'| == |m| && Clean(m') && Intact(m', d)
    && (forall b: nat :: b < |m| && b != z ==> m'[b] == m[b])
    && (forall b: nat :: b != d ==> (Intact(m', b) <==> Intact(m, b)))
    && (forall b: nat :: b != d && Intact(m, b) ==> FileChain(m', b) == FileChain(m, b))
    && Image(m') == Image(m)[d := fi]
  }

  lemma MappedAfter(m: Medium, m': Medium, z: nat, d: nat, fi: FileImage, used: set<nat>)
    requires Committed(m, m', z, d, fi) && Mapped(m, used) && d in used
    requires forall x :: x in FileChain(m', d) ==> x in used
    ensures Mapped(m', used)
  {
    forall b: nat, x | Intact(m', b) && x in FileChain(m', b)
      ensures x in used
    {
      if b != d { assert x in FileChain(m, b); }
    }
  }

  lemma CommittedOther(m: Medium, m': Medium, z: nat, d: nat, fi: FileImage, e: Tfile)
    requires Clean(m) && Committed(m, m', z, d, fi) && e.bno != d && (e.dbno != NOTABNO ==> IsDir(m, e.bno))
    ensures e.dbno != NOTABNO ==>
              && Intact(m, e.bno) && Intact(m', e.bno)
              && FileChain(m', e.bno) == FileChain(m, e.bno) && Image(m')[e.bno] == Image(m)[e.bno]
  {
  }

  lemma TableAfter(m: Medium, m': Medium, z: nat, fi: FileImage, used: set<nat>, f: seq<Tfile>, i: nat, e: Tfile)
    requires Clean(m) && Live(f, i) && Committed(m, m', z, f[i].bno, fi) && TableOk(m, used, f)
    requires z == f[i].bno || IsData(m, z)
    requires e.name == f[i].name && e.bno == f[i].bno && EntryOk(m', used, e)
    ensures TableOk(m', used, f[i := e])
    ensures forall j: nat :: Live(f, j) && j != i ==> (Exact(m', f[j]) <==> Exact(m, f[j])) && (Whole(m', f[j]) <==> Whole(m, f[j]))
  {
    hide Whole, Exact, BytesOf, Image, IsChain, HasChain, Clean;
    var d := f[i].bno;
    forall j: nat | Live(f, j) && j != i
      ensures EntryOk(m', used, f[j]) && f[j].bno != d
      ensures (Exact(m', f[j]) <==> Exact(m, f[j])) && (Whole(m', f[j]) <==> Whole(m, f[j]))
    {
      assert EntryOk(m, used, f[j]);
      assert f[j].bno != z;
      CommittedOther(m, m', z, d, fi, f[j]);
      WholeStays(m, m', f[j]);
    }
    var f' := f[i := e];
    forall j: nat | Live(f', j)
      ensures EntryOk(m', used, f'[j])
      ensures forall k: nat :: Live(f', k) && k != j ==> f'[k].bno != f'[j].bno
    {
      assert Live(f, j);
    }
  }

  lemma EntryAfter(m: Medium, m': Medium, z: nat, e: Tfile, e': Tfile, q: seq<nat>, data: seq<Byte>)
    requires Clean(m) && Exact(m, e) && Committed(m, m', z, e.bno, Appended(m, e, data))
    requires var p := FileChain(m', e.bno); DataAt(m', p[|p| - 1]) != []
    requires e' == Grown(e, q, |data|) && e'.dbno != NOTABNO
    ensures Intact(m', e'.bno) && BytesOf(m', e') == BytesOf(m, e) + Gap(m, e) + data
    ensures (Exact(m', e') <==> GoodTail(m, e)) && (Whole(m, e) ==> Whole(m', e'))
  {
    hide Clean, IsChain;
    assert Image(m')[e.bno] == Appended(m, e, data);
  }

  lemma AppendSettles(m: Medium, m': Medium, z: nat, used: set<nat>, f: seq<Tfile>, i: nat, q: seq<nat>, data: seq<Byte>)
    requires Clean(m) && Live(f, i) && Exact(m, f[i]) && Mapped(m, used) && TableOk(m, used, f) && f[i].bno in used
    requires Committed(m, m', z, f[i].bno, Appended(m, f[i], data)) && (z == f[i].bno || IsData(m, z))
    requires var p := FileChain(m', f[i].bno);
             (forall x :: x in p ==> x in used) && DataAt(m', p[|p| - 1]) != []
    requires Grown(f[i], q, |data|).dbno != NOTABNO && EntryOk(m', used, Grown(f[i], q, |data|))
    ensures AppendDone(m, m', used, f, f[i := Grown(f[i], q, |data|)], i, data)
  {
    hide Mapped, TableOk, Clean, EntryOk, Whole, Exact, GoodTail, BytesOf, Gap, Appended, Intact;
    var fi := Appended(m, f[i], data);
    MappedAfter(m, m', z, f[i].bno, fi, used);
    TableAfter(m, m', z, fi, used, f, i, Grown(f[i], q, |data|));
    EntryAfter(m, m', z, f[i], Grown(f[i], q, |data|), q, data);
  }

  /** The extended chain ends in a block that holds data. */
  lemma TailNotEmpty(m: Medium, m': Medium, e: Tfile, q: seq<nat>, data: seq<Byte>, last: nat)
    requires ReadyToCommit(m, e, q, data, last) && e.dbno != NOTABNO && e.length > 0
    requires Rewritten(m, m', FileChain(m, e.bno)[|FileChain(m, e.bno)| - 1], q, TailData(m, e, q, data, last))
    ensures var r := FileChain(m, e.bno) + q;
            IsData(m', r[|r| - 1]) && DataAt(m', r[|r| - 1]) != []
  {
    hide Clean, Bytes;
    var p := FileChain(m, e.bno);
    var r := p + q;
    var z := p[|p| - 1];
    assert z in p;
    TailRoom(m, e, e.length + |data|);
    if q != [] {
      assert q[|q| - 1] in q && r[|r| - 1] == q[|q| - 1] != z;
    } else {
      assert r[|r| - 1] == z;
    }
  }

  lemma TailCommitted(m: Medium, m': Medium, e: Tfile, q: seq<nat>, data: seq<Byte>, last: nat)
    requires ReadyToCommit(m, e, q, data, last) && e.dbno != NOTABNO && e.length > 0 && At(m, e.bno).pin == e.pin
    requires Rewritten(m, m', FileChain(m, e.bno)[|FileChain(m, e.bno)| - 1], q, TailData(m, e, q, data, last))
    ensures Committed(m, m', FileChain(m, e.bno)[|FileChain(m, e.bno)| - 1], e.bno, Appended(m, e, data))
    ensures FileChain(m', e.bno) == FileChain(m, e.bno) + q
  {
    hide Appended, TailData, Clean, IsChain;
    AppendCommits(m, m', e, q, data, last);
  }

  lemma TailEntryOk(m: Medium, m': Medium, used: set<nat>, e: Tfile, q: seq<nat>, n: nat)
    requires Intact(m, e.bno) && EntryOk(m, used, e) && e.length > 0 && e.dbno != NOTABNO && |m'| == |m|
    requires forall b: nat :: b < |m| && b != FileChain(m, e.bno)[|FileChain(m, e.bno)| - 1] ==> m'[b] == m[b]
    ensures EntryOk(m', used, Grown(e, q, n))
    ensures IsData(m, FileChain(m, e.bno)[|FileChain(m, e.bno)| - 1])
  {
  }

  lemma JoinedUsed(m: Medium, used: set<nat>, d: nat, q: seq<nat>)
    requires Mapped(m, used) && Intact(m, d) && forall x :: x in q ==> x in used
    ensures forall x :: x in FileChain(m, d) + q ==> x in used
  {
  }

  /** The append to a file that has data, from the chain built to the medium written. */
  lemma TailAppendDone(m: Medium, m': Medium, used: set<nat>, f: seq<Tfile>, i: nat, q: seq<nat>, data: seq<Byte>, last: nat)
    requires Mapped(m, used) && TableOk(m, used, f) && Live(f, i) && f[i].length > 0 && (forall x :: x in q ==> x in used)
    requires ReadyToCommit(m, f[i], q, data, last) && f[i].dbno != NOTABNO && EntryOk(m, used, f[i])
    requires Rewritten(m, m', FileChain(m, f[i].bno)[|FileChain(m, f[i].bno)| - 1], q, TailData(m, f[i], q, data, last))
    ensures AppendDone(m, m', used, f, f[i := Grown(f[i], q, |data|)], i, data)
  {
    hide AppendDone, TableOk, Mapped, Appended, Clean, GoodTail, Whole, Gap, TailData, Committed, IsChain;
    var e := f[i];
    TailCommitted(m, m', e, q, data, last);
    TailNotEmpty(m, m', e, q, data, last);
    TailEntryOk(m, m', used, e, q, |data|);
    JoinedUsed(m, used, e.bno, q);
    AppendSettles(m, m', FileChain(m, e.bno)[|FileChain(m, e.bno)| - 1], used, f, i, q, data);
  }

  /** The append to a file without data: its directory block is (re)written. */
  lemma FirstAppendDone(m: Medium, m': Medium, used: set<nat>, f: seq<Tfile>, i: nat, q: seq<nat>, data: seq<Byte>)
    requires Mapped(m, used) && TableOk(m, used, f) && Live(f, i) && f[i].length == 0 && (forall x :: x in q ==> x in used)
    requires ReadyToCommit(m, f[i], q, data, 0) && q != [] && EntryOk(m, used, f[i])
    requires DirRewritten(m, m', f[i].bno) && m'[f[i].bno] == Dir(Take(f[i].name, NLEN - 1), f[i].pin, q[0])
    ensures AppendDone(m, m', used, f, f[i := Grown(f[i], q, |data|)], i, data)
  {
    hide AppendDone, Mapped, TableOk, Clean, GoodTail, Whole, Gap, Appended, Committed, IsChain;
    var e := f[i];
    FirstCommitted(m, m', e, used, q, data);
    AppendSettles(m, m', e.bno, used, f, i, q, data);
  }

  lemma FirstCommitted(m: Medium, m': Medium, e: Tfile, used: set<nat>, q: seq<nat>, data: seq<Byte>)
    requires ReadyToCommit(m, e, q, data, 0) && q != [] && e.length == 0 && EntryOk(m, used, e)
    requires DirRewritten(m, m', e.bno) && m'[e.bno] == Dir(Take(e.name, NLEN - 1), e.pin, q[0])
    ensures Committed(m, m', e.bno, e.bno, Appended(m, e, data)) && FileChain(m', e.bno) == q
    ensures IsData(m', q[|q| - 1]) && DataAt(m', q[|q| - 1]) != []
    ensures EntryOk(m', used, Grown(e, q, |data|)) && Grown(e, q, |data|).dbno != NOTABNO
  {
    FirstImage(m, m', e, q, data);
    assert q[|q| - 1] in q && IsData(m, q[|q| - 1]);
    hide Committed, Appended, Clean, Image;
  }

  lemma FirstImage(m: Medium, m': Medium, e: Tfile, q: seq<nat>, data: seq<Byte>)
    requires ReadyToCommit(m, e, q, data, 0) && q != [] && e.length == 0
    requires DirRewritten(m, m', e.bno) && m'[e.bno] == Dir(Take(e.name, NLEN - 1), e.pin, q[0])
    ensures Committed(m, m', e.bno, e.bno, Appended(m, e, data)) && FileChain(m', e.bno) == q
  {
    hide Appended, Clean, IsChain;
    FirstBytes(m, e, q, data);
    CommitDir(m, m', e.bno, q);
  }

  lemma FirstBytes(m: Medium, e: Tfile, q: seq<nat>, data: seq<Byte>)
    requires ReadyToCommit(m, e, q, data, 0) && e.length == 0
    ensures Appended(m, e, data) == FileImage(Take(e.name, NLEN - 1), e.pin, Bytes(m, q))
  {
    assert BytesOf(m, e) + Gap(m, e) + data == data == Bytes(m, q);
  }

  /** Writing into free blocks first makes no difference to what an append does. */
  lemma AppendDoneFrom(m0: Medium, m: Medium, m': Medium, used0: set<nat>, used: set<nat>,
                       f: seq<Tfile>, f': seq<Tfile>, i: nat, data: seq<Byte>)
    requires SameFiles(m0, m) && Mapped(m0, used0) && (forall b: nat :: b < |m0| && b in used0 ==> m[b] == m0[b])
    requires Live(f, i) && Exact(m0, f[i]) && Exact(m, f[i]) && TableOk(m0, used0, f)
    requires forall j: nat :: Live(f, j) ==> (Exact(m, f[j]) <==> Exact(m0, f[j])) && (Whole(m, f[j]) <==> Whole(m0, f[j]))
    requires AppendDone(m, m', used, f, f', i, data)
    ensures AppendDone(m0, m', used, f, f', i, data)
  {
    var e := f[i];
    if e.dbno != NOTABNO {
      assert Image(m)[e.bno] == Image(m0)[e.bno];
      assert GoodTail(m, e) <==> Whole(m, e);
    }
  }

  lemma TailWritten(m: Medium, m': Medium, e: Tfile, q: seq<nat>, dbno: nat, data: seq<Byte>, last: nat, buf: seq<Byte>)
    requires ReadyToCommit(m, e, q, data, last) && e.length > 0 && e.dbno != NOTABNO && (q != [] ==> dbno == q[0])
    requires var p := FileChain(m, e.bno);
             var z := p[|p| - 1];
             && buf == DataAt(m, z) + data[..last - e.length] && |buf| <= DLEN
             && m' == m[z := if last == e.length + |data| then End(buf) else Data(dbno, buf + Zeros(DLEN - |buf|))]
    ensures Rewritten(m, m', FileChain(m, e.bno)[|FileChain(m, e.bno)| - 1], q, TailData(m, e, q, data, last))
  {
    var p := FileChain(m, e.bno);
    assert IsData(m, p[|p| - 1]);
  }

  lemma TailFits(m: Medium, e: Tfile, q: seq<nat>, data: seq<Byte>, last: nat)
    requires ReadyToCommit(m, e, q, data, last) && e.length > 0
    ensures Exact(m, e) && e.length <= last <= e.length + |data| && e.dbno != NOTABNO
    ensures q == [] <==> last == e.length + |data|
    ensures var p := FileChain(m, e.bno);
            IsData(m, p[|p| - 1]) && |DataAt(m, p[|p| - 1]) + data[..last - e.length]| <= DLEN
  {
    TailRoom(m, e, e.length + |data|);
  }

  /** A built chain is ready to be committed. */
  lemma BuiltIsReady(m0: Medium, used0: set<nat>, m: Medium, used: set<nat>, q: seq<nat>, dbno: nat,
                     f: seq<Tfile>, i: nat, data: seq<Byte>, last: nat)
    requires Clean(m0) && Mapped(m0, used0) && TableOk(m0, used0, f) && Live(f, i) && Exact(m0, f[i])
    requires var total := f[i].length + |data|;
             data != [] && last == Boundary(f[i].length, total) && (q == [] <==> last == total)
    requires Building(m0, used0, m, used, q, dbno, data[last - f[i].length..])
    ensures Mapped(m, used) && TableOk(m, used, f) && EntryOk(m, used, f[i])
    ensures ReadyToCommit(m, f[i], q, data, last) && (forall x :: x in q ==> x in used)
    ensures q != [] ==> dbno == q[0] && dbno < |m|
    ensures q == [] ==> dbno == NOTABNO
    ensures forall j: nat :: Live(f, j) ==> (Exact(m, f[j]) <==> Exact(m0, f[j])) && (Whole(m, f[j]) <==> Whole(m0, f[j]))
  {
    TableStays(m0, m, used0, used, f);
    UsedGrows(m, used0, used);
    if q != [] { assert IsData(m, q[0]); }
    forall b | b in q
      ensures Unowned(m, b)
    {
      FreeIsUnowned(m, used0, b);
    }
  }

  /** At every moment the medium holds either the files before or the files after. */
  ghost predicate CrashSafe(h0: seq<Medium>, h: seq<Medium>, before: map<nat, FileImage>, after: map<nat, FileImage>) {
    && h0 <= h
    && forall k :: |h0| <= k < |h| ==>
         Clean(h[k]) && Scanned(h[k]) == h[k] && (Image(h[k]) == before || Image(h[k]) == after)
  }

  lemma NothingHappened(m: Medium, h: seq<Medium>)
    requires Clean(m)
    ensures SameFiles(m, m) && CrashSafe(h, h, Image(m), Image(m))
  {
  }

  /** Every medium written since h0 holds the files of m. */
  ghost predicate Unseen(h0: seq<Medium>, h: seq<Medium>, m: Medium) {
    h0 <= h && forall k :: |h0| <= k < |h| ==> SameFiles(m, h[k])
  }

  lemma UnseenIsCrashSafe(m: Medium, h0: seq<Medium>, h: seq<Medium>)
    requires Unseen(h0, h, m)
    ensures forall im :: CrashSafe(h0, h, Image(m), im)
  {
    forall k | |h0| <= k < |h|
      ensures Clean(h[k]) && Scanned(h[k]) == h[k] && Image(h[k]) == Image(m)
    {
      assert SameFiles(m, h[k]);
      ScanOfCleanIsIdentity(h[k]);
    }
  }

  lemma CommitIsCrashSafe(m: Medium, h0: seq<Medium>, h1: seq<Medium>, h: seq<Medium>)
    requires Unseen(h0, h1, m) && |h| == |h1| + 1 && h1 == h[..|h1|] && Clean(h[|h| - 1])
    ensures CrashSafe(h0, h, Image(m), Image(h[|h| - 1]))
  {
    UnseenIsCrashSafe(m, h0, h1);
    var im := Image(h[|h| - 1]);
    assert CrashSafe(h0, h1, Image(m), im);
    ScanOfCleanIsIdentity(h[|h| - 1]);
    assert forall k :: |h0| <= k < |h1| ==> h[k] == h1[k];
  }

  /** Giving a built chain back to the free blocks leaves the table as it was. */
  lemma FreeBuilt(m0: Medium, used0: set<nat>, m: Medium, used: set<nat>, q: seq<nat>, dbno: nat, f: seq<Tfile>, bytes: seq<Byte>)
    requires Clean(m0) && Mapped(m0, used0) && TableOk(m0, used0, f)
    requires Building(m0, used0, m, used, q, dbno, bytes)
    ensures IsRun(m, dbno, NOTABNO, q) && used - Elems(q) == used0
    ensures SameFiles(m0, m) && Mapped(m, used0) && TableOk(m, used0, f)
  {
    TableStays(m0, m, used0, used0, f);
    if q != [] { ChainIsRun(m, q); }
  }
}
