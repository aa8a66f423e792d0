/**
 tinyfs: an append-only file system that is recovered by scanning its medium.
 Every write of a block is one element of `history`, so that a crash at any moment leaves
 the medium in one of those states.
 */
module Tinyfs {
  import opened Octets
  import opened TinyfsBlock
  import opened TinyfsMedium
  import opened TinyfsCommit
  import opened TinyfsBitmap
  import opened TinyfsWalk
  import opened TinyfsTable
  import opened TinyfsAppend
  import opened TinyfsRemove

  datatype Error = AppendOnly | OutOfSpace
  datatype Result<T> = Ok(value: T) | Err(error: Error)

  class Tfs {
    var blocks: seq<Block>
    ghost var history: seq<Medium>
    const bits: Bitmap
    var f: seq<Tfile>
    var nf: nat

    ghost predicate Sized()
      reads this`blocks, bits, bits.bytes
    {
      3 <= |blocks| <= NOTABNO && bits.nblocks == |blocks| && bits.Valid()
    }

    ghost function M(): Medium
      requires 3 <= |blocks| <= NOTABNO
      reads this`blocks
    {
      View(blocks)
    }

    ghost predicate Valid()
      reads this, bits, bits.bytes
    {
      && Sized()
      && Clean(M())
      && Mapped(M(), bits.used)
      && TableOk(M(), bits.used, f)
      && nf <= |f| && (forall i :: nf <= i < |f| ==> f[i].name == [])
    }

    // ----- mounting

    /**
     Reads the whole medium, keeps the consistent files and purges the others. Were it cut short
     after any of its block writes, another scan would come to the same end.
     */
    constructor (dev: seq<Block>)
      requires 3 <= |dev| <= NOTABNO
      ensures Valid() && fresh(bits) && fresh(bits.bytes)
      ensures |blocks| == |dev| && M() == Scanned(View(dev)) && Mounted(View(dev), f) && Resumable(history, View(dev))
      ensures forall i: nat :: Live(f, i) ==>
                Kept(View(dev), f[i].bno) && f[i] == MountedEntry(View(dev), f[i].bno) && Exact(M(), f[i])
      ensures forall d: nat :: Kept(View(dev), d) && At(View(dev), d).name != [] ==>
                exists i: nat :: Live(f, i) && f[i].bno == d
      // what is listed is undamaged and not open
      ensures forall i: nat :: Live(f, i) ==> f[i].r == 0 && !f[i].creating && !f[i].rmonclose && Undamaged(dev, f[i].bno)
    {
      blocks, history, f, nf := dev, [], [], 0;
      bits := new Bitmap(|dev|);
      new;
      ghost var m := View(dev);
      ghost var dirs := ScanDirs();
      ghost var leaked := FollowFiles(m, dirs);
      MountOk(m, f, dirs, bits.used, leaked);
      forall i: nat | Live(f, i)
        ensures Undamaged(dev, f[i].bno)
      {
        KeptIsSealed(dev, f[i].bno);
      }
    }

    method ScanDirs() returns (ghost dirs: seq<nat>)
      requires Sized() && f == [] && nf == 0
      requires forall b: nat :: b < |blocks| ==> b !in bits.used
      modifies this`f, this`nf, bits, bits.bytes
      ensures Sized() && Listed(M(), f, nf, dirs, |blocks|)
      ensures forall b: nat :: b < |blocks| ==> (b in bits.used <==> IsDir(M(), b))
    {
      hide View, Listed, Decode;
      dirs := [];
      NoneListed(M(), f);
      for bno := 0 to |blocks|
        invariant Sized() && Listed(M(), f, nf, dirs, bno) && nf <= |f|
        invariant forall b: nat :: b < |blocks| ==> (b in bits.used <==> b < bno && IsDir(M(), b))
      {
        var c := ReadBlock(bno);
        if !c.Dir? {
          ListSkip(M(), f, nf, dirs, bno);
          continue;
        }
        ListRoom(M(), f, nf, dirs, bno, |f| + 8 - nf);
        if nf >= |f| { Expand(); }
        bits.Set(bno);
        ListMore(M(), f, nf, dirs, bno);
        f := f[nf := Tfile(0, c.name, bno, c.dbno, c.pin, false, false, 0)];
        nf := nf + 1;
        dirs := dirs + [bno];
      }
    }

    method FollowFiles(ghost m: Medium, ghost dirs: seq<nat>) returns (ghost leaked: set<nat>)
      requires Sized() && m == M() && Listed(m, f, nf, dirs, |blocks|)
      requires forall b: nat :: b < |blocks| ==> (b in bits.used <==> IsDir(m, b))
      requires Resumable(history, m)
      modifies this`blocks, this`history, this`f, bits, bits.bytes
      ensures Sized() && |blocks| == |old(blocks)| && M() == Scanned(m) && Resumable(history, m)
      ensures Followed(m, f, dirs, nf) && Accounted(m, |m|, M(), bits.used, leaked)
    {
      leaked := {};
      for k := 0 to nf
        invariant Sized() && |blocks| == |m| && Followed(m, f, dirs, k)
        invariant M() == ScannedTo(m, Upto(m, dirs, k)) && Resumable(history, m)
        invariant Accounted(m, Upto(m, dirs, k), M(), bits.used, leaked)
      {
        leaked := FollowFile(k, m, dirs, leaked);
      }
    }

    /** Follows the chain of entry k and purges the entry when the chain is broken or taken. */
    method FollowFile(k: nat, ghost m: Medium, ghost dirs: seq<nat>, ghost leaked: set<nat>)
      returns (ghost leaked': set<nat>)
      requires Sized() && |blocks| == |m| && Followed(m, f, dirs, k) && k < |dirs|
      requires M() == ScannedTo(m, dirs[k])
      requires Accounted(m, dirs[k], M(), bits.used, leaked) && Resumable(history, m)
      modifies this`blocks, this`history, this`f, bits, bits.bytes
      ensures Sized() && |blocks| == |m| && Followed(m, f, dirs, k + 1) && Resumable(history, m)
      ensures M() == ScannedTo(m, Upto(m, dirs, k + 1))
      ensures Accounted(m, Upto(m, dirs, k + 1), M(), bits.used, leaked')
    {
      hide View, Followed, Accounted, ScannedTo, Kept, IsWalk, Fresh, HasChain, Upto, Resumable;
      ghost var d := dirs[k];
      ghost var used := bits.used;
      FollowedEntry(m, f, dirs, k);
      var broken, bno; ghost var seen;
      broken, bno, seen := Walk(k, m, d);
      if broken {
        StuckIsNotKept(m, d, seen, bno, used, leaked);
        leaked' := Purge(k, bno, m, d, seen, used, leaked);
        EntryPurged(m, old(f), dirs, k, bits.used, leaked');
        ResumableStep(old(history), m, Upto(m, dirs, k + 1));
        assert f == old(f)[k := BLANK];
      } else {
        bits.Set(bno);
        var c := ReadBlock(bno);
        f := f[k := f[k].(length := f[k].length + |c.data|)];
        leaked' := leaked;
        EntryKept(m, old(f), dirs, k, seen, bno, used, leaked);
        assert f == old(f)[k := old(f)[k].(length := DLEN * |seen| + |DataAt(m, bno)|)];
      }
    }

    /** Drops entry k, whose walk came to a stop at bno. */
    method Purge(k: nat, bno: nat, ghost m: Medium, ghost d: nat, ghost seen: seq<nat>, ghost used: set<nat>,
                 ghost leaked: set<nat>)
      returns (ghost leaked': set<nat>)
      requires Sized() && |blocks| == |m| && M() == ScannedTo(m, d)
      requires k < |f| && IsDir(m, d) && !Kept(m, d) && f[k].bno == d && f[k].dbno == At(m, d).dbno
      requires IsWalk(m, At(m, d).dbno, seen, bno) && Accounted(m, d, M(), used, leaked)
      requires bits.used == used + Elems(seen)
      requires Fresh(seen, used)
      modifies this`blocks, this`history, this`f, bits, bits.bytes
      ensures Sized() && |blocks| == |m| && M() == ScannedTo(m, d)[d := Junk] && f == old(f)[k := BLANK] && history == old(history) + [M()]
      ensures Accounted(m, d, M(), bits.used, leaked')
    {
      ghost var j := FirstAt(seen, bno);
      WalkIsRun(m, At(m, d).dbno, seen, bno, j);
      RunFrame(m, d, At(m, d).dbno, bno, seen[..j]);
      PurgeAccounts(m, d, seen, bno, used, leaked);
      FreeFile(k, bno, seen[..j]);
      leaked' := leaked + Elems(seen[j..]);
    }

    /** Marks the full blocks of entry k, up to its end block or the block where it breaks. */
    method Walk(k: nat, ghost m: Medium, ghost d: nat) returns (broken: bool, bno: nat, ghost seen: seq<nat>)
      requires Sized() && |blocks| == |m| && M() == ScannedTo(m, d)
      requires k < |f| && IsDir(m, d) && f[k].dbno == At(m, d).dbno && f[k].length == 0
      modifies this`f, bits, bits.bytes
      ensures Sized() && f == old(f)[k := old(f)[k].(length := DLEN * |seen|)]
      ensures IsWalk(m, At(m, d).dbno, seen, bno) && bno < |m|
      ensures bits.used == old(bits.used) + Elems(seen)
      ensures Fresh(seen, old(bits.used))
      ensures broken ==> bno in bits.used || !IsData(m, bno)
      ensures !broken ==> bno !in bits.used && IsData(m, bno) && At(m, bno).End? && m[bno] == M()[bno]
    {
      hide IsWalk, Fresh, ScannedTo, Kept;
      ghost var used := bits.used;
      bno, seen := f[k].dbno, [];
      WalkStart(m, bno);
      FreshStart(used);
      while true
        invariant Sized() && f == old(f)[k := old(f)[k].(length := DLEN * |seen|)]
        invariant bno < |m| && IsWalk(m, At(m, d).dbno, seen, bno)
        invariant bits.used == used + Elems(seen)
        invariant Fresh(seen, used)
        decreases DataBlocks(m) - bits.used
      {
        var taken := bits.IsAlloced(bno);
        if taken { return true, bno, seen; }
        var c := ReadBlock(bno);
        if c.Dir? || c.Junk? { return true, bno, seen; }
        if c.End? { return false, bno, seen; }
        FreshStep(seen, used, bno);
        bits.Set(bno);
        WalkStep(m, At(m, d).dbno, seen, bno);
        seen := seen + [bno];
        f := f[k := f[k].(length := f[k].length + DLEN)];
        bno := c.next;
      }
    }

    // ----- the device

    method WriteBlock(b: nat, blk: Block)
      requires 3 <= |blocks| <= NOTABNO && b < |blocks|
      modifies this`blocks, this`history
      ensures |blocks| == |old(blocks)| && blocks == old(blocks)[b := blk]
      ensures M() == old(M())[b := Decode(blk, |blocks|)]
      ensures history == old(history) + [M()]
    {
      blocks := blocks[b := blk];
      history := history + [M()];
    }

    /** Reads a block and decodes it. */
    method ReadBlock(b: nat) returns (c: Content)
      requires 3 <= |blocks| <= NOTABNO && b < |blocks|
      ensures c == M()[b]
    {
      var s := Checksum(blocks[b]);
      c := if s != 0 then Junk else Parsed(blocks[b], |blocks|);
    }

    /** Writes a data block, or an end block when last; the sum byte is filled in. */
    method WriteData(b: nat, next: nat, buf: seq<Byte>, last: bool)
      requires 3 <= |blocks| <= NOTABNO && b < |blocks| && |buf| <= DLEN
      requires !last ==> next < |blocks|
      modifies this`blocks, this`history
      ensures |blocks| == |old(blocks)|
      ensures M() == old(M())[b := if last then End(buf) else Data(next, buf + Zeros(DLEN - |buf|))]
      ensures history == old(history) + [M()]
    {
      if last {
        EndRoundTrip(buf, |blocks|);
        WriteBlock(b, EndBlock(buf));
      } else {
        DataRoundTrip(next, buf, |blocks|);
        WriteBlock(b, DataBlock(next, buf));
      }
    }

    method WriteDir(e: Tfile)
      requires 3 <= |blocks| <= NOTABNO
      requires e.bno == NOTABNO || e.bno < |blocks|
      requires e.pin < 0x10000 && e.dbno < 0x10000
      modifies this`blocks, this`history
      ensures |blocks| == |old(blocks)|
      ensures e.bno == NOTABNO ==> blocks == old(blocks) && history == old(history)
      ensures e.bno != NOTABNO ==>
                && M() == old(M())[e.bno := if e.dbno < |blocks| then Dir(Take(e.name, NLEN - 1), e.pin, e.dbno) else Junk]
                && history == old(history) + [M()]
    {
      if e.bno == NOTABNO { return; }
      DirRoundTrip(e.name, e.pin, e.dbno, |blocks|);
      WriteBlock(e.bno, DirBlock(e.name, e.pin, e.dbno));
    }

    // ----- releasing blocks

    /** Unmaps the chain from bno up to, but not including, bend. */
    method FreeBlocks(start: nat, bend: nat, ghost run: seq<nat>)
      requires Sized() && IsRun(M(), start, bend, run)
      modifies bits, bits.bytes
      ensures Sized() && bits.used == old(bits.used) - Elems(run)
    {
      var bno := start;
      ghost var k := 0;
      while bno != bend && bno != NOTABNO
        invariant Sized() && k <= |run|
        invariant bits.used == old(bits.used) - Elems(run[..k])
        invariant k < |run| ==> bno == run[k] && IsData(M(), bno) && bno != bend
        invariant k == |run| ==> bno == bend || bno == NOTABNO
        decreases |run| - k
      {
        bits.Clear(bno);
        assert run[..k + 1] == run[..k] + [run[k]];
        k := k + 1;
        if k < |run| { assert Links(M(), run, k - 1); }
        var c := ReadBlock(bno);
        if c.End? { break; }
        bno := c.next;
      }
      assert run[..k] == run;
    }

    /** Forgets file i: unmaps its blocks up to bend and wipes its directory block. */
    method FreeFile(i: nat, bend: nat, ghost run: seq<nat>)
      requires Sized() && i < |f|
      requires f[i].bno == NOTABNO || f[i].bno < |blocks|
      requires IsRun(M(), f[i].dbno, bend, run)
      modifies this`blocks, this`history, this`f, bits, bits.bytes
      ensures Sized() && |blocks| == |old(blocks)|
      ensures f == old(f)[i := BLANK]
      ensures old(f)[i].bno == NOTABNO ==>
                && blocks == old(blocks) && history == old(history)
                && bits.used == old(bits.used) - Elems(run)
      ensures old(f)[i].bno != NOTABNO ==>
                && blocks == old(blocks)[old(f)[i].bno := Freed()]
                && M() == old(M())[old(f)[i].bno := Junk]
                && history == old(history) + [M()]
                && bits.used == old(bits.used) - Elems(run) - {old(f)[i].bno}
    {
      FreeBlocks(f[i].dbno, bend, run);
      if f[i].bno != NOTABNO {
        FreedIsJunk(|blocks|);
        WriteBlock(f[i].bno, Freed());
        bits.Clear(f[i].bno);
      }
      f := f[i := BLANK];
    }

    /** Makes room for eight more table entries. */
    method Expand()
      requires nf <= |f|
      modifies this`f
      ensures f == old(f)[..nf] + Blanks(|old(f)| + 8 - nf)
    {
      f := f[..nf] + Blanks(|f| + 8 - nf);
    }

    // ----- appending

    /** Writes the bytes from the first block boundary at or after off, last block first. */
    method WriteBlocks(data: seq<Byte>, off: nat) returns (ok: bool, dbno: nat, last: nat, ghost q: seq<nat>)
      requires Sized() && Clean(M()) && Mapped(M(), bits.used) && data != []
      modifies this`blocks, this`history, bits, bits.bytes
      ensures Sized() && |blocks| == |old(blocks)| && Unseen(old(history), history, old(M()))
      ensures off <= last <= off + |data| && (q == [] <==> last == off + |data|)
      ensures Building(old(M()), old(bits.used), M(), bits.used, q, dbno, data[last - off..])
      ensures ok ==> last == Boundary(off, off + |data|)
      ensures ok <==> Needed(off, |data|) <= |FreeSet(|blocks|, old(bits.used))|
    {
      hide Building, SameFiles, Clean, Mapped;
      ghost var m0, used0, h0 := M(), bits.used, history;
      BuildStart(m0, used0);
      var total := off + |data|;
      dbno, last, q := NOTABNO, total, [];
      assert data[last - off..] == [];
      var next := ((total - 1) / DLEN) * DLEN;
      ghost var j := (total - 1) / DLEN;
      while next >= off
        invariant Sized() && |blocks| == |m0| && Unseen(h0, history, m0)
        invariant next == DLEN * j && next < last <= next + DLEN && off <= last
        invariant if q == [] then last == total else last == next + DLEN && last < total
        invariant Building(m0, used0, M(), bits.used, q, dbno, data[last - off..])
        invariant |q| == (total - 1) / DLEN - j
        invariant |FreeSet(|blocks|, bits.used)| == |FreeSet(|blocks|, used0)| - |q|
      {
        var x := data[next - off..last - off];
        var bno := PutBlock(x, dbno, last == total, m0, used0, q, data[last - off..]);
        if bno == NOTABNO {
          ok := false;
          return;
        }
        assert x + data[last - off..] == data[next - off..];
        dbno, last, q := bno, next, [bno] + q;
        next := next - DLEN;
        j := j - 1;
      }
      BoundaryReached(off, total, last, j);
      ok := true;
    }

    /** Puts x into a fresh block in front of chain q. */
    method PutBlock(x: seq<Byte>, next: nat, last: bool, ghost m0: Medium, ghost used0: set<nat>, ghost q: seq<nat>,
                    ghost bytes: seq<Byte>)
      returns (bno: nat)
      requires Sized() && |blocks| == |m0| && Building(m0, used0, M(), bits.used, q, next, bytes)
      requires 0 < |x| <= DLEN && (last <==> q == []) && (!last ==> |x| == DLEN)
      modifies this`blocks, this`history, bits, bits.bytes
      ensures Sized() && |blocks| == |m0|
      ensures bno == NOTABNO ==> M() == old(M()) && history == old(history) && bits.used == old(bits.used)
      ensures bno == NOTABNO <==> FreeSet(|blocks|, old(bits.used)) == {}
      ensures bno != NOTABNO ==>
                && Building(m0, used0, M(), bits.used, [bno] + q, bno, x + bytes) && SameFiles(m0, M())
                && |FreeSet(|blocks|, bits.used)| == |FreeSet(|blocks|, old(bits.used))| - 1
                && history == old(history) + [M()]
    {
      bno := bits.Alloc();
      if bno == NOTABNO { return; }
      assert bno in FreeSet(|blocks|, old(bits.used));
      TakeFree(|blocks|, old(bits.used), bno);
      assert x + Zeros(DLEN - |x|) == x || last;
      WriteData(bno, next, x, last);
      BuildStep(m0, used0, old(M()), old(bits.used), q, next, bytes, M(), bno, x);
    }

    /** The last block of file i and its bytes; no block when the file has none. */
    method FindLast(i: nat, offset: nat) returns (bno: nat, buf: seq<Byte>)
      requires Sized() && i < |f| && Exact(M(), f[i]) && f[i].length == offset
      requires f[i].dbno != NOTABNO ==> At(M(), f[i].bno).dbno == f[i].dbno
      ensures f[i].dbno == NOTABNO ==> bno == NOTABNO
      ensures f[i].dbno != NOTABNO ==>
                var p := FileChain(M(), f[i].bno);
                bno == p[|p| - 1] && buf == DataAt(M(), bno)
    {
      var next := 0;
      bno, buf := f[i].dbno, [];
      if bno == NOTABNO { return; }
      ghost var p, k := FileChain(M(), f[i].bno), 0;
      ChainLength(M(), p);
      while true
        invariant k < |p| && bno == p[k] && next == DLEN * k
        decreases |p| - k
      {
        if k < |p| - 1 { assert Links(M(), p, k); }
        var c := ReadBlock(bno);
        assert c.Data? || c.End?;
        if c.End? {
          assert next + DLEN >= offset;
          buf := c.data;
          return;
        }
        next := next + DLEN;
        assert next <= offset;
        bno := c.next;
        k := k + 1;
      }
    }

    /**
     Appends data to file i. A crash between any two block writes leaves a medium that a
     scan keeps as it is and that holds either all files as before or the finished append.
     */
    method Write(i: nat, data: seq<Byte>, offset: nat) returns (r: Result<nat>)
      requires Valid() && Live(f, i) && Exact(M(), f[i])
      modifies this`blocks, this`history, this`f, bits, bits.bytes
      ensures |blocks| == |old(blocks)|
      ensures r.Ok? ==> r.value == |data|
      ensures r == Err(AppendOnly) <==> data != [] && offset != old(f)[i].length
      ensures r == Err(OutOfSpace) <==> data != [] && offset == old(f)[i].length &&
                                        |FreeSet(|blocks|, old(bits.used))| < Needed(offset, |data|)
      ensures r.Err? || data == [] ==> Valid() && f == old(f) && bits.used == old(bits.used) && SameFiles(old(M()), M())
      ensures r.Ok? && data != [] ==> Valid() && AppendDone(old(M()), M(), bits.used, old(f), f, i, data)
      ensures CrashSafe(old(history), history, old(Image(M())), Image(M()))
    {
      hide CrashSafe, Unseen, Building, SameFiles, AppendDone, Appended, Exact, Image, Clean, Mapped, TableOk, FreeSet, IsRun, Needed;
      NothingHappened(M(), history);
      if data == [] { return Ok(0); }
      if offset != f[i].length { return Err(AppendOnly); }
      var ok, dbno, last; ghost var q;
      ok, dbno, last, q := WriteBlocks(data, offset);
      if !ok {
        FreeBuilt(old(M()), old(bits.used), M(), bits.used, q, dbno, f, data[last - offset..]);
        FreeBlocks(dbno, NOTABNO, q);
        UnseenIsCrashSafe(old(M()), old(history), history);
        return Err(OutOfSpace);
      }
      Commit(i, data, offset, dbno, last, q, old(M()), old(bits.used));
      AppendDoneKeeps(old(M()), M(), bits.used, old(f), f, i, data);
      CommitIsCrashSafe(old(M()), old(history), history[..|history| - 1], history);
      return Ok(|data|);
    }

    /** Points the file at its new blocks with a single block write. */
    method Commit(i: nat, data: seq<Byte>, offset: nat, dbno: nat, last: nat, ghost q: seq<nat>,
                  ghost m0: Medium, ghost used0: set<nat>)
      requires Sized() && Live(f, i) && Exact(m0, f[i]) && f[i].length == offset && data != []
      requires Clean(m0) && Mapped(m0, used0) && TableOk(m0, used0, f)
      requires last == Boundary(offset, offset + |data|) && (q == [] <==> last == offset + |data|)
      requires |blocks| == |m0| && Building(m0, used0, M(), bits.used, q, dbno, data[last - offset..])
      modifies this`blocks, this`history, this`f
      ensures Sized() && |blocks| == |old(blocks)| && history == old(history) + [M()]
      ensures f == old(f)[i := Grown(old(f)[i], q, |data|)]
      ensures AppendDone(m0, M(), bits.used, old(f), f, i, data)
    {
      hide Building, SameFiles, AppendDone, TableOk, Mapped, ReadyToCommit, EntryOk, Exact, Whole, Appended, Clean;
      ghost var m := M();
      BuiltIsReady(m0, used0, m, bits.used, q, dbno, f, i, data, last);
      BuiltFrom(m0, used0, m, bits.used, q, dbno, data[last - offset..]);
      if offset == 0 {
        PointDir(i, dbno, q, data);
      } else {
        RewriteTail(i, dbno, q, data, last);
      }
      f := f[i := f[i].(length := f[i].length + |data|)];
      assert f == old(f)[i := Grown(old(f)[i], q, |data|)];
      AppendDoneFrom(m0, m, M(), used0, bits.used, old(f), f, i, data);
    }

    /** The first blocks of a file: its directory block is written to point at them. */
    method PointDir(i: nat, dbno: nat, ghost q: seq<nat>, ghost data: seq<Byte>)
      requires Sized() && Mapped(M(), bits.used) && TableOk(M(), bits.used, f) && Live(f, i) && EntryOk(M(), bits.used, f[i])
      requires ReadyToCommit(M(), f[i], q, data, 0) && f[i].length == 0 && (forall x :: x in q ==> x in bits.used)
      requires q != [] && dbno == q[0] && dbno < |blocks|
      modifies this`blocks, this`history, this`f
      ensures Sized() && |blocks| == |old(blocks)| && history == old(history) + [M()]
      ensures f == old(f)[i := old(f)[i].(dbno := dbno)]
      ensures AppendDone(old(M()), M(), bits.used, old(f), old(f)[i := Grown(old(f)[i], q, |data|)], i, data)
    {
      hide AppendDone, TableOk, Mapped, ReadyToCommit, Appended;
      f := f[i := f[i].(dbno := dbno)];
      WriteDir(f[i]);
      FirstAppendDone(old(M()), M(), bits.used, old(f), i, q, data);
    }

    /** The last block of a file takes what fits and is linked to the new blocks. */
    method RewriteTail(i: nat, dbno: nat, ghost q: seq<nat>, data: seq<Byte>, last: nat)
      requires Sized() && Mapped(M(), bits.used) && TableOk(M(), bits.used, f) && Live(f, i) && EntryOk(M(), bits.used, f[i])
      requires ReadyToCommit(M(), f[i], q, data, last) && f[i].length > 0 && (forall x :: x in q ==> x in bits.used)
      requires q != [] ==> dbno == q[0] && dbno < |blocks|
      modifies this`blocks, this`history
      ensures Sized() && |blocks| == |old(blocks)| && history == old(history) + [M()]
      ensures AppendDone(old(M()), M(), bits.used, old(f), old(f)[i := Grown(old(f)[i], q, |data|)], i, data)
    {
      hide AppendDone, TableOk, Mapped, ReadyToCommit, Rewritten, Exact, Appended, TailData;
      TailFits(M(), f[i], q, data, last);
      var bno, buf := FindLast(i, f[i].length);
      buf := buf + data[..last - f[i].length];
      WriteData(bno, dbno, buf, last == f[i].length + |data|);
      TailWritten(old(M()), M(), f[i], q, dbno, data, last, buf);
      TailAppendDone(old(M()), M(), bits.used, old(f), i, q, data, last);
    }

    // ----- reading

    /** Returns the bytes of file i from offset on, at most count of them. */
    method Read(i: nat, count: nat, offset: nat) returns (a: seq<Byte>)
      requires Valid() && Live(f, i) && Exact(M(), f[i])
      ensures a == Slice(BytesOf(M(), f[i]), offset, count)
    {
      hide View, Clean, Mapped, TableOk, IsChain, HasChain, ChainOf, Bytes;
      if offset >= f[i].length { return []; }
      var n := if count + offset >= f[i].length then f[i].length - offset else count;
      FileBytes(M(), bits.used, f, i);
      a := ReadChain(f[i].dbno, n, offset, FileChain(M(), f[i].bno), BytesOf(M(), f[i]));
    }

    method ReadChain(dbno: nat, n: nat, offset: nat, ghost p: seq<nat>, ghost b: seq<Byte>)
      returns (a: seq<Byte>)
      requires Sized() && IsChain(M(), p) && p[0] == dbno
      requires b == Bytes(M(), p) && offset < |b| && offset + n <= |b|
      ensures a == b[offset..offset + n]
    {
      hide IsChain, Bytes, Links, View;
      ChainLength(M(), p);
      var bno, sofar; ghost var k: nat;
      bno, sofar, k := Seek(dbno, offset, p);
      var off := offset - sofar;
      a, sofar := [], 0;
      while sofar < n
        invariant sofar == |a| <= n && a == b[offset..offset + sofar]
        invariant sofar < n ==> k < |p| && bno == p[k] && offset + sofar == DLEN * k + off && 0 <= off < DLEN
      {
        BlockBytes(M(), p, k);
        var c := ReadBlock(bno);
        var x := c.data[off..];
        if |x| > n - sofar { x := x[..n - sofar]; }
        PartOfBlock(b, DLEN * k, c.data, off, x);
        JoinParts(b, offset, sofar, |x|);
        a, sofar := a + x, sofar + |x|;
        if c.Data? { bno := c.next; }
        off, k := 0, k + 1;
      }
    }

    /** The block of chain p that holds offset, and where it starts. */
    method Seek(dbno: nat, offset: nat, ghost p: seq<nat>) returns (bno: nat, sofar: nat, ghost k: nat)
      requires Sized() && IsChain(M(), p) && p[0] == dbno && offset < |Bytes(M(), p)|
      ensures k < |p| && bno == p[k] && sofar == DLEN * k <= offset < sofar + DLEN
    {
      hide IsChain, Bytes, Links, View;
      ChainLength(M(), p);
      bno, sofar, k := dbno, 0, 0;
      while sofar + DLEN <= offset
        invariant k < |p| && bno == p[k] && sofar == DLEN * k <= offset
      {
        BlockBytes(M(), p, k);
        var c := ReadBlock(bno);
        bno, sofar, k := c.next, sofar + DLEN, k + 1;
      }
    }

    // ----- creating, removing and replacing

    /** The first unnamed table entry, after making room if there is none. */
    method FreeEntry() returns (i: nat)
      requires nf <= |f| && forall k :: nf <= k < |f| ==> f[k].name == []
      modifies this`f
      ensures i < |f| && !Live(f, i) && nf <= |f| && forall k :: nf <= k < |f| ==> f[k].name == []
      ensures forall j: nat :: Live(f, j) <==> Live(old(f), j)
      ensures forall j: nat :: j < |old(f)| ==> j < |f| && f[j] == old(f)[j]
      ensures (i < |old(f)| || f[i] == BLANK) && forall j: nat :: j < i ==> Live(f, j)
    {
      i := 0;
      while i < |f|
        invariant i <= nf && forall k: nat :: k < i ==> Live(f, k)
      {
        if f[i].name == [] { return; }
        i := i + 1;
      }
      Expand();
    }

    /** A new file without data: its directory block is allocated but not yet visible to a scan. */
    method NewFile(name: Name, pin: nat) returns (r: Result<nat>)
      requires Valid() && name != [] && pin < 0x10000
      modifies this`blocks, this`history, this`f, this`nf, bits, bits.bytes
      ensures Valid() && |blocks| == |old(blocks)| && SameFiles(old(M()), M())
      ensures r.Err? <==> FreeSet(|blocks|, old(bits.used)) == {}
      ensures r.Err? ==> r == Err(OutOfSpace) && bits.used == old(bits.used)
      ensures r.Err? ==> forall j: nat :: Live(f, j) <==> Live(old(f), j)
      ensures r.Err? ==> exists i: nat :: i < |f| && !Live(old(f), i) && (forall j: nat :: j < i ==> Live(old(f), j)) && f[i] == BLANK
      ensures r.Ok? ==> (forall j: nat :: j < r.value ==> Live(old(f), j)) && !Live(old(f), r.value) && Live(f, r.value) && f[r.value].name == Take(name, NLEN - 1)
      ensures r.Ok? ==> f[r.value].creating && !f[r.value].rmonclose && f[r.value].dbno == NOTABNO && f[r.value].r == 1 && f[r.value].pin == pin
      ensures r.Ok? ==> (Whole(M(), f[r.value]) <==> (r.value < |old(f)| ==> old(f)[r.value].length == 0))
      ensures forall j: nat :: Live(old(f), j) ==> j < |f| && f[j] == old(f)[j] && StaysAs(old(M()), M(), f[j])
      ensures CrashSafe(old(history), history, old(Image(M())), Image(M()))
    {
      hide Mapped, Image, Clean, CrashSafe, SameFiles, Whole, Exact, EntryOk, FreeSet, StaysAs;
      NothingHappened(M(), history);
      var i := FreeEntry();
      TableGrows(M(), bits.used, old(f), f);
      if i >= nf { nf := i + 1; }
      var bno := bits.Alloc();
      if bno == NOTABNO {
        f := f[i := BLANK];
        NoneFree(|blocks|, bits.used);
        TableGrows(M(), bits.used, old(f), f);
        return Err(OutOfSpace);
      }
      OneFree(|blocks|, old(bits.used), bno);
      ghost var f1 := f;
      f := f[i := Tfile(1, Take(name, NLEN - 1), bno, NOTABNO, pin, true, false, f[i].length)];
      WriteDir(f[i]);
      EntryAdded(old(M()), M(), old(bits.used), f1, i, f[i]);
      OneStep(old(M()), M(), old(history), history);
      WholeWithoutData(M(), f[i]);
      return Ok(i);
    }

    /** Forgets file i for good: its directory block is wiped with a single block write. */
    method Remove(i: nat)
      requires Valid() && Live(f, i)
      modifies this`blocks, this`history, this`f, bits, bits.bytes
      ensures Valid() && |blocks| == |old(blocks)| && f == old(f)[i := BLANK]
      ensures Image(M()) == old(Image(M())) - {old(f)[i].bno}
      ensures bits.used == old(bits.used) - Elems(ChainFor(old(M()), old(f)[i])) - {old(f)[i].bno}
      ensures forall j: nat :: Live(f, j) ==> StaysAs(old(M()), M(), f[j])
      ensures history == old(history) + [M()]
    {
      hide Mapped, Image, Clean, IsRun, StaysAs, EntryOk, TableOk, ChainFor, View, Decode, Intact, FileChain;
      ghost var m := M();
      EntryHasBlock(m, bits.used, f, i);
      ChainForIsRun(m, bits.used, f[i]);
      FreeFile(i, NOTABNO, ChainFor(m, f[i]));
      RemovedWhole(m, M(), old(bits.used), old(f), i);
    }

    /**
     Closes file i. When a file being created is closed for the last time it replaces every
     other file of its name: those not open are removed, the others when they are closed.
     */
    method Close(i: nat)
      requires Valid() && Live(f, i)
      modifies this`blocks, this`history, this`f, bits, bits.bytes
      ensures Valid() && |blocks| == |old(blocks)| && |f| == |old(f)|
      ensures var e := old(f)[i];
              f[i] == if e.r != 1 then e.(r := e.r - 1)
                      else if e.rmonclose then BLANK
                      else e.(r := 0, creating := false)
      ensures forall j: nat :: j < |f| && j != i ==> f[j] == ClosedBeside(old(f)[i], old(f)[j])
      // a file created and closed for the last time is the only one of its name, but for those open and marked to go
      ensures var e := old(f)[i];
              e.r == 1 && !e.rmonclose && e.creating ==>
                && (forall j: nat :: Live(f, j) && j != i && f[j].name == e.name ==> f[j].r != 0 && f[j].rmonclose)
                && (forall j: nat :: Live(old(f), j) && j != i && (old(f)[j].name != e.name || old(f)[j].r != 0) ==> Live(f, j))
                && (forall j: nat :: Live(old(f), j) && j != i && old(f)[j].name != e.name ==> f[j] == old(f)[j])
      ensures var e := old(f)[i];
              e.r != 1 || e.rmonclose || !e.creating ==> forall j: nat :: j < |f| && j != i ==> f[j] == old(f)[j]
      ensures Replacing(old(M()), old(history), old(f), M(), history, f)
    {
      hide Mapped, Image, Clean, TableOk, Replacing, StaysAs;
      ghost var m0, h0, f0 := M(), history, f;
      ReplacingStarts(m0, h0, f0);
      Relabel(i, f[i].(r := f[i].r - 1), m0, h0, f0);
      if f[i].r != 0 { return; }
      if f[i].rmonclose {
        RemoveFor(i, m0, h0, f0);
      } else {
        if f[i].creating { RemoveOthers(i, m0, h0, f0); }
        Relabel(i, f[i].(creating := false), m0, h0, f0);
      }
    }

    method RemoveOthers(i: nat, ghost m0: Medium, ghost h0: seq<Medium>, ghost f0: seq<Tfile>)
      requires Valid() && Live(f, i) && Replacing(m0, h0, f0, M(), history, f)
      modifies this`blocks, this`history, this`f, bits, bits.bytes
      ensures Valid() && |blocks| == |old(blocks)| && |f| == |old(f)| && f[i] == old(f)[i]
      ensures forall j: nat :: j < |f| && j != i ==>
                f[j] == if old(f)[j].name != f[i].name then old(f)[j]
                        else if old(f)[j].r != 0 then old(f)[j].(rmonclose := true) else BLANK
      ensures Replacing(m0, h0, f0, M(), history, f)
    {
      hide Mapped, Image, Clean, TableOk, Replacing, StaysAs;
      for j := 0 to |f|
        invariant Valid() && |blocks| == |old(blocks)| && |f| == |old(f)| && f[i] == old(f)[i]
        invariant forall k: nat :: j <= k < |f| ==> f[k] == old(f)[k]
        invariant forall k: nat :: k < j && k != i ==>
                    f[k] == if old(f)[k].name != f[i].name then old(f)[k]
                            else if old(f)[k].r != 0 then old(f)[k].(rmonclose := true) else BLANK
        invariant Replacing(m0, h0, f0, M(), history, f)
      {
        if j == i || f[j].name != f[i].name { continue; }
        if f[j].r != 0 {
          Relabel(j, f[j].(rmonclose := true), m0, h0, f0);
        } else {
          RemoveFor(j, m0, h0, f0);
        }
      }
    }

    method Relabel(j: nat, e: Tfile, ghost m0: Medium, ghost h0: seq<Medium>, ghost f0: seq<Tfile>)
      requires Valid() && j < |f| && SameOnMedium(f[j], e) && Replacing(m0, h0, f0, M(), history, f)
      modifies this`f
      ensures Valid() && f == old(f)[j := e] && Replacing(m0, h0, f0, M(), history, f)
    {
      hide Mapped, Image, Clean, TableOk, Replacing;
      ReplacingRelabels(m0, h0, f0, M(), history, f, bits.used, j, e);
      f := f[j := e];
    }

    method RemoveFor(j: nat, ghost m0: Medium, ghost h0: seq<Medium>, ghost f0: seq<Tfile>)
      requires Valid() && Live(f, j) && Replacing(m0, h0, f0, M(), history, f)
      modifies this`blocks, this`history, this`f, bits, bits.bytes
      ensures Valid() && |blocks| == |old(blocks)| && f == old(f)[j := BLANK]
      ensures Replacing(m0, h0, f0, M(), history, f)
    {
      hide Mapped, Image, Clean, TableOk, Replacing, StaysAs;
      Remove(j);
      assert forall k: nat :: Live(old(f), k) && k != j ==> Live(f, k) && f[k] == old(f)[k];
      ReplacingRemoves(m0, h0, f0, old(M()), old(history), old(f), M(), j);
    }
  }
}
