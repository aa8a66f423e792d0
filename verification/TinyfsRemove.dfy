/**
 Creating and removing files: what a new directory block and a wiped one do to the medium,
 the used blocks and the table; and what reading returns.
 */
module TinyfsRemove {
  import opened Octets
  import opened TinyfsBlock
  import opened TinyfsMedium
  import opened TinyfsCommit
  import opened TinyfsWalk
  import opened TinyfsTable
  import opened TinyfsAppend

  /** File e reads the same on both media. */
  ghost predicate StaysAs(m: Medium, m': Medium, e: Tfile) {
    (Exact(m', e) <==> Exact(m, e)) && (Whole(m', e) <==> Whole(m, e))
  }

  // ----- creating

  lemma NoneFree(n: nat, used: set<nat>)
    requires forall b: nat :: b < n ==> b in used
    ensures FreeSet(n, used) == {}
  {
  }

  lemma OneFree(n: nat, used: set<nat>, b: nat)
    requires b < n && b !in used
    ensures FreeSet(n, used) != {}
  {
    assert b in FreeSet(n, used);
  }

  /** Unnamed entries make no difference to the table. */
  lemma TableGrows(m: Medium, used: set<nat>, f: seq<Tfile>, f': seq<Tfile>)
    requires TableOk(m, used, f)
    requires forall j: nat :: Live(f', j) <==> Live(f, j)
    requires forall j: nat :: Live(f, j) ==> j < |f'| && f'[j] == f[j]
    ensures TableOk(m, used, f')
    ensures forall j: nat :: Live(f, j) ==> StaysAs(m, m, f[j])
  {
  }

  lemma OneStep(m: Medium, m': Medium, h: seq<Medium>, h': seq<Medium>)
    requires SameFiles(m, m') && h' == h + [m']
    ensures CrashSafe(h, h', Image(m), Image(m'))
  {
    ScanOfCleanIsIdentity(m');
  }

  lemma WholeWithoutData(m: Medium, e: Tfile)
    requires e.dbno == NOTABNO
    ensures Whole(m, e) <==> e.length == 0
  {
  }

  lemma EntryAdded(m: Medium, m': Medium, used: set<nat>, f: seq<Tfile>, i: nat, e: Tfile)
    requires Clean(m) && Mapped(m, used) && TableOk(m, used, f) && i < |f| && !Live(f, i)
    requires e.bno < |m| && e.bno !in used && e.dbno == NOTABNO && e.pin < 0x10000
    requires |m'| == |m| && m' == m[e.bno := Junk]
    ensures SameFiles(m, m') && Mapped(m', used + {e.bno}) && TableOk(m', used + {e.bno}, f[i := e])
    ensures forall j: nat :: Live(f, j) ==> StaysAs(m, m', f[j])
  {
    var used' := used + {e.bno};
    var f' := f[i := e];
    FreeBlockWritten(m, m', used, e.bno);
    TableStays(m, m', used, used', f);
    UsedGrows(m', used, used');
    forall j: nat | Live(f', j)
      ensures EntryOk(m', used', f'[j])
      ensures j != i ==> Live(f, j) && f'[j].bno != e.bno
    {
      if j != i { assert Live(f, j) && EntryOk(m, used, f[j]); }
    }
  }

  // ----- removing

  /** The blocks a table entry stands for, beside its directory block. */
  ghost function ChainFor(m: Medium, e: Tfile): seq<nat>
    requires e.dbno != NOTABNO ==> Intact(m, e.bno)
  {
    if e.dbno == NOTABNO then [] else FileChain(m, e.bno)
  }

  lemma ChainForIsRun(m: Medium, used: set<nat>, e: Tfile)
    requires Clean(m) && EntryOk(m, used, e)
    ensures e.dbno != NOTABNO ==> Intact(m, e.bno)
    ensures IsRun(m, e.dbno, NOTABNO, ChainFor(m, e))
  {
    if e.dbno != NOTABNO { ChainIsRun(m, FileChain(m, e.bno)); }
  }

  lemma RemovedFiles(m: Medium, m': Medium, used: set<nat>, e: Tfile)
    requires Clean(m) && EntryOk(m, used, e)
    requires |m'| == |m| && m' == m[e.bno := Junk]
    ensures Clean(m') && Image(m') == Image(m) - {e.bno}
    ensures forall b: nat :: Intact(m', b) <==> Intact(m, b) && b != e.bno
    ensures forall b: nat :: Intact(m', b) ==> FileChain(m', b) == FileChain(m, b)
  {
    CommitRemoval(m, m', e.bno);
  }

  lemma RemovedMapped(m: Medium, m': Medium, used: set<nat>, e: Tfile)
    requires Clean(m) && Mapped(m, used) && EntryOk(m, used, e)
    requires |m'| == |m| && m' == m[e.bno := Junk]
    ensures Clean(m') && Image(m') == Image(m) - {e.bno}
    ensures e.dbno != NOTABNO ==> Intact(m, e.bno)
    ensures Mapped(m', used - Elems(ChainFor(m, e)) - {e.bno})
    ensures forall b: nat :: Intact(m', b) <==> Intact(m, b) && b != e.bno
    ensures forall b: nat :: Intact(m', b) ==> FileChain(m', b) == FileChain(m, b)
  {
    hide Image, Clean, EntryOk, FileChain, Intact;
    RemovedFiles(m, m', used, e);
    ChainForIsRun(m, used, e);
    forall b: nat, x | Intact(m', b) && x in FileChain(m', b)
      ensures x in used - Elems(ChainFor(m, e)) - {e.bno}
    {
      OtherBlocks(m, used, e, b, x);
    }
    assert forall b: nat :: IsDir(m', b) ==> IsDir(m, b) && b != e.bno;
    RunIsData(m, used, e);
  }

  lemma RunIsData(m: Medium, used: set<nat>, e: Tfile)
    requires Clean(m) && EntryOk(m, used, e) && (e.dbno != NOTABNO ==> Intact(m, e.bno))
    ensures forall b: nat :: IsDir(m, b) ==> b !in ChainFor(m, e)
  {
    var run := ChainFor(m, e);
    assert forall i :: 0 <= i < |run| ==> IsData(m, run[i]);
  }

  lemma OtherBlocks(m: Medium, used: set<nat>, e: Tfile, b: nat, x: nat)
    requires Clean(m) && Mapped(m, used) && EntryOk(m, used, e) && (e.dbno != NOTABNO ==> Intact(m, e.bno))
    requires Intact(m, b) && b != e.bno && x in FileChain(m, b)
    ensures x in used && x !in ChainFor(m, e) && x != e.bno
  {
    OffChain(m, b, e.bno);
    if e.dbno != NOTABNO { assert Disjoint(FileChain(m, b), FileChain(m, e.bno)); }
  }

  lemma EntryHasBlock(m: Medium, used: set<nat>, f: seq<Tfile>, i: nat)
    requires TableOk(m, used, f) && Live(f, i)
    ensures EntryOk(m, used, f[i]) && f[i].bno < |m|
  {
  }

  lemma EntryRemoved(m: Medium, m': Medium, used: set<nat>, f: seq<Tfile>, i: nat)
    requires Clean(m) && Mapped(m, used) && TableOk(m, used, f) && Live(f, i)
    requires |m'| == |m| && f[i].bno < |m| && m' == m[f[i].bno := Junk]
    ensures f[i].dbno != NOTABNO ==> Intact(m, f[i].bno)
    ensures TableOk(m', used - Elems(ChainFor(m, f[i])) - {f[i].bno}, f[i := BLANK])
    ensures forall j: nat :: Live(f, j) && j != i ==> StaysAs(m, m', f[j])
  {
    var e, f' := f[i], f[i := BLANK];
    assert EntryOk(m, used, e);
    RemovedMapped(m, m', used, e);
    var run := ChainFor(m, e);
    var used' := used - Elems(run) - {e.bno};
    ChainForIsRun(m, used, e);
    forall j: nat | Live(f', j)
      ensures Live(f, j) && j != i && EntryOk(m', used', f[j])
      ensures StaysAs(m, m', f[j])
    {
      assert Live(f, j) && j != i && EntryOk(m, used, f[j]);
      assert f[j].bno != e.bno && f[j].bno !in run;
      WholeStays(m, m', f[j]);
    }
    assert forall j: nat :: Live(f, j) && j != i ==> Live(f', j);
  }

  /** What removing a file leaves of medium, map and table. */
  lemma RemovedWhole(m: Medium, m': Medium, used: set<nat>, f: seq<Tfile>, i: nat)
    requires Clean(m) && Mapped(m, used) && TableOk(m, used, f) && Live(f, i)
    requires |m'| == |m| && f[i].bno < |m| && m' == m[f[i].bno := Junk]
    ensures f[i].dbno != NOTABNO ==> Intact(m, f[i].bno)
    ensures Clean(m') && Image(m') == Image(m) - {f[i].bno}
    ensures var used', f' := used - Elems(ChainFor(m, f[i])) - {f[i].bno}, f[i := BLANK];
            Mapped(m', used') && TableOk(m', used', f') && forall j: nat :: Live(f', j) ==> StaysAs(m, m', f'[j])
  {
    hide Clean, Mapped, TableOk, EntryOk, Image, StaysAs, Intact, FileChain, ChainFor;
    EntryHasBlock(m, used, f, i);
    RemovedMapped(m, m', used, f[i]);
    EntryRemoved(m, m', used, f, i);
  }

  // ----- replacing at close

  /** The entries differ in nothing that concerns the medium. */
  predicate SameOnMedium(e: Tfile, e': Tfile) {
    e'.name == e.name && e'.bno == e.bno && e'.dbno == e.dbno && e'.pin == e.pin && e'.length == e.length
  }

  lemma Relabelled(m: Medium, used: set<nat>, f: seq<Tfile>, i: nat, e: Tfile)
    requires TableOk(m, used, f) && i < |f| && SameOnMedium(f[i], e)
    ensures TableOk(m, used, f[i := e])
    ensures BytesLike(m, f[i], e)
  {
    var f' := f[i := e];
    assert forall j: nat :: Live(f', j) <==> Live(f, j);
    forall j: nat | Live(f', j)
      ensures EntryOk(m, used, f'[j])
    {
      assert EntryOk(m, used, f[j]);
    }
  }

  ghost predicate BytesLike(m: Medium, e: Tfile, e': Tfile) {
    (Exact(m, e') <==> Exact(m, e)) && (Whole(m, e') <==> Whole(m, e))
  }

  /** What becomes of entry g when entry e is closed. */
  function ClosedBeside(e: Tfile, g: Tfile): Tfile {
    if e.r == 1 && !e.rmonclose && e.creating && g.name == e.name then
      if g.r != 0 then g.(rmonclose := true) else BLANK
    else g
  }

  /** The directory blocks of the entries of f that f' no longer has. */
  function Gone(f: seq<Tfile>, f': seq<Tfile>): (g: set<nat>)
    requires |f'| == |f|
    ensures forall j: nat :: Live(f, j) && !Live(f', j) ==> f[j].bno in g
  {
    set j: nat | j < |f| && Live(f, j) && !Live(f', j) :: f[j].bno
  }

  lemma OneMoreGone(f: seq<Tfile>, f': seq<Tfile>, j: nat)
    requires |f'| == |f| && Live(f, j) && Live(f', j)
    ensures Gone(f, f'[j := BLANK]) == Gone(f, f') + {f[j].bno}
  {
    var f1 := f'[j := BLANK];
    assert forall k: nat :: Live(f1, k) <==> Live(f', k) && k != j;
    assert Live(f, j) && !Live(f1, j);
  }

  lemma SameGone(f: seq<Tfile>, f': seq<Tfile>, f1: seq<Tfile>)
    requires |f'| == |f| == |f1| && forall k: nat :: Live(f1, k) <==> Live(f', k)
    ensures Gone(f, f1) == Gone(f, f')
  {
  }

  ghost predicate SubImage(a: map<nat, FileImage>, b: map<nat, FileImage>) {
    forall x :: x in a ==> x in b && b[x] == a[x]
  }

  /** At every moment the medium holds files of before, and all of them but those gone. */
  ghost predicate LosesOnly(h0: seq<Medium>, h: seq<Medium>, before: map<nat, FileImage>, gone: set<nat>) {
    && h0 <= h
    && forall k :: |h0| <= k < |h| ==>
         Clean(h[k]) && Scanned(h[k]) == h[k] && SubImage(Image(h[k]), before) && SubImage(before - gone, Image(h[k]))
  }

  /** Between the state m0, f0 and the state m, f some files have gone and nothing else changed. */
  ghost predicate Replacing(m0: Medium, h0: seq<Medium>, f0: seq<Tfile>, m: Medium, h: seq<Medium>, f: seq<Tfile>) {
    && |f| == |f0| && |m| == |m0|
    && Image(m) == Image(m0) - Gone(f0, f)
    && LosesOnly(h0, h, Image(m0), Gone(f0, f))
    && forall j: nat :: Live(f, j) ==> Live(f0, j) && SameOnMedium(f0[j], f[j]) && StaysAs(m0, m, f0[j])
  }

  lemma ReplacingStarts(m: Medium, h: seq<Medium>, f: seq<Tfile>)
    ensures Replacing(m, h, f, m, h, f)
  {
    assert Gone(f, f) == {};
  }

  lemma ReplacingRelabels(m0: Medium, h0: seq<Medium>, f0: seq<Tfile>, m: Medium, h: seq<Medium>, f: seq<Tfile>,
                          used: set<nat>, j: nat, e: Tfile)
    requires Replacing(m0, h0, f0, m, h, f) && TableOk(m, used, f) && j < |f| && SameOnMedium(f[j], e)
    ensures Replacing(m0, h0, f0, m, h, f[j := e]) && TableOk(m, used, f[j := e])
  {
    Relabelled(m, used, f, j, e);
    assert forall k: nat :: Live(f[j := e], k) <==> Live(f, k);
    SameGone(f0, f, f[j := e]);
  }

  lemma ReplacingRemoves(m0: Medium, h0: seq<Medium>, f0: seq<Tfile>, m: Medium, h: seq<Medium>, f: seq<Tfile>, m': Medium, j: nat)
    requires Replacing(m0, h0, f0, m, h, f) && Live(f, j) && Clean(m') && |m'| == |m|
    requires Image(m') == Image(m) - {f[j].bno}
    requires forall k: nat :: Live(f, k) && k != j ==> StaysAs(m, m', f[k])
    ensures Replacing(m0, h0, f0, m', h + [m'], f[j := BLANK])
  {
    hide Image, Clean, Exact, Whole;
    OneMoreGone(f0, f, j);
    assert Image(m0) - Gone(f0, f) - {f[j].bno} == Image(m0) - (Gone(f0, f) + {f[j].bno});
    ScanOfCleanIsIdentity(m');
    RemovalLoses(h0, h, Image(m0), Gone(f0, f), m', f[j].bno);
    forall k: nat | Live(f[j := BLANK], k)
      ensures Live(f0, k) && SameOnMedium(f0[k], f[k]) && StaysAs(m0, m', f0[k])
    {
      assert Live(f, k) && k != j;
      StaysOn(m0, m, m', f0[k], f[k]);
    }
  }

  lemma StaysOn(m0: Medium, m: Medium, m': Medium, e0: Tfile, e: Tfile)
    requires SameOnMedium(e0, e) && StaysAs(m0, m, e0) && StaysAs(m, m', e)
    ensures StaysAs(m0, m', e0)
  {
    assert Exact(m, e0) <==> Exact(m, e);
    assert Exact(m', e0) <==> Exact(m', e);
    assert Whole(m, e0) <==> Whole(m, e);
    assert Whole(m', e0) <==> Whole(m', e);
  }

  lemma RemovalLoses(h0: seq<Medium>, h: seq<Medium>, before: map<nat, FileImage>, gone: set<nat>, m: Medium, b: nat)
    requires LosesOnly(h0, h, before, gone) && Clean(m) && Scanned(m) == m && Image(m) == before - (gone + {b})
    ensures LosesOnly(h0, h + [m], before, gone + {b})
  {
    hide Image, Clean, Scanned;
    var h' := h + [m];
    forall k | |h0| <= k < |h'|
      ensures Clean(h'[k]) && Scanned(h'[k]) == h'[k]
      ensures SubImage(Image(h'[k]), before) && SubImage(before - (gone + {b}), Image(h'[k]))
    {
      if k < |h| { assert h'[k] == h[k]; }
    }
  }

  // ----- reading

  function Slice(s: seq<Byte>, offset: nat, n: nat): seq<Byte> {
    if offset >= |s| then [] else if offset + n >= |s| then s[offset..] else s[offset..offset + n]
  }

  /** The bytes of a file with data are those of its chain. */
  lemma FileBytes(m: Medium, used: set<nat>, f: seq<Tfile>, i: nat)
    requires TableOk(m, used, f) && Live(f, i) && Exact(m, f[i]) && 0 < f[i].length
    ensures f[i].bno < |m| && IsDir(m, f[i].bno) && IsChain(m, FileChain(m, f[i].bno)) && FileChain(m, f[i].bno)[0] == f[i].dbno
    ensures BytesOf(m, f[i]) == Bytes(m, FileChain(m, f[i].bno)) && |BytesOf(m, f[i])| == f[i].length
  {
    hide Bytes, IsChain;
    assert EntryOk(m, used, f[i]);
  }

  /** Block k of a file holds its bytes from k * DLEN on. */
  lemma BlockBytes(m: Medium, p: seq<nat>, k: nat)
    requires IsChain(m, p) && k < |p|
    ensures IsData(m, p[k]) && |DataAt(m, p[k])| <= DLEN
    ensures var b, d := Bytes(m, p), DataAt(m, p[k]);
            DLEN * k + |d| <= |b| && b[DLEN * k..DLEN * k + |d|] == d
    ensures k == |p| - 1 ==> DLEN * k + |DataAt(m, p[k])| == |Bytes(m, p)|
    ensures k < |p| - 1 ==> |DataAt(m, p[k])| == DLEN && At(m, p[k]).Data? && At(m, p[k]).next == p[k + 1]
  {
    var a, c := p[..k], p[k + 1..];
    forall i | 0 <= i < k
      ensures At(m, p[i]).Data?
    {
      assert Links(m, p, i);
    }
    if k < |p| - 1 { assert Links(m, p, k); }
    PrefixLength(m, a);
    assert p[..k + 1][..k] == a;
    assert Bytes(m, p[..k + 1]) == Bytes(m, a) + DataAt(m, p[k]);
    BytesConcat(m, p[..k + 1], c);
    assert p == p[..k + 1] + c;
    if k == |p| - 1 { assert c == []; }
  }

  lemma PartOfBlock(b: seq<Byte>, lo: nat, d: seq<Byte>, off: nat, x: seq<Byte>)
    requires lo + |d| <= |b| && b[lo..lo + |d|] == d && off <= |d| && x <= d[off..]
    ensures x == b[lo + off..lo + off + |x|]
  {
  }

  lemma JoinParts(b: seq<Byte>, o: nat, s: nat, l: nat)
    requires o + s + l <= |b|
    ensures b[o..o + s] + b[o + s..o + s + l] == b[o..o + (s + l)]
  {
  }
}
