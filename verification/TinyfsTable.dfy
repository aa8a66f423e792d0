/**
 The file table of tinyfs: what an entry says about the medium, and how the scan at mount
 time fills the table and accounts for every used block.
 */
module TinyfsTable {
  import opened Sequences
  import opened Octets
  import opened TinyfsBlock
  import opened TinyfsMedium
  import opened TinyfsCommit
  import opened TinyfsWalk

  datatype Tfile = Tfile(
    r: int, name: Name, bno: nat, dbno: nat, pin: nat,
    creating: bool, rmonclose: bool, length: nat)

  const BLANK := Tfile(0, [], 0, 0, 0, false, false, 0)

  function Blanks(n: nat): (f: seq<Tfile>)
    ensures |f| == n
  {
    seq(n, _ => BLANK)
  }

  // ----- what the file table says about the medium

  ghost predicate Mapped(m: Medium, used: set<nat>) {
    && (forall b: nat :: IsDir(m, b) ==> b in used)
    && (forall b: nat, x :: Intact(m, b) && x in FileChain(m, b) ==> x in used)
  }

  predicate Live(f: seq<Tfile>, i: nat) {
    i < |f| && f[i].name != []
  }

  /** A file without data has an invisible directory block; any other has a visible one. */
  predicate EntryOk(m: Medium, used: set<nat>, e: Tfile) {
    && e.bno < |m| && e.bno in used && e.pin < 0x10000
    && (if e.dbno == NOTABNO then At(m, e.bno) == Junk
        else
          && IsDir(m, e.bno)
          && At(m, e.bno).dbno == e.dbno && At(m, e.bno).pin == e.pin
          && Take(At(m, e.bno).name, NLEN - 1) == Take(e.name, NLEN - 1))
  }

  ghost predicate TableOk(m: Medium, used: set<nat>, f: seq<Tfile>) {
    && (forall i: nat :: Live(f, i) ==> EntryOk(m, used, f[i]))
    && (forall i: nat, j: nat :: Live(f, i) && Live(f, j) && i != j ==> f[i].bno != f[j].bno)
  }

  /** The bytes of the file a table entry stands for. */
  ghost function BytesOf(m: Medium, e: Tfile): seq<Byte>
    requires e.dbno != NOTABNO ==> Intact(m, e.bno)
  {
    if e.dbno == NOTABNO then [] else Bytes(m, FileChain(m, e.bno))
  }

  ghost predicate Exact(m: Medium, e: Tfile) {
    (e.dbno != NOTABNO ==> Intact(m, e.bno)) && e.length == |BytesOf(m, e)|
  }

  // ----- scanning

  function ScanEntry(m: Medium, d: nat): Tfile
    requires IsDir(m, d)
  {
    Tfile(0, At(m, d).name, d, At(m, d).dbno, At(m, d).pin, false, false, 0)
  }

  ghost function MountedEntry(m: Medium, d: nat): Tfile
    requires Intact(m, d)
  {
    ScanEntry(m, d).(length := |Bytes(m, FileChain(m, d))|)
  }

  /** The directory blocks below upto, in order, are the first nf table entries. */
  ghost predicate Listed(m: Medium, f: seq<Tfile>, nf: nat, dirs: seq<nat>, upto: nat) {
    && |dirs| == nf <= |f|
    && (forall k :: 0 <= k < nf ==> IsDir(m, dirs[k]) && dirs[k] < upto && f[k] == ScanEntry(m, dirs[k]))
    && (forall j, k :: 0 <= j < k < nf ==> dirs[j] < dirs[k])
    && (forall d: nat :: IsDir(m, d) && d < upto ==> d in dirs)
    && (forall k :: nf <= k < |f| ==> f[k] == BLANK)
  }

  ghost function Upto(m: Medium, dirs: seq<nat>, k: nat): nat {
    if k < |dirs| then dirs[k] else |m|
  }

  /** Block b is on the chain of a file kept below upto. */
  ghost predicate OwnedBelow(m: Medium, upto: nat, b: nat) {
    exists c: nat :: c < upto && Kept(m, c) && b in FileChain(m, c)
  }

  /** Used blocks are directories, blocks of kept files, and blocks that lead nowhere. */
  ghost predicate Accounted(m: Medium, upto: nat, now: Medium, used: set<nat>, leaked: set<nat>) {
    && (forall b: nat :: b < |m| ==> (b in used <==> IsDir(now, b) || OwnedBelow(m, upto, b) || b in leaked))
    && (forall b :: b in leaked ==> IsData(m, b) && !HasChain(m, b))
  }

  ghost predicate Followed(m: Medium, f: seq<Tfile>, dirs: seq<nat>, k: nat) {
    && k <= |dirs| <= |f|
    && (forall j :: 0 <= j < |dirs| ==> IsDir(m, dirs[j]))
    && (forall i, j :: 0 <= i < j < |dirs| ==> dirs[i] < dirs[j])
    && (forall d: nat :: IsDir(m, d) ==> d in dirs)
    && (forall j :: 0 <= j < k ==> f[j] == if Kept(m, dirs[j]) then MountedEntry(m, dirs[j]) else BLANK)
    && (forall j :: k <= j < |dirs| ==> f[j] == ScanEntry(m, dirs[j]))
    && (forall j :: |dirs| <= j < |f| ==> f[j] == BLANK)
  }

  /** The table as it is after the scan of m. */
  ghost predicate Mounted(m: Medium, f: seq<Tfile>) {
    exists dirs :: Followed(m, f, dirs, |dirs|)
  }

  /** From every medium of h a scan comes to what it makes of m. */
  ghost predicate Resumable(h: seq<Medium>, m: Medium) {
    forall k :: 0 <= k < |h| ==> Scanned(h[k]) == Scanned(m)
  }

  lemma ResumableStep(h: seq<Medium>, m: Medium, upto: nat)
    requires Resumable(h, m)
    ensures Resumable(h + [ScannedTo(m, upto)], m)
  {
    hide Scanned, ScannedTo;
    ScanResumes(m, upto);
  }

  /** A nameless directory with one byte of data. */
  function Nameless(): Medium {
    [Dir([], 0, 1), End([7]), Junk]
  }

  lemma NamelessKept()
    ensures Kept(Nameless(), 0) && MountedEntry(Nameless(), 0).name == [] && MountedEntry(Nameless(), 0).length == 1
  {
    var m := Nameless();
    assert IsChain(m, [1]);
    ChainOfIs(m, [1]);
    ChainLength(m, [1]);
  }

  lemma OneDirectory(dirs: seq<nat>, f: seq<Tfile>)
    requires Followed(Nameless(), f, dirs, |dirs|)
    ensures dirs != [] && dirs[0] == 0 && f != [] && (Kept(Nameless(), 0) ==> f[0] == MountedEntry(Nameless(), 0))
  {
    hide Kept;
    assert IsDir(Nameless(), 0) && 0 in dirs;
    assert IsDir(Nameless(), dirs[0]);
  }

  /** The table entry a scan makes of it has no name, but a length. */
  lemma StaleLengthExample(f: seq<Tfile>)
    requires Mounted(Nameless(), f)
    ensures f != [] && f[0].name == [] && f[0].length == 1
  {
    hide Followed, Kept;
    var dirs :| Followed(Nameless(), f, dirs, |dirs|);
    OneDirectory(dirs, f);
    NamelessKept();
  }

  lemma NoneListed(m: Medium, f: seq<Tfile>)
    requires f == []
    ensures Listed(m, f, 0, [], 0)
  {
  }

  lemma ListMore(m: Medium, f: seq<Tfile>, nf: nat, dirs: seq<nat>, b: nat)
    requires Listed(m, f, nf, dirs, b) && IsDir(m, b) && nf < |f|
    ensures Listed(m, f[nf := ScanEntry(m, b)], nf + 1, dirs + [b], b + 1)
  {
  }

  /** Room at the end of the table. */
  lemma ListRoom(m: Medium, f: seq<Tfile>, nf: nat, dirs: seq<nat>, b: nat, n: nat)
    requires Listed(m, f, nf, dirs, b)
    ensures nf <= |f| && Listed(m, f[..nf] + Blanks(n), nf, dirs, b)
  {
  }

  lemma ListSkip(m: Medium, f: seq<Tfile>, nf: nat, dirs: seq<nat>, b: nat)
    requires Listed(m, f, nf, dirs, b) && !IsDir(m, b)
    ensures Listed(m, f, nf, dirs, b + 1)
  {
  }

  lemma FollowedEntry(m: Medium, f: seq<Tfile>, dirs: seq<nat>, k: nat)
    requires Followed(m, f, dirs, k) && k < |dirs|
    ensures k < |f| && IsDir(m, dirs[k]) && f[k] == ScanEntry(m, dirs[k])
  {
  }

  lemma OwnedIsData(m: Medium, upto: nat, b: nat)
    requires OwnedBelow(m, upto, b)
    ensures IsData(m, b)
  {
    var c: nat :| c < upto && Kept(m, c) && b in FileChain(m, c);
    var p := FileChain(m, c);
    assert forall i :: 0 <= i < |p| ==> IsData(m, p[i]);
  }

  lemma KeptAvoidsOwned(m: Medium, d: nat, b: nat)
    requires Kept(m, d) && b in FileChain(m, d)
    ensures !OwnedBelow(m, d, b)
  {
    assert forall c: nat :: c < d && Kept(m, c) ==> Disjoint(FileChain(m, d), FileChain(m, c));
  }

  /** A walk from d that stopped at bno is stuck when bno is taken or holds no data. */
  lemma StuckIsNotKept(m: Medium, d: nat, seen: seq<nat>, bno: nat, used: set<nat>, leaked: set<nat>)
    requires IsDir(m, d) && IsWalk(m, At(m, d).dbno, seen, bno)
    requires Accounted(m, d, ScannedTo(m, d), used, leaked)
    requires bno in used || bno in seen || !IsData(m, bno)
    ensures !Kept(m, d)
  {
    if Kept(m, d) {
      var p := FileChain(m, d);
      WalkIsPrefix(m, At(m, d).dbno, seen, bno, p);
      var n := |seen|;
      assert bno == p[n] && bno in p && IsData(m, bno);
      KeptAvoidsOwned(m, d, bno);
      ChainSuffix(m, p, n);
      assert HasChain(m, bno);
      var i :| 0 <= i < n && seen[i] == bno;
      assert p[i] == p[..n][i];
      ChainAcyclic(m, p, i, n);
    }
  }

  /** A walk from d through free blocks to an end block makes d a kept file. */
  lemma EndedIsKept(m: Medium, d: nat, seen: seq<nat>, bno: nat)
    requires IsDir(m, d) && IsWalk(m, At(m, d).dbno, seen, bno)
    requires IsData(m, bno) && At(m, bno).End?
    requires forall x :: x in seen + [bno] ==> !OwnedBelow(m, d, x)
    ensures Kept(m, d) && FileChain(m, d) == seen + [bno]
    ensures |Bytes(m, FileChain(m, d))| == DLEN * |seen| + |DataAt(m, bno)|
  {
    var p := seen + [bno];
    WalkEnds(m, At(m, d).dbno, seen, bno);
    ChainUnique(m, p, ChainOf(m, At(m, d).dbno));
    ChainLength(m, p);
    assert p[..|p| - 1] == seen;
    forall c: nat | c < d && Kept(m, c)
      ensures Disjoint(p, FileChain(m, c))
    {
      assert forall x :: x in p && x in FileChain(m, c) ==> OwnedBelow(m, d, x);
    }
  }

  ghost function DataBlocks(m: Medium): set<nat> {
    set b | 0 <= b < |m| && IsData(m, b)
  }

  /** The blocks of seen are distinct and were free. */
  ghost predicate Fresh(seen: seq<nat>, used: set<nat>) {
    Distinct(seen) && forall x :: x in seen ==> x !in used
  }

  lemma FreshStart(used: set<nat>)
    ensures Fresh([], used)
  {
  }

  lemma FreshStep(seen: seq<nat>, used: set<nat>, b: nat)
    requires Fresh(seen, used) && b !in used + Elems(seen)
    ensures Fresh(seen + [b], used) && used + Elems(seen + [b]) == used + Elems(seen) + {b}
  {
  }

  lemma RunFrame(m: Medium, upto: nat, bno: nat, bend: nat, run: seq<nat>)
    requires IsRun(m, bno, bend, run)
    ensures IsRun(ScannedTo(m, upto), bno, bend, run)
  {
    forall i | 0 <= i < |run| - 1
      ensures Links(ScannedTo(m, upto), run, i)
    {
      assert Links(m, run, i);
    }
  }

  /** Cut at the first visit of bno, what a walk has seen falls into two disjoint parts. */
  lemma CutDisjoint(seen: seq<nat>, j: nat, x: nat)
    requires Distinct(seen) && j <= |seen|
    ensures x in seen <==> x in seen[..j] || x in seen[j..]
    ensures !(x in seen[..j] && x in seen[j..])
  {
    assert seen == seen[..j] + seen[j..];
    assert forall i, t :: 0 <= i < j <= t < |seen| ==> seen[i] != seen[t];
  }

  /** After a purge the blocks on the cycle, if there was one, stay used but lead nowhere. */
  lemma PurgeAccounts(m: Medium, d: nat, seen: seq<nat>, bno: nat, used: set<nat>, leaked: set<nat>)
    requires IsDir(m, d) && !Kept(m, d) && IsWalk(m, At(m, d).dbno, seen, bno)
    requires Accounted(m, d, ScannedTo(m, d), used, leaked)
    requires Fresh(seen, used)
    ensures var j := FirstAt(seen, bno);
            Accounted(m, d, ScannedTo(m, d)[d := Junk],
                      used + Elems(seen) - Elems(seen[..j]) - {d},
                      leaked + Elems(seen[j..]))
  {
    var j := FirstAt(seen, bno);
    var leaked' := leaked + Elems(seen[j..]);
    var used' := used + Elems(seen) - Elems(seen[..j]) - {d};
    var now, now' := ScannedTo(m, d), ScannedTo(m, d)[d := Junk];
    assert forall i :: 0 <= i < |seen| ==> IsData(m, seen[i]);
    forall b | b in leaked'
      ensures IsData(m, b) && !HasChain(m, b)
    {
      if b in seen[j..] {
        var t :| j <= t < |seen| && seen[t] == b;
        CycleHasNoChain(m, At(m, d).dbno, seen, bno, j, t);
      }
    }
    forall b: nat | b < |m|
      ensures b in used' <==> IsDir(now', b) || OwnedBelow(m, d, b) || b in leaked'
    {
      CutDisjoint(seen, j, b);
      if b == d {
        if OwnedBelow(m, d, b) { OwnedIsData(m, d, b); }
      }
    }
  }

  /** Between one directory block and the next nothing is kept or purged. */
  lemma NextUpto(m: Medium, f: seq<Tfile>, dirs: seq<nat>, k: nat)
    requires Followed(m, f, dirs, k) && k < |dirs|
    ensures ScannedTo(m, Upto(m, dirs, k + 1)) ==
            if Kept(m, dirs[k]) then ScannedTo(m, dirs[k]) else ScannedTo(m, dirs[k])[dirs[k] := Junk]
    ensures forall b: nat :: OwnedBelow(m, Upto(m, dirs, k + 1), b) <==>
              OwnedBelow(m, dirs[k], b) || (Kept(m, dirs[k]) && b in FileChain(m, dirs[k]))
  {
    forall d: nat | IsDir(m, d)
      ensures d < Upto(m, dirs, k + 1) <==> d <= dirs[k]
    {
      var j :| 0 <= j < |dirs| && dirs[j] == d;
    }
    var a, b := ScannedTo(m, Upto(m, dirs, k + 1)), ScannedTo(m, dirs[k]);
    assert forall i: nat :: i < |m| ==> a[i] == if i == dirs[k] && !Kept(m, i) then Junk else b[i];
    assert forall d: nat :: Kept(m, d) ==> (d < Upto(m, dirs, k + 1) <==> d <= dirs[k]);
  }

  lemma FollowedStep(m: Medium, f: seq<Tfile>, dirs: seq<nat>, k: nat, e: Tfile)
    requires Followed(m, f, dirs, k) && k < |dirs|
    requires e == if Kept(m, dirs[k]) then MountedEntry(m, dirs[k]) else BLANK
    ensures Followed(m, f[k := e], dirs, k + 1)
  {
  }

  lemma KeptAccounts(m: Medium, f: seq<Tfile>, dirs: seq<nat>, k: nat, p: seq<nat>, used: set<nat>, leaked: set<nat>)
    requires Followed(m, f, dirs, k) && k < |dirs| && Kept(m, dirs[k]) && FileChain(m, dirs[k]) == p
    requires Accounted(m, dirs[k], ScannedTo(m, dirs[k]), used, leaked)
    ensures Accounted(m, Upto(m, dirs, k + 1), ScannedTo(m, Upto(m, dirs, k + 1)), used + Elems(p), leaked)
    ensures ScannedTo(m, Upto(m, dirs, k + 1)) == ScannedTo(m, dirs[k])
  {
    NextUpto(m, f, dirs, k);
  }

  lemma KeptWalk(m: Medium, d: nat, seen: seq<nat>, bno: nat, used: set<nat>, leaked: set<nat>)
    requires IsDir(m, d) && IsWalk(m, At(m, d).dbno, seen, bno) && IsData(m, bno) && bno !in used && Fresh(seen, used)
    requires Accounted(m, d, ScannedTo(m, d), used, leaked)
    ensures (forall i :: 0 <= i < |seen| ==> IsData(m, seen[i])) && forall x :: x in seen + [bno] ==> !OwnedBelow(m, d, x)
  {
    hide OwnedBelow, Kept;
  }

  /** Entry k is kept: its chain joins the owned blocks. */
  lemma EntryKept(m: Medium, f: seq<Tfile>, dirs: seq<nat>, k: nat, seen: seq<nat>, bno: nat,
                  used: set<nat>, leaked: set<nat>)
    requires Followed(m, f, dirs, k) && k < |dirs|
    requires var d := dirs[k];
             && IsWalk(m, At(m, d).dbno, seen, bno) && IsData(m, bno) && At(m, bno).End?
             && Accounted(m, d, ScannedTo(m, d), used, leaked)
    requires bno !in used && Fresh(seen, used)
    ensures Followed(m, f[k := f[k].(length := DLEN * |seen| + |DataAt(m, bno)|)], dirs, k + 1)
    ensures Accounted(m, Upto(m, dirs, k + 1), ScannedTo(m, Upto(m, dirs, k + 1)),
                      used + Elems(seen) + {bno}, leaked)
    ensures ScannedTo(m, Upto(m, dirs, k + 1)) == ScannedTo(m, dirs[k])
  {
    hide Kept, ScannedTo, HasChain, Bytes, OwnedBelow, Fresh, IsChain, ChainOf, At, ScanEntry, Followed;
    var d := dirs[k];
    FollowedEntry(m, f, dirs, k);
    KeptWalk(m, d, seen, bno, used, leaked);
    EndedIsKept(m, d, seen, bno);
    KeptAccounts(m, f, dirs, k, seen + [bno], used, leaked);
    FollowedStep(m, f, dirs, k, f[k].(length := DLEN * |seen| + |DataAt(m, bno)|));
    assert used + Elems(seen + [bno]) == used + Elems(seen) + {bno};
  }

  /** Entry k is purged. */
  lemma EntryPurged(m: Medium, f: seq<Tfile>, dirs: seq<nat>, k: nat, used: set<nat>, leaked: set<nat>)
    requires Followed(m, f, dirs, k) && k < |dirs| && !Kept(m, dirs[k])
    requires Accounted(m, dirs[k], ScannedTo(m, dirs[k])[dirs[k] := Junk], used, leaked)
    ensures Followed(m, f[k := BLANK], dirs, k + 1)
    ensures Accounted(m, Upto(m, dirs, k + 1), ScannedTo(m, Upto(m, dirs, k + 1)), used, leaked)
    ensures ScannedTo(m, Upto(m, dirs, k + 1)) == ScannedTo(m, dirs[k])[dirs[k] := Junk]
  {
    NextUpto(m, f, dirs, k);
    FollowedStep(m, f, dirs, k, BLANK);
  }

  lemma MountedEntryOk(m: Medium, f: seq<Tfile>, dirs: seq<nat>, used: set<nat>, leaked: set<nat>, i: nat)
    requires Followed(m, f, dirs, |dirs|) && Accounted(m, |m|, Scanned(m), used, leaked)
    requires Live(f, i)
    ensures i < |dirs| && f[i].bno == dirs[i] && Kept(m, dirs[i]) && f[i] == MountedEntry(m, dirs[i])
    ensures EntryOk(Scanned(m), used, f[i]) && Exact(Scanned(m), f[i])
  {
    ScanRecovers(m);
    assert i < |dirs|;
    assert ImageAt(Scanned(m), dirs[i]) == ImageAt(m, dirs[i]);
  }

  lemma MountedMapped(m: Medium, used: set<nat>, leaked: set<nat>)
    requires Accounted(m, |m|, Scanned(m), used, leaked)
    ensures Mapped(Scanned(m), used)
  {
    var m' := Scanned(m);
    forall b: nat, x | Intact(m', b) && x in FileChain(m', b)
      ensures x in used
    {
      ScanRecovers(m);
      ScannedHasChain(m, |m|, At(m, b).dbno);
      assert Kept(m, b) && x in FileChain(m, b);
      assert OwnedBelow(m, |m|, x);
      OwnedIsData(m, |m|, x);
    }
  }

  /** After the last entry the table lists exactly the kept files, and all they own is used. */
  lemma MountOk(m: Medium, f: seq<Tfile>, dirs: seq<nat>, used: set<nat>, leaked: set<nat>)
    requires Followed(m, f, dirs, |dirs|) && Accounted(m, |m|, Scanned(m), used, leaked)
    ensures Clean(Scanned(m)) && Mapped(Scanned(m), used) && TableOk(Scanned(m), used, f)
    ensures forall i: nat :: |dirs| <= i < |f| ==> f[i].name == []
    ensures forall i: nat :: Live(f, i) ==>
              Kept(m, f[i].bno) && f[i] == MountedEntry(m, f[i].bno) && Exact(Scanned(m), f[i])
    ensures forall d: nat :: Kept(m, d) && At(m, d).name != [] ==> exists i: nat :: Live(f, i) && f[i].bno == d
  {
    ScanRecovers(m);
    MountedMapped(m, used, leaked);
    forall i: nat | Live(f, i)
      ensures i < |dirs| && f[i].bno == dirs[i] && Kept(m, dirs[i]) && f[i] == MountedEntry(m, dirs[i])
      ensures EntryOk(Scanned(m), used, f[i]) && Exact(Scanned(m), f[i])
    {
      MountedEntryOk(m, f, dirs, used, leaked, i);
    }
    forall d: nat | Kept(m, d) && At(m, d).name != []
      ensures exists i: nat :: Live(f, i) && f[i].bno == d
    {
      var i :| 0 <= i < |dirs| && dirs[i] == d;
      assert Live(f, i);
    }
  }
}
