/**
 What a medium means: the chain of blocks behind each directory block, the files a scan
 keeps, and the image of a medium as a map from directory block to file.
 */
module TinyfsMedium {
  import opened Octets
  import opened TinyfsBlock

  /** A medium seen through its decoded blocks. */
  type Medium = m: seq<Content> | 3 <= |m| <= NOTABNO && forall i :: 0 <= i < |m| ==> WellFormed(m[i], |m|)
    witness [Junk, Junk, Junk]

  predicate WellFormed(c: Content, nblocks: nat) {
    match c
    case Dir(_, pin, dbno) => dbno < nblocks && pin < 0x10000
    case Data(next, data) => next < nblocks && |data| == DLEN
    case End(data) => |data| <= DLEN
    case Junk => true
  }

  /** What the blocks of a device mean. */
  function View(blocks: seq<Block>): (m: Medium)
    requires 3 <= |blocks| <= NOTABNO
    ensures |m| == |blocks| && forall b :: 0 <= b < |m| ==> m[b] == Decode(blocks[b], |blocks|)
  {
    seq(|blocks|, b requires 0 <= b < |blocks| => Decode(blocks[b], |blocks|))
  }

  datatype FileImage = FileImage(name: Name, pin: nat, content: seq<Byte>)

  function At(m: Medium, b: nat): Content
    requires b < |m|
  {
    m[b]
  }

  predicate IsData(m: Medium, b: nat) {
    b < |m| && (At(m, b).Data? || At(m, b).End?)
  }

  // ----- chains

  predicate Links(m: Medium, path: seq<nat>, i: nat)
    requires i + 1 < |path|
  {
    path[i] < |m| && At(m, path[i]).Data? && At(m, path[i]).next == path[i + 1]
  }

  /** Following the links from path[0] visits exactly path and stops at an end block. */
  ghost predicate IsChain(m: Medium, path: seq<nat>) {
    && path != []
    && (forall i :: 0 <= i < |path| ==> IsData(m, path[i]))
    && (forall i :: 0 <= i < |path| - 1 ==> Links(m, path, i))
    && At(m, path[|path| - 1]).End?
  }

  ghost predicate HasChain(m: Medium, start: nat) {
    exists path :: IsChain(m, path) && path[0] == start
  }

  ghost function ChainOf(m: Medium, start: nat): (path: seq<nat>)
    requires HasChain(m, start)
    ensures IsChain(m, path) && path[0] == start
  {
    var path :| IsChain(m, path) && path[0] == start;
    path
  }

  lemma {:induction false} ChainUnique(m: Medium, p: seq<nat>, q: seq<nat>)
    requires IsChain(m, p) && IsChain(m, q) && p[0] == q[0]
    ensures p == q
  {
    if |p| > 1 { assert Links(m, p, 0); }
    if |q| > 1 { assert Links(m, q, 0); }
    if |p| > 1 && |q| > 1 {
      ChainSuffix(m, p, 1);
      ChainSuffix(m, q, 1);
      ChainUnique(m, p[1..], q[1..]);
      assert p == [p[0]] + p[1..] && q == [q[0]] + q[1..];
    }
  }

  lemma ChainOfIs(m: Medium, p: seq<nat>)
    requires IsChain(m, p)
    ensures p != [] && HasChain(m, p[0]) && ChainOf(m, p[0]) == p
  {
    ChainUnique(m, p, ChainOf(m, p[0]));
  }

  lemma ChainSuffix(m: Medium, p: seq<nat>, i: nat)
    requires IsChain(m, p) && i < |p|
    ensures IsChain(m, p[i..]) && p[i..][0] == p[i]
  {
    var q := p[i..];
    forall k | 0 <= k < |q| - 1
      ensures Links(m, q, k)
    {
      assert Links(m, p, i + k);
    }
  }

  /** A chain cannot visit a block twice: it would never end. */
  lemma ChainAcyclic(m: Medium, p: seq<nat>, i: nat, j: nat)
    requires IsChain(m, p) && i < j < |p|
    ensures p[i] != p[j]
  {
    if p[i] == p[j] {
      ChainSuffix(m, p, i);
      ChainSuffix(m, p, j);
      ChainUnique(m, p[i..], p[j..]);
    }
  }

  lemma ChainFrame(m: Medium, m': Medium, p: seq<nat>)
    requires IsChain(m, p) && |m'| == |m|
    requires forall i :: 0 <= i < |p| ==> m'[p[i]] == m[p[i]]
    ensures IsChain(m', p) && HasChain(m', p[0]) && ChainOf(m', p[0]) == p
    ensures Bytes(m', p) == Bytes(m, p)
  {
    forall i | 0 <= i < |p| - 1
      ensures Links(m', p, i)
    {
      assert Links(m, p, i);
    }
    assert IsChain(m', p);
    ChainUnique(m', ChainOf(m', p[0]), p);
    BytesFrame(m, m', p);
  }

  // ----- contents

  function DataAt(m: Medium, b: nat): seq<Byte>
    requires IsData(m, b)
  {
    At(m, b).data
  }

  ghost function Bytes(m: Medium, p: seq<nat>): seq<Byte>
    requires forall i :: 0 <= i < |p| ==> IsData(m, p[i])
  {
    if p == [] then [] else Bytes(m, p[..|p| - 1]) + DataAt(m, p[|p| - 1])
  }

  lemma {:induction false} BytesFrame(m: Medium, m': Medium, p: seq<nat>)
    requires |m'| == |m|
    requires forall i :: 0 <= i < |p| ==> IsData(m, p[i]) && m'[p[i]] == m[p[i]]
    ensures forall i :: 0 <= i < |p| ==> IsData(m', p[i])
    ensures Bytes(m', p) == Bytes(m, p)
  {
    assert forall i :: 0 <= i < |p| ==> At(m', p[i]) == At(m, p[i]);
    if p != [] {
      BytesFrame(m, m', p[..|p| - 1]);
    }
  }

  lemma {:induction false} BytesConcat(m: Medium, p: seq<nat>, q: seq<nat>)
    requires forall i :: 0 <= i < |p| ==> IsData(m, p[i])
    requires forall i :: 0 <= i < |q| ==> IsData(m, q[i])
    ensures forall i :: 0 <= i < |p + q| ==> IsData(m, (p + q)[i])
    ensures Bytes(m, p + q) == Bytes(m, p) + Bytes(m, q)
  {
    hide IsData, DataAt;
    if q == [] {
      assert p + q == p;
    } else {
      var q' := q[..|q| - 1];
      BytesConcat(m, p, q');
      var s, x := p + q, q[|q| - 1];
      assert s[..|s| - 1] == p + q' && s[|s| - 1] == x;
      assert Bytes(m, s) == Bytes(m, p) + Bytes(m, q') + DataAt(m, x);
    }
  }

  /** Full blocks hold DLEN bytes each, so a prefix of a chain has a known length. */
  lemma {:induction false} PrefixLength(m: Medium, p: seq<nat>)
    requires forall i :: 0 <= i < |p| ==> IsData(m, p[i]) && At(m, p[i]).Data?
    ensures |Bytes(m, p)| == DLEN * |p|
  {
    if p != [] {
      PrefixLength(m, p[..|p| - 1]);
    }
  }

  lemma ChainLength(m: Medium, p: seq<nat>)
    requires IsChain(m, p)
    ensures |Bytes(m, p)| == DLEN * (|p| - 1) + |DataAt(m, p[|p| - 1])|
    ensures |DataAt(m, p[|p| - 1])| <= DLEN
  {
    forall i | 0 <= i < |p| - 1
      ensures At(m, p[i]).Data?
    {
      assert Links(m, p, i);
    }
    PrefixLength(m, p[..|p| - 1]);
  }

  // ----- directories

  predicate IsDir(m: Medium, b: nat) {
    b < |m| && At(m, b).Dir?
  }

  ghost predicate Intact(m: Medium, b: nat) {
    IsDir(m, b) && HasChain(m, At(m, b).dbno)
  }

  ghost function FileChain(m: Medium, b: nat): seq<nat>
    requires Intact(m, b)
  {
    ChainOf(m, At(m, b).dbno)
  }

  ghost predicate Disjoint(p: seq<nat>, q: seq<nat>) {
    forall b :: b in p ==> b !in q
  }

  /** Every directory block leads to a whole file and no two files share a block. */
  ghost predicate Clean(m: Medium) {
    && (forall b :: IsDir(m, b) ==> Intact(m, b))
    && (forall b, c :: IsDir(m, b) && IsDir(m, c) && b != c ==>
                         Intact(m, b) && Intact(m, c) && Disjoint(FileChain(m, b), FileChain(m, c)))
  }

  ghost function ImageAt(m: Medium, b: nat): FileImage
    requires Intact(m, b)
  {
    FileImage(At(m, b).name, At(m, b).pin, Bytes(m, FileChain(m, b)))
  }

  ghost function Image(m: Medium): (im: map<nat, FileImage>)
    ensures forall b :: b in im <==> Intact(m, b)
    ensures forall b :: b in im ==> im[b] == ImageAt(m, b)
  {
    map b | 0 <= b < |m| && Intact(m, b) :: ImageAt(m, b)
  }

  // ----- what a scan keeps

  /** A scan keeps a file when its chain is whole and meets no file kept before it. */
  ghost predicate Kept(m: Medium, b: nat)
    decreases b
  {
    Intact(m, b) &&
    forall c :: 0 <= c < b && Kept(m, c) ==> Disjoint(FileChain(m, b), FileChain(m, c))
  }

  /** The medium after a scan that has dealt with the directory blocks below `upto`. */
  ghost function ScannedTo(m: Medium, upto: nat): (m': Medium)
    ensures |m'| == |m|
    ensures forall b :: 0 <= b < |m| ==>
              m'[b] == if b < upto && IsDir(m, b) && !Kept(m, b) then Junk else m[b]
  {
    seq(|m|, b requires 0 <= b < |m| => if b < upto && IsDir(m, b) && !Kept(m, b) then Junk else m[b])
  }

  ghost function Scanned(m: Medium): (m': Medium) {
    ScannedTo(m, |m|)
  }

  /** Purging touches directory blocks only, so no chain appears or disappears. */
  lemma ScannedChains(m: Medium, upto: nat, p: seq<nat>)
    ensures IsChain(ScannedTo(m, upto), p) <==> IsChain(m, p)
    ensures IsChain(m, p) ==> Bytes(ScannedTo(m, upto), p) == Bytes(m, p)
  {
    var m' := ScannedTo(m, upto);
    assert forall b: nat :: IsData(m, b) ==> m'[b] == m[b];
    assert forall b: nat :: IsData(m', b) ==> m'[b] == m[b];
    if IsChain(m, p) { ChainFrame(m, m', p); }
    if IsChain(m', p) { ChainFrame(m', m, p); }
  }

  lemma ScannedHasChain(m: Medium, upto: nat, start: nat)
    ensures HasChain(ScannedTo(m, upto), start) <==> HasChain(m, start)
    ensures HasChain(m, start) ==> ChainOf(ScannedTo(m, upto), start) == ChainOf(m, start)
  {
    var m' := ScannedTo(m, upto);
    if HasChain(m, start) {
      var p := ChainOf(m, start);
      ScannedChains(m, upto, p);
      assert HasChain(m', start);
      ChainUnique(m', p, ChainOf(m', start));
    }
    if HasChain(m', start) {
      ScannedChains(m, upto, ChainOf(m', start));
    }
  }

  /**
   Recovery: whatever was on the medium, a scan leaves a clean medium, whose files are
   exactly the kept ones, each with the name and the bytes it had.
   */
  lemma ScanRecovers(m: Medium)
    ensures Clean(Scanned(m))
    ensures forall b :: Intact(Scanned(m), b) <==> Kept(m, b)
    ensures forall b :: Kept(m, b) ==> ImageAt(Scanned(m), b) == ImageAt(m, b)
  {
    var m' := Scanned(m);
    forall b
      ensures IsDir(m', b) <==> Kept(m, b)
      ensures Kept(m, b) ==> Intact(m', b) && FileChain(m', b) == FileChain(m, b) && ImageAt(m', b) == ImageAt(m, b)
    {
      if Kept(m, b) {
        ScannedHasChain(m, |m|, At(m, b).dbno);
        ScannedChains(m, |m|, FileChain(m, b));
      }
    }
    forall b, c | IsDir(m', b) && IsDir(m', c) && b != c
      ensures Disjoint(FileChain(m', b), FileChain(m', c))
    {
      if c < b {
        assert Disjoint(FileChain(m, b), FileChain(m, c));
      } else {
        assert Disjoint(FileChain(m, c), FileChain(m, b));
      }
    }
  }

  /** A scan of a clean medium changes nothing: all files are kept. */
  lemma {:induction false} CleanIsKept(m: Medium, b: nat)
    requires Clean(m) && IsDir(m, b)
    ensures Kept(m, b)
  {
    forall c | 0 <= c < b && Kept(m, c)
      ensures Disjoint(FileChain(m, b), FileChain(m, c))
    {
    }
  }

  lemma ScanOfCleanIsIdentity(m: Medium)
    requires Clean(m)
    ensures Scanned(m) == m
  {
    forall b | 0 <= b < |m|
      ensures Scanned(m)[b] == m[b]
    {
      if IsDir(m, b) { CleanIsKept(m, b); }
    }
  }

  /** What is kept stays so while a scan is under way. */
  lemma {:induction false} StillKept(m: Medium, upto: nat, b: nat)
    ensures Kept(ScannedTo(m, upto), b) <==> Kept(m, b)
    decreases b
  {
    var m' := ScannedTo(m, upto);
    forall c: nat | c < b
      ensures Kept(m', c) <==> Kept(m, c)
      ensures Kept(m, c) ==> FileChain(m', c) == FileChain(m, c)
    {
      StillKept(m, upto, c);
      if Kept(m, c) { ScannedHasChain(m, upto, At(m, c).dbno); }
    }
    if IsDir(m, b) { ScannedHasChain(m, upto, At(m, b).dbno); }
  }

  /** A scan that was cut short and starts again ends as it would have. */
  lemma ScanResumes(m: Medium, upto: nat)
    ensures Scanned(ScannedTo(m, upto)) == Scanned(m)
  {
    var m' := ScannedTo(m, upto);
    forall b: nat | b < |m|
      ensures Scanned(m')[b] == Scanned(m)[b]
    {
      StillKept(m, upto, b);
    }
  }

  /** Scanning twice is scanning once. */
  lemma ScanIdempotent(m: Medium)
    ensures Scanned(Scanned(m)) == Scanned(m)
  {
    ScanRecovers(m);
    ScanOfCleanIsIdentity(Scanned(m));
  }

  // ----- damage

  lemma SealedBlock(dev: seq<Block>, b: nat)
    requires 3 <= |dev| <= NOTABNO && b < |dev| && View(dev)[b] != Junk
    ensures Sealed(dev[b])
  {
  }

  /** The sums of the directory block of a file, and of all blocks of its chain, are right. */
  ghost predicate Undamaged(dev: seq<Block>, d: nat)
    requires 3 <= |dev| <= NOTABNO
  {
    && Intact(View(dev), d) && Sealed(dev[d])
    && forall b :: b in FileChain(View(dev), d) ==> b < |dev| && Sealed(dev[b])
  }

  /** A file that is kept is undamaged. */
  lemma KeptIsSealed(dev: seq<Block>, d: nat)
    requires 3 <= |dev| <= NOTABNO && Kept(View(dev), d)
    ensures Undamaged(dev, d)
  {
    hide Sealed, View;
    var m := View(dev);
    SealedBlock(dev, d);
    var p := FileChain(m, d);
    forall b | b in p
      ensures b < |dev| && Sealed(dev[b])
    {
      var i :| 0 <= i < |p| && p[i] == b;
      assert IsData(m, p[i]);
      SealedBlock(dev, b);
    }
  }

  lemma DamagedView(dev: seq<Block>, c: nat, i: nat, x: Byte)
    requires 3 <= |dev| <= NOTABNO && c < |dev| && Sealed(dev[c]) && i < BLEN && x != dev[c][i]
    ensures View(dev[c := dev[c][i := x]]) == View(dev)[c := Junk]
  {
    hide Sealed, Decode;
    DamageIsFound(dev[c], i, x, |dev|);
  }

  /** A file with a byte damaged in its directory block or in any block of its chain is not kept. */
  lemma DamagedIsDropped(dev: seq<Block>, d: nat, c: nat, i: nat, x: Byte)
    requires 3 <= |dev| <= NOTABNO && Kept(View(dev), d) && (c == d || c in FileChain(View(dev), d))
    requires c < |dev| && i < BLEN && x != dev[c][i]
    ensures !Kept(View(dev[c := dev[c][i := x]]), d)
  {
    hide Sealed, View;
    var m := View(dev);
    KeptIsSealed(dev, d);
    DamagedView(dev, c, i, x);
    var m' := m[c := Junk];
    if c != d && Intact(m', d) {
      var p := FileChain(m', d);
      assert forall k :: 0 <= k < |p| ==> IsData(m', p[k]) && p[k] != c;
      ChainFrame(m', m, p);
    }
  }
}
