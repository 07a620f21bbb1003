/** The streaming hash chain of hash_chain.rs and its Merkle segments. */
module MerkleChain {
  import opened Results
  import opened GaloisField
  import opened SignaturePayloads

  // Thirty-two zero bytes.
  const ZEROS: seq<Byte> := [
    0, 0, 0, 0, 0, 0, 0, 0, 0, 0, 0, 0, 0, 0, 0, 0, 0, 0, 0, 0, 0, 0, 0, 0, 0, 0, 0, 0, 0, 0, 0, 0]

  type Digest = d: seq<Byte> | |d| == 32 witness ZEROS

  // BLAKE3 as a function; nothing is assumed of it.
  type Hasher = seq<Byte> -> Digest

  const ZERO: Digest := ZEROS

  function Joined(left: Digest, right: Digest): seq<Byte> {
    var front: seq<Byte> := left;
    var back: seq<Byte> := right;
    front + back
  }

  lemma JoinedBinds(a: Digest, b: Digest, c: Digest, d: Digest)
    requires Joined(a, b) == Joined(c, d)
    ensures a == c && b == d
  {
    AppendCancels(a, b, c, d);
  }

  // A pair is hashed over its left digest and then its right one.
  lemma PairLayout(h: Hasher, left: Digest, right: Digest, bytes: seq<Byte>)
    requires |bytes| == 64 && forall i :: 0 <= i < 32 ==> bytes[i] == left[i] && bytes[32 + i] == right[i]
    ensures Merkle(h, [left, right]) == h(bytes)
  {
    assert bytes == Joined(left, right);
    MerkleOnce(h, [left, right]);
    assert NextLevel(h, [left, right]) == [h(bytes)];
    MerkleOnce(h, [h(bytes)]);
  }

  // --- Merkle trees -------------------------------------------------------------------------

  // A level of even length: the last hash is doubled when there is an odd number of them.
  function Paired(level: seq<Digest>): (r: seq<Digest>)
    ensures |r| % 2 == 0 && |r| == 2 * ((|level| + 1) / 2)
  {
    if |level| % 2 == 1 then level + [level[|level| - 1]] else level
  }

  function NextLevel(h: Hasher, level: seq<Digest>): (r: seq<Digest>)
    ensures |r| == (|level| + 1) / 2
  {
    var p := Paired(level);
    seq((|level| + 1) / 2, i requires 0 <= i < (|level| + 1) / 2 => h(Joined(p[2 * i], p[2 * i + 1])))
  }

  function Merkle(h: Hasher, leaves: seq<Digest>): Digest
    decreases |leaves|
  {
    if |leaves| == 0 then ZERO
    else if |leaves| == 1 then leaves[0]
    else Merkle(h, NextLevel(h, leaves))
  }

  lemma MerkleOnce(h: Hasher, leaves: seq<Digest>)
    requires |leaves| > 0
    ensures Merkle(h, leaves) == if |leaves| == 1 then leaves[0] else Merkle(h, NextLevel(h, leaves))
  {
    hide NextLevel;
  }

  lemma MerkleNone(h: Hasher)
    ensures Merkle(h, []) == ZERO
  {}

  method HashPairs(h: Hasher, level: seq<Digest>) returns (nextLevel: seq<Digest>)
    requires |level| % 2 == 0
    ensures |nextLevel| == |level| / 2
    ensures forall k :: 0 <= k < |nextLevel| ==> nextLevel[k] == h(Joined(level[2 * k], level[2 * k + 1]))
  {
    hide Joined;
    nextLevel := [];
    for i := 0 to |level| / 2
      invariant |nextLevel| == i
      invariant forall k :: 0 <= k < i ==> nextLevel[k] == h(Joined(level[2 * k], level[2 * k + 1]))
    {
      nextLevel := nextLevel + [h(Joined(level[2 * i], level[2 * i + 1]))];
    }
  }

  method ComputeMerkleRoot(h: Hasher, leaves: seq<Digest>) returns (root: Digest)
    ensures root == Merkle(h, leaves)
  {
    hide Joined, Merkle;
    if |leaves| == 0 {
      MerkleNone(h);
      return ZERO;
    }
    var level := leaves;
    while |level| > 1
      invariant |level| >= 1 && Merkle(h, level) == Merkle(h, leaves)
      decreases |level|
    {
      ghost var start := level;
      MerkleOnce(h, start);
      if |level| % 2 == 1 {
        level := level + [level[|level| - 1]];
      }
      assert level == Paired(start);
      level := HashPairs(h, level);
      assert level == NextLevel(h, start);
    }
    MerkleOnce(h, level);
    root := level[0];
  }

  // The tree seen from above: how wide each level is, and what each of its nodes hashes.
  function Width(n: nat, k: nat): nat
    decreases k
  {
    if k == 0 then n else (Width(n, k - 1) + 1) / 2
  }

  function Depth(n: nat): nat {
    if n <= 1 then 0 else 1 + Depth((n + 1) / 2)
  }

  // The right child of a last node without a right neighbour is the left child again.
  function RightChild(n: nat, k: nat, i: nat): nat {
    if 2 * i + 1 < Width(n, k) then 2 * i + 1 else 2 * i
  }

  function Node(h: Hasher, leaves: seq<Digest>, k: nat, i: nat): Digest
    requires i < Width(|leaves|, k)
    decreases k
  {
    if k == 0 then leaves[i]
    else h(Joined(Node(h, leaves, k - 1, 2 * i), Node(h, leaves, k - 1, RightChild(|leaves|, k - 1, i))))
  }

  lemma {:induction false} WidthShift(n: nat, k: nat)
    ensures Width((n + 1) / 2, k) == Width(n, k + 1)
    decreases k
  {
    if k > 0 {
      WidthShift(n, k - 1);
    }
  }

  lemma LeafShift(h: Hasher, leaves: seq<Digest>, i: nat)
    requires i < Width(|leaves|, 1)
    ensures i < |NextLevel(h, leaves)|
    ensures NextLevel(h, leaves)[i] == Node(h, leaves, 1, i)
  {
    hide Joined;
    var p, j := Paired(leaves), RightChild(|leaves|, 0, i);
    assert p[2 * i] == leaves[2 * i] == Node(h, leaves, 0, 2 * i);
    assert p[2 * i + 1] == leaves[j] == Node(h, leaves, 0, j);
  }

  // A node of the next level's tree is the node above it in the whole tree.
  lemma {:induction false} NodeShift(h: Hasher, leaves: seq<Digest>, k: nat, i: nat)
    requires i < Width(|leaves|, k + 1)
    ensures i < Width(|NextLevel(h, leaves)|, k)
    ensures Node(h, NextLevel(h, leaves), k, i) == Node(h, leaves, k + 1, i)
    decreases k
  {
    hide Joined, NextLevel;
    WidthShift(|leaves|, k);
    if k == 0 {
      LeafShift(h, leaves, i);
    } else {
      WidthShift(|leaves|, k - 1);
      NodeShift(h, leaves, k - 1, 2 * i);
      NodeShift(h, leaves, k - 1, RightChild(|leaves|, k, i));
    }
  }

  // The level-by-level loop computes the top of the tree.
  lemma {:induction false} MerkleIsTop(h: Hasher, leaves: seq<Digest>)
    requires |leaves| > 0
    ensures Width(|leaves|, Depth(|leaves|)) == 1
    ensures Merkle(h, leaves) == Node(h, leaves, Depth(|leaves|), 0)
    decreases |leaves|
  {
    hide NextLevel, RightChild;
    if |leaves| > 1 {
      var next := NextLevel(h, leaves);
      MerkleIsTop(h, next);
      WidthShift(|leaves|, Depth(|next|));
      NodeShift(h, leaves, Depth(|next|), 0);
    }
  }

  // Two different levels of one length with the same next level exhibit a collision.
  lemma LevelBinds(h: Hasher, a: seq<Digest>, b: seq<Digest>) returns (x: seq<Byte>, y: seq<Byte>)
    requires |a| == |b| && NextLevel(h, a) == NextLevel(h, b)
    ensures a == b || Collision<Digest>(h, x, y)
  {
    hide Joined;
    x, y := [], [];
    if a != b {
      var k :| 0 <= k < |a| && a[k] != b[k];
      var p, q, i := Paired(a), Paired(b), k / 2;
      assert p[k] == a[k] && q[k] == b[k];
      x, y := Joined(p[2 * i], p[2 * i + 1]), Joined(q[2 * i], q[2 * i + 1]);
      if x == y {
        JoinedBinds(p[2 * i], p[2 * i + 1], q[2 * i], q[2 * i + 1]);
        assert false;
      }
      assert NextLevel(h, a)[i] == h(x) && NextLevel(h, b)[i] == h(y);
    }
  }

  // Equal roots over equally many leaves: the leaves are equal, or here is a collision.
  lemma {:induction false} MerkleBinds(h: Hasher, a: seq<Digest>, b: seq<Digest>) returns (x: seq<Byte>, y: seq<Byte>)
    requires |a| == |b| && Merkle(h, a) == Merkle(h, b)
    ensures a == b || Collision<Digest>(h, x, y)
    decreases |a|
  {
    hide NextLevel, Merkle;
    x, y := [], [];
    if |a| > 0 {
      MerkleOnce(h, a);
      MerkleOnce(h, b);
      if |a| > 1 {
        x, y := MerkleBinds(h, NextLevel(h, a), NextLevel(h, b));
        if !Collision<Digest>(h, x, y) {
          x, y := LevelBinds(h, a, b);
        }
      }
    }
  }

  // Without the frame count a root would not bind: doubling the last of an odd number of leaves keeps it.
  lemma LastLeafDoubles(h: Hasher, leaves: seq<Digest>)
    requires |leaves| % 2 == 1 && |leaves| > 1
    ensures Merkle(h, leaves) == Merkle(h, leaves + [leaves[|leaves| - 1]])
  {
    hide Joined, Merkle;
    var doubled := leaves + [leaves[|leaves| - 1]];
    MerkleOnce(h, leaves);
    MerkleOnce(h, doubled);
    assert Paired(leaves) == doubled == Paired(doubled);
    assert NextLevel(h, leaves) == NextLevel(h, doubled);
  }

  // --- the chain of frame hashes --------------------------------------------------------------

  datatype Frame = Frame(index: nat, data: seq<Byte>)

  function FrameHash(h: Hasher, frame: Frame, previous: Digest): Digest {
    h(LittleEndian(frame.index, 8) + (previous + frame.data))
  }

  // A frame is hashed over its index in 8 bytes, lowest first, the hash before it, and its data.
  lemma FrameLayout(h: Hasher, frame: Frame, previous: Digest, bytes: seq<Byte>)
    requires |bytes| == 40 + |frame.data|
    requires forall i: nat :: i < 8 ==> bytes[i] as nat == frame.index / Pow256(i) % 256
    requires forall i: nat :: i < 32 ==> bytes[8 + i] == previous[i]
    requires forall i: nat :: i < |frame.data| ==> bytes[40 + i] == frame.data[i]
    ensures FrameHash(h, frame, previous) == h(bytes)
  {
    hide LittleEndian, Pow256;
    var index := LittleEndian(frame.index, 8);
    forall i: nat | i < 8
      ensures bytes[i] == index[i]
    {
      LittleEndianDigit(frame.index, 8, i);
      SameByte(bytes[i], index[i]);
    }
    assert bytes == index + (previous + frame.data);
  }

  // The hash of the last frame, chained from a predecessor.
  function LastHash(h: Hasher, frames: seq<Frame>, previous: Digest): Digest {
    if |frames| == 0 then previous
    else FrameHash(h, frames[|frames| - 1], LastHash(h, frames[..|frames| - 1], previous))
  }

  // The hashes of all frames, chained from a predecessor.
  function ChainHashes(h: Hasher, frames: seq<Frame>, previous: Digest): (hashes: seq<Digest>)
    ensures |hashes| == |frames|
  {
    if |frames| == 0 then []
    else ChainHashes(h, frames[..|frames| - 1], previous) + [LastHash(h, frames, previous)]
  }

  lemma ChainOnce(h: Hasher, frames: seq<Frame>, frame: Frame, previous: Digest)
    ensures LastHash(h, frames + [frame], previous) == FrameHash(h, frame, LastHash(h, frames, previous))
    ensures ChainHashes(h, frames + [frame], previous) == ChainHashes(h, frames, previous) + [LastHash(h, frames + [frame], previous)]
  {
    assert (frames + [frame])[..|frames|] == frames;
  }

  lemma ChainLast(h: Hasher, frames: seq<Frame>, previous: Digest)
    ensures |frames| > 0 ==> ChainHashes(h, frames, previous)[|frames| - 1] == LastHash(h, frames, previous)
    ensures ChainHashes(h, [], previous) == [] && LastHash(h, [], previous) == previous
  {
    hide FrameHash;
  }

  // Leaf i is the hash of the chain up to frame i.
  lemma {:induction false} ChainHashAt(h: Hasher, frames: seq<Frame>, previous: Digest, i: nat)
    requires i < |frames|
    ensures ChainHashes(h, frames, previous)[i] == LastHash(h, frames[..i + 1], previous)
    decreases |frames|
  {
    hide FrameHash;
    var n := |frames| - 1;
    if i < n {
      ChainHashAt(h, frames[..n], previous, i);
      assert frames[..n][..i + 1] == frames[..i + 1];
    } else {
      assert frames[..n + 1] == frames;
    }
  }

  const MAX_INDEX := 0xFFFF_FFFF_FFFF_FFFF

  lemma IndexFits(index: nat)
    requires index <= MAX_INDEX
    ensures index < Pow256(8)
  {
    assert Pow256(4) == 0x1_0000_0000;
  }

  // Equal frame hashes: the frames and their predecessors are equal, or here is a collision.
  lemma FrameBinds(h: Hasher, f: Frame, p: Digest, g: Frame, q: Digest) returns (x: seq<Byte>, y: seq<Byte>)
    requires f.index <= MAX_INDEX && g.index <= MAX_INDEX && FrameHash(h, f, p) == FrameHash(h, g, q)
    ensures (f == g && p == q) || Collision<Digest>(h, x, y)
  {
    hide LittleEndian, Pow256;
    var a, b := LittleEndian(f.index, 8), LittleEndian(g.index, 8);
    x, y := a + (p + f.data), b + (q + g.data);
    if x == y {
      AppendCancels(a, p + f.data, b, q + g.data);
      AppendCancels(p, f.data, q, g.data);
      IndexFits(f.index);
      IndexFits(g.index);
      LittleEndianInjective(f.index, g.index);
    }
  }

  ghost predicate ValidIndices(frames: seq<Frame>) {
    forall i :: 0 <= i < |frames| ==> frames[i].index <= MAX_INDEX
  }

  lemma LastHashOf(h: Hasher, frames: seq<Frame>, previous: Digest)
    requires |frames| > 0
    ensures LastHash(h, frames, previous)
         == FrameHash(h, frames[|frames| - 1], LastHash(h, frames[..|frames| - 1], previous))
  {
    hide FrameHash;
  }

  // The last hash binds the whole chain: equally many frames and their predecessors are equal, or here is a
  // collision.
  lemma {:induction false} ChainBinds(h: Hasher, f: seq<Frame>, p: Digest, g: seq<Frame>, q: Digest)
    returns (x: seq<Byte>, y: seq<Byte>)
    requires |f| == |g| && ValidIndices(f) && ValidIndices(g) && LastHash(h, f, p) == LastHash(h, g, q)
    ensures (f == g && p == q) || Collision<Digest>(h, x, y)
    decreases |f|
  {
    hide FrameHash, LastHash;
    x, y := [], [];
    if |f| == 0 {
      ChainLast(h, f, p);
      ChainLast(h, g, q);
    } else {
      var n := |f| - 1;
      LastHashOf(h, f, p);
      LastHashOf(h, g, q);
      x, y := FrameBinds(h, f[n], LastHash(h, f[..n], p), g[n], LastHash(h, g[..n], q));
      if !Collision<Digest>(h, x, y) {
        x, y := ChainBinds(h, f[..n], p, g[..n], q);
        assert f == f[..n] + [f[n]] && g == g[..n] + [g[n]];
      }
    }
  }

  // --- segments -----------------------------------------------------------------------------

  datatype SegmentMeta = SegmentMeta(startFrame: nat, frameCount: nat, segmentIndex: nat)

  datatype MerkleRoot = MerkleRoot(rootHash: Digest, segment: SegmentMeta, lastFrameHash: Digest)

  // The root of a segment with its place in the chain.
  function RootOf(h: Hasher, frames: seq<Frame>, segmentIndex: nat, previous: Digest): MerkleRoot
    requires |frames| > 0
  {
    MerkleRoot(Merkle(h, ChainHashes(h, frames, previous)),
               SegmentMeta(frames[0].index, |frames|, segmentIndex),
               LastHash(h, frames, previous))
  }

  // The index of frame i is the successor of the one before, within 64 bits.
  ghost predicate Follows(frames: seq<Frame>, i: nat)
    requires 0 < i < |frames|
  {
    frames[i - 1].index < MAX_INDEX && frames[i].index == frames[i - 1].index + 1
  }

  ghost predicate Consecutive(frames: seq<Frame>) {
    forall i: nat :: 0 < i < |frames| ==> Follows(frames, i)
  }

  // What verify_chain accepts.
  ghost predicate Accepts(h: Hasher, root: MerkleRoot, frames: seq<Frame>, previous: Digest) {
    && |frames| > 0
    && |frames| == root.segment.frameCount
    && frames[0].index == root.segment.startFrame
    && (root.segment.segmentIndex == 0 <==> previous == ZERO)
    && root.segment.segmentIndex <= root.segment.startFrame
    && Consecutive(frames)
    && LastHash(h, frames, previous) == root.lastFrameHash
    && Merkle(h, ChainHashes(h, frames, previous)) == root.rootHash
  }

  method HasConsecutiveIndices(frames: seq<Frame>) returns (r: bool)
    ensures r <==> Consecutive(frames)
  {
    var i := 1;
    while i < |frames|
      invariant 1 <= i
      invariant forall k: nat :: 0 < k < i && k < |frames| ==> Follows(frames, k)
    {
      assert Follows(frames, i) <==> frames[i - 1].index < MAX_INDEX && frames[i].index == frames[i - 1].index + 1;
      if frames[i - 1].index >= MAX_INDEX || frames[i - 1].index + 1 != frames[i].index {
        return false;
      }
      i := i + 1;
    }
    r := true;
  }

  method VerifyChain(h: Hasher, root: MerkleRoot, frames: seq<Frame>, previousHash: Digest) returns (r: bool)
    ensures r <==> Accepts(h, root, frames, previousHash)
  {
    hide Consecutive, FrameHash, Merkle;
    if |frames| == 0 || |frames| != root.segment.frameCount || frames[0].index != root.segment.startFrame {
      return false;
    }
    if (root.segment.segmentIndex == 0) != (previousHash == ZERO) || root.segment.segmentIndex > root.segment.startFrame {
      return false;
    }
    var consecutive := HasConsecutiveIndices(frames);
    if !consecutive {
      return false;
    }
    var prevHash := previousHash;
    var segmentHashes: seq<Digest> := [];
    for i := 0 to |frames|
      invariant prevHash == LastHash(h, frames[..i], previousHash)
      invariant segmentHashes == ChainHashes(h, frames[..i], previousHash)
    {
      ChainOnce(h, frames[..i], frames[i], previousHash);
      assert frames[..i + 1] == frames[..i] + [frames[i]];
      var hash := FrameHash(h, frames[i], prevHash);
      segmentHashes := segmentHashes + [hash];
      prevHash := hash;
    }
    assert frames[..|frames|] == frames;
    if |segmentHashes| != root.segment.frameCount {
      return false;
    }
    assert segmentHashes[|segmentHashes| - 1] == LastHash(h, frames, previousHash);
    if segmentHashes[|segmentHashes| - 1] != root.lastFrameHash {
      return false;
    }
    var computedRoot := ComputeMerkleRoot(h, segmentHashes);
    r := computedRoot == root.rootHash;
  }

  lemma {:induction false} ConsecutiveFrom(frames: seq<Frame>, i: nat)
    requires Consecutive(frames) && i < |frames|
    ensures frames[i].index == frames[0].index + i
  {
    if i > 0 {
      ConsecutiveFrom(frames, i - 1);
      assert Follows(frames, i);
    }
  }

  // A Merkle root over equally many frames pins them down together with their predecessor, or here is a collision.
  lemma RootBinds(h: Hasher, f: seq<Frame>, p: Digest, g: seq<Frame>, q: Digest) returns (x: seq<Byte>, y: seq<Byte>)
    requires |f| == |g| > 0 && ValidIndices(f) && ValidIndices(g)
    requires Merkle(h, ChainHashes(h, f, p)) == Merkle(h, ChainHashes(h, g, q))
    ensures (f == g && p == q) || Collision<Digest>(h, x, y)
  {
    hide Merkle, LastHash, ChainHashes;
    x, y := MerkleBinds(h, ChainHashes(h, f, p), ChainHashes(h, g, q));
    if !Collision<Digest>(h, x, y) {
      ChainLast(h, f, p);
      ChainLast(h, g, q);
      x, y := ChainBinds(h, f, p, g, q);
    }
  }

  // Soundness: two frame lists accepted for one root are equal, and so are the predecessors they were accepted
  // with, or here is a collision.
  lemma AcceptedFramesEqual(h: Hasher, root: MerkleRoot, f: seq<Frame>, p: Digest, g: seq<Frame>, q: Digest)
    returns (x: seq<Byte>, y: seq<Byte>)
    requires Accepts(h, root, f, p) && Accepts(h, root, g, q) && ValidIndices(f) && ValidIndices(g)
    ensures (f == g && p == q) || Collision<Digest>(h, x, y)
  {
    hide Merkle, LastHash, ChainHashes, Consecutive;
    x, y := RootBinds(h, f, p, g, q);
  }

  lemma ZeroDigest(d: Digest)
    ensures d == ZERO <==> forall i :: 0 <= i < 32 ==> d[i] == 0
  {
    if forall i :: 0 <= i < 32 ==> d[i] == 0 {
      var a: seq<Byte> := d;
      assert a == ZEROS;
    }
  }

  // Acceptance determines the whole root: it is the root of the accepted frames, which are consecutive and not numbered
  // below it, and the predecessor is thirty-two zero bytes for the first segment and for no other.
  lemma AcceptsExactly(h: Hasher, root: MerkleRoot, frames: seq<Frame>, previous: Digest)
    ensures Accepts(h, root, frames, previous) <==>
      && |frames| > 0
      && root == RootOf(h, frames, root.segment.segmentIndex, previous)
      && (forall i: nat :: i < |frames| ==> frames[i].index == frames[0].index + i)
      && (|frames| > 1 ==> frames[|frames| - 1].index <= 0xFFFF_FFFF_FFFF_FFFF)
      && root.segment.segmentIndex <= frames[0].index
      && (root.segment.segmentIndex == 0 <==> forall i :: 0 <= i < 32 ==> previous[i] == 0)
  {
    hide Merkle, ChainHashes, LastHash, Consecutive;
    ZeroDigest(previous);
    if |frames| > 0 {
      ConsecutiveMeans(frames);
    }
  }

  // Consecutive frames are numbered without gaps, and the last number fits.
  lemma ConsecutiveMeans(frames: seq<Frame>)
    requires |frames| > 0
    ensures Consecutive(frames) <==>
      && (forall i: nat :: i < |frames| ==> frames[i].index == frames[0].index + i)
      && (|frames| > 1 ==> frames[|frames| - 1].index <= MAX_INDEX)
  {
    if Consecutive(frames) {
      forall i: nat | i < |frames|
        ensures frames[i].index == frames[0].index + i
      {
        NumberedOn(frames, i);
      }
      if |frames| > 1 {
        assert Follows(frames, |frames| - 1);
      }
    }
  }

  lemma {:induction false} NumberedOn(frames: seq<Frame>, i: nat)
    requires Consecutive(frames) && i < |frames|
    ensures frames[i].index == frames[0].index + i
  {
    if i > 0 {
      NumberedOn(frames, i - 1);
      assert Follows(frames, i);
    }
  }

  // So two roots accepted for the same frames and predecessor under one segment number are the same root.
  lemma AcceptedRootUnique(h: Hasher, a: MerkleRoot, b: MerkleRoot, frames: seq<Frame>, previous: Digest)
    requires Accepts(h, a, frames, previous) && Accepts(h, b, frames, previous)
    requires a.segment.segmentIndex == b.segment.segmentIndex
    ensures a == b
  {
    hide Accepts, RootOf;
    AcceptsExactly(h, a, frames, previous);
    AcceptsExactly(h, b, frames, previous);
  }

  // --- runs ---------------------------------------------------------------------------------

  datatype Op = Add(frame: Frame) | Build

  // Finished segments and the frames of the segment in progress.
  datatype Log = Log(segments: seq<seq<Frame>>, current: seq<Frame>)

  function Finalized(log: Log): Log {
    if |log.current| == 0 then log else Log(log.segments + [log.current], [])
  }

  function Step(log: Log, op: Op, segmentSize: nat): Log {
    match op
    case Add(frame) =>
      var grown := Log(log.segments, log.current + [frame]);
      if |grown.current| >= segmentSize then Finalized(grown) else grown
    case Build => Finalized(log)
  }

  function Replay(ops: seq<Op>, segmentSize: nat): Log {
    if |ops| == 0 then Log([], []) else Step(Replay(ops[..|ops| - 1], segmentSize), ops[|ops| - 1], segmentSize)
  }

  // The frames that a run added, in order.
  function Added(ops: seq<Op>): seq<Frame> {
    if |ops| == 0 then []
    else
      var last := ops[|ops| - 1];
      Added(ops[..|ops| - 1]) + (if last.Add? then [last.frame] else [])
  }

  function Flatten(segments: seq<seq<Frame>>): seq<Frame> {
    if |segments| == 0 then [] else Flatten(segments[..|segments| - 1]) + segments[|segments| - 1]
  }

  // The hash that segment i is chained from.
  function Predecessor(h: Hasher, segments: seq<seq<Frame>>, i: nat): Digest
    requires i <= |segments|
    decreases i
  {
    if i == 0 then ZERO else LastHash(h, segments[i - 1], Predecessor(h, segments, i - 1))
  }

  ghost predicate NonEmptySegments(segments: seq<seq<Frame>>) {
    forall i :: 0 <= i < |segments| ==> |segments[i]| > 0
  }

  lemma FlattenOnce(segments: seq<seq<Frame>>, last: seq<Frame>)
    ensures Flatten(segments + [last]) == Flatten(segments) + last
  {
    assert (segments + [last])[..|segments|] == segments;
  }

  // A log of the frames added so far: no segment empty, none longer than the segment size.
  ghost predicate Partitions(log: Log, frames: seq<Frame>, segmentSize: nat) {
    && NonEmptySegments(log.segments)
    && (forall i :: 0 <= i < |log.segments| ==> |log.segments[i]| <= segmentSize)
    && |log.current| <= segmentSize
    && Flatten(log.segments) + log.current == frames
  }

  lemma FinalizedPartitions(log: Log, frames: seq<Frame>, segmentSize: nat)
    requires Partitions(log, frames, segmentSize)
    ensures Partitions(Finalized(log), frames, segmentSize)
  {
    hide Flatten;
    FlattenOnce(log.segments, log.current);
  }

  lemma GrownPartitions(log: Log, frames: seq<Frame>, frame: Frame, segmentSize: nat)
    requires Partitions(log, frames, segmentSize) && |log.current| < segmentSize
    ensures Partitions(Log(log.segments, log.current + [frame]), frames + [frame], segmentSize)
  {
    hide Flatten;
    assert Flatten(log.segments) + (log.current + [frame]) == (Flatten(log.segments) + log.current) + [frame];
  }

  // Segments are never empty, and together they are the added frames, each once and in order.
  lemma {:induction false} RunPartitions(ops: seq<Op>, segmentSize: nat)
    requires segmentSize > 0
    ensures Partitions(Replay(ops, segmentSize), Added(ops), segmentSize)
    ensures |Replay(ops, segmentSize).current| < segmentSize
  {
    hide Partitions;
    if |ops| == 0 {
      NothingAdded(segmentSize);
    } else {
      var n := |ops| - 1;
      RunPartitions(ops[..n], segmentSize);
      var log := Replay(ops[..n], segmentSize);
      match ops[n] {
        case Add(frame) =>
          GrownPartitions(log, Added(ops[..n]), frame, segmentSize);
          FinalizedPartitions(Log(log.segments, log.current + [frame]), Added(ops), segmentSize);
        case Build =>
          assert Added(ops) == Added(ops[..n]);
          FinalizedPartitions(log, Added(ops), segmentSize);
      }
    }
  }

  lemma NothingAdded(segmentSize: nat)
    ensures Partitions(Log([], []), [], segmentSize)
  {}

  // Segments end only when they are full or when a root is asked for: without that every finished segment is full.
  lemma {:induction false} SegmentsFill(ops: seq<Op>, segmentSize: nat)
    requires segmentSize > 0 && forall i :: 0 <= i < |ops| ==> ops[i].Add?
    ensures var log := Replay(ops, segmentSize);
            && (forall i :: 0 <= i < |log.segments| ==> |log.segments[i]| == segmentSize)
            && |ops| == |log.segments| * segmentSize + |log.current| && |log.current| < segmentSize
  {
    if |ops| > 0 {
      var n := |ops| - 1;
      SegmentsFill(ops[..n], segmentSize);
      var segments := |Replay(ops[..n], segmentSize).segments|;
      assert (segments + 1) * segmentSize == segments * segmentSize + segmentSize;
    }
  }

  // Asking for a root finishes the segment in progress as it is, adds no frame, and does nothing right after it was
  // finished.
  lemma BuildFinishes(ops: seq<Op>, segmentSize: nat)
    ensures var before, after := Replay(ops, segmentSize), Replay(ops + [Build], segmentSize);
            && after.current == []
            && after.segments == (if before.current == [] then before.segments else before.segments + [before.current])
            && Added(ops + [Build]) == Added(ops)
            && Replay(ops + [Build] + [Build], segmentSize) == after
  {
    assert (ops + [Build])[..|ops|] == ops;
    assert (ops + [Build] + [Build])[..|ops| + 1] == ops + [Build];
  }

  lemma {:induction false} ConsecutiveSegments(segments: seq<seq<Frame>>, rest: seq<Frame>, i: nat)
    requires NonEmptySegments(segments) && Consecutive(Flatten(segments) + rest) && i < |segments|
    ensures Consecutive(segments[i]) && segments[i][0].index >= i
    decreases |segments|
  {
    var n := |segments| - 1;
    var all := Flatten(segments) + rest;
    var before := Flatten(segments[..n]);
    assert all == before + (segments[n] + rest);
    if i < n {
      ConsecutiveSegments(segments[..n], segments[n] + rest, i);
    } else {
      FlattenGrows(segments[..n]);
      ConsecutiveFrom(all, |before|);
      assert all[|before|] == segments[n][0];
      forall j: nat | 0 < j < |segments[n]|
        ensures Follows(segments[n], j)
      {
        assert Follows(all, |before| + j);
      }
    }
  }

  lemma {:induction false} FlattenGrows(segments: seq<seq<Frame>>)
    requires NonEmptySegments(segments)
    ensures |Flatten(segments)| >= |segments|
  {
    if |segments| > 0 {
      FlattenGrows(segments[..|segments| - 1]);
    }
  }

  // Completeness over all runs, whatever frames and calls of build_root follow each other: root i verifies against
  // its own frames exactly when they are consecutive, none of them numbered below the segment, and the root is the
  // first or its predecessor's last hash is not all zero.
  lemma EveryRootExactly(h: Hasher, ops: seq<Op>, segmentSize: nat, i: nat)
    requires segmentSize > 0 && i < |Replay(ops, segmentSize).segments|
    ensures var segments := Replay(ops, segmentSize).segments;
            var previous := Predecessor(h, segments, i);
            |segments[i]| > 0
            && (Accepts(h, RootOf(h, segments[i], i, previous), segments[i], previous)
                <==> Consecutive(segments[i]) && i <= segments[i][0].index && (i == 0 || previous != ZERO))
  {
    hide Merkle, ChainHashes, LastHash, Consecutive, Added, Replay, Flatten;
    RunPartitions(ops, segmentSize);
  }

  // In a run of consecutive frames only the zero predecessor is left to fail.
  lemma EveryRootVerifies(h: Hasher, ops: seq<Op>, segmentSize: nat, i: nat)
    requires segmentSize > 0 && Consecutive(Added(ops)) && i < |Replay(ops, segmentSize).segments|
    ensures var segments := Replay(ops, segmentSize).segments;
            var previous := Predecessor(h, segments, i);
            |segments[i]| > 0
            && (Accepts(h, RootOf(h, segments[i], i, previous), segments[i], previous) <==> i == 0 || previous != ZERO)
  {
    hide Merkle, ChainHashes, LastHash, Consecutive, Added, Replay, Flatten, Accepts, Predecessor;
    RunPartitions(ops, segmentSize);
    var log := Replay(ops, segmentSize);
    ConsecutiveSegments(log.segments, log.current, i);
    EveryRootExactly(h, ops, segmentSize, i);
  }

  // Later segments do not change what a segment is chained from.
  lemma {:induction false} PredecessorLocal(h: Hasher, segments: seq<seq<Frame>>, last: seq<Frame>, i: nat)
    requires i <= |segments|
    ensures Predecessor(h, segments + [last], i) == Predecessor(h, segments, i)
    decreases i
  {
    if i > 0 {
      PredecessorLocal(h, segments, last, i - 1);
    }
  }

  // Root i belongs to segment i.
  ghost predicate RootAt(h: Hasher, segments: seq<seq<Frame>>, roots: seq<MerkleRoot>, i: nat)
    requires i < |segments| == |roots|
  {
    |segments[i]| > 0 && roots[i] == RootOf(h, segments[i], i, Predecessor(h, segments, i))
  }

  ghost predicate RootsMatch(h: Hasher, segments: seq<seq<Frame>>, roots: seq<MerkleRoot>) {
    |roots| == |segments| && forall i: nat :: i < |segments| ==> RootAt(h, segments, roots, i)
  }

  lemma PredecessorNext(h: Hasher, segments: seq<seq<Frame>>, last: seq<Frame>)
    ensures var n := |segments|;
            Predecessor(h, segments + [last], n + 1) == LastHash(h, last, Predecessor(h, segments, n))
  {
    hide LastHash;
    PredecessorLocal(h, segments, last, |segments|);
  }

  lemma RootKept(h: Hasher, segments: seq<seq<Frame>>, roots: seq<MerkleRoot>, last: seq<Frame>, root: MerkleRoot, i: nat)
    requires i < |segments| == |roots| && RootAt(h, segments, roots, i)
    ensures RootAt(h, segments + [last], roots + [root], i)
  {
    hide RootOf, Predecessor;
    PredecessorLocal(h, segments, last, i);
  }

  lemma RootAdded(h: Hasher, segments: seq<seq<Frame>>, roots: seq<MerkleRoot>, last: seq<Frame>)
    requires |segments| == |roots| && |last| > 0
    ensures var n := |segments|;
            RootAt(h, segments + [last], roots + [RootOf(h, last, n, Predecessor(h, segments, n))], n)
  {
    hide RootOf, Predecessor;
    PredecessorLocal(h, segments, last, |segments|);
  }

  lemma RootsExtended(h: Hasher, segments: seq<seq<Frame>>, roots: seq<MerkleRoot>, last: seq<Frame>, root: MerkleRoot)
    requires RootsMatch(h, segments, roots) && |last| > 0
    requires root == RootOf(h, last, |segments|, Predecessor(h, segments, |segments|))
    ensures RootsMatch(h, segments + [last], roots + [root])
  {
    hide RootOf, Predecessor, RootAt;
    RootAdded(h, segments, roots, last);
    var longer, grown := segments + [last], roots + [root];
    forall i: nat | i < |longer|
      ensures RootAt(h, longer, grown, i)
    {
      if i < |segments| {
        RootKept(h, segments, roots, last, root, i);
      }
    }
  }

  // --- the object -----------------------------------------------------------------------------

  class HashChain {
    const hasher: Hasher
    const segmentSize: nat
    var segmentHashes: seq<Digest>
    var segmentIndices: seq<nat>
    var completedRoots: seq<MerkleRoot>
    var prevHash: Digest
    var totalFrames: nat
    var segmentIndex: nat
    // The run so far.
    ghost var log: Log

    // The fields are what the run determines.
    ghost predicate Represents()
      reads this
    {
      && RootsMatch(hasher, log.segments, completedRoots)
      && segmentIndex == |log.segments|
      && segmentHashes == ChainHashes(hasher, log.current, Predecessor(hasher, log.segments, segmentIndex))
      && prevHash == LastHash(hasher, log.current, Predecessor(hasher, log.segments, segmentIndex))
      && |segmentIndices| == |log.current|
      && (forall i :: 0 <= i < |log.current| ==> segmentIndices[i] == log.current[i].index)
      && totalFrames == |Flatten(log.segments) + log.current|
    }

    ghost predicate Valid()
      reads this
    {
      segmentSize > 0 && Represents() && |log.current| < segmentSize
    }

    constructor WithSegmentSize(hasher: Hasher, segmentSize: nat)
      requires segmentSize > 0
      ensures Valid() && this.hasher == hasher && this.segmentSize == segmentSize && log == Replay([], segmentSize)
    {
      this.hasher := hasher;
      this.segmentSize := segmentSize;
      segmentHashes, segmentIndices, completedRoots := [], [], [];
      prevHash, totalFrames, segmentIndex := ZERO, 0, 0;
      log := Log([], []);
    }

    method AddFrame(index: nat, data: seq<Byte>) returns (hash: Digest)
      requires Valid()
      modifies this
      ensures Valid() && log == Step(old(log), Add(Frame(index, data)), segmentSize)
      ensures hash == FrameHash(hasher, Frame(index, data), old(prevHash)) && prevHash == hash
    {
      hide Merkle, FrameHash, Flatten, RootsMatch;
      ghost var frame := Frame(index, data);
      ghost var previous := Predecessor(hasher, log.segments, segmentIndex);
      ChainOnce(hasher, log.current, frame, previous);
      hash := FrameHash(hasher, Frame(index, data), prevHash);
      segmentHashes := segmentHashes + [hash];
      segmentIndices := segmentIndices + [index];
      prevHash := hash;
      totalFrames := totalFrames + 1;
      log := Log(log.segments, log.current + [frame]);
      if |segmentHashes| >= segmentSize {
        FinalizeSegment();
      }
    }

    method FinalizeSegment()
      requires Represents()
      modifies this
      ensures Represents() && log == Finalized(old(log)) && prevHash == old(prevHash)
    {
      hide Merkle, FrameHash, Flatten, ChainHashes, LastHash, Predecessor, RootsMatch;
      if |segmentHashes| == 0 {
        return;
      }
      ChainLast(hasher, log.current, Predecessor(hasher, log.segments, segmentIndex));
      var startFrame := segmentIndices[0];
      var frameCount := |segmentHashes|;
      var lastFrameHash := segmentHashes[|segmentHashes| - 1];
      var rootHash := ComputeMerkleRoot(hasher, segmentHashes);
      var root := MerkleRoot(rootHash, SegmentMeta(startFrame, frameCount, segmentIndex), lastFrameHash);
      FlattenOnce(log.segments, log.current);
      ChainLast(hasher, [], lastFrameHash);
      RootsExtended(hasher, log.segments, completedRoots, log.current, root);
      PredecessorNext(hasher, log.segments, log.current);
      completedRoots := completedRoots + [root];
      segmentHashes, segmentIndices := [], [];
      log := Log(log.segments + [log.current], []);
      segmentIndex := segmentIndex + 1;
    }

    method BuildRoot() returns (root: Option<MerkleRoot>)
      requires Valid()
      modifies this
      ensures Valid() && log == Step(old(log), Build, segmentSize)
      ensures root == if |completedRoots| == 0 then None else Some(completedRoots[|completedRoots| - 1])
    {
      if |segmentHashes| != 0 {
        FinalizeSegment();
      }
      root := if |completedRoots| == 0 then None else Some(completedRoots[|completedRoots| - 1]);
    }
  }

  // What a chain reports: root i verifies, with the last frame hash of the root before it, exactly when its frames are
  // consecutive from its own number or later on and that hash is not all zero; the first root needs no hash.
  lemma ReportedRootsVerify(chain: HashChain, ops: seq<Op>, i: nat)
    requires chain.Valid() && chain.log == Replay(ops, chain.segmentSize) && i < |chain.completedRoots|
    ensures Flatten(chain.log.segments) + chain.log.current == Added(ops) && |Added(ops)| == chain.totalFrames
    ensures var previous := if i == 0 then ZERO else chain.completedRoots[i - 1].lastFrameHash;
            var frames := chain.log.segments[i];
            |frames| > 0
            && chain.completedRoots[i].segment == SegmentMeta(frames[0].index, |frames|, i)
            && chain.completedRoots[i].lastFrameHash == LastHash(chain.hasher, frames, previous)
            && (Accepts(chain.hasher, chain.completedRoots[i], frames, previous)
                <==> Consecutive(frames) && i <= frames[0].index && (i == 0 || previous != ZERO))
  {
    hide Merkle, ChainHashes, LastHash, Consecutive, Added, Replay, Flatten, Accepts;
    RunPartitions(ops, chain.segmentSize);
    assert RootAt(chain.hasher, chain.log.segments, chain.completedRoots, i);
    if i > 0 {
      assert RootAt(chain.hasher, chain.log.segments, chain.completedRoots, i - 1);
    }
    EveryRootExactly(chain.hasher, ops, chain.segmentSize, i);
  }
}
