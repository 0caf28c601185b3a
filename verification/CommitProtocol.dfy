/**
 Commits of an encrypted file with two copies of everything, and what a reader recovers.
 A commit writes the payload, the leaf and the node of the copy that is not current, then
 a barrier, then that copy's superblock. The theorems range over every run of commits,
 completed or interrupted, and every tear of the superblock write.
 */
module CommitProtocol {
  import opened Bits
  import opened Endian
  import opened SealedPages
  import opened Wrappers

  const TOTAL_PAGES: nat := 9

  type Disk = seq<Page>

  datatype Copy = A | B {
    function Other(): Copy {
      if this == A then B else A
    }
    function Sb(): nat {
      if this == A then 1 else 2
    }
    function Leaf(): nat {
      if this == A then 3 else 4
    }
    function Node(): nat {
      if this == A then 5 else 6
    }
    function Payload(): nat {
      if this == A then 7 else 8
    }
  }

  // What a reader sees

  datatype Recovered = Nothing | Hybrid | Whole(generation: nat, content: seq<byte>) {
    /** The `long` that `recover` returns, which holds half as many positive numbers as it has
        values. */
    function Code(half: nat): (code: int)
      requires half > 0
    {
      match this
      case Nothing => 0
      case Hybrid => -1
      case Whole(g, _) => var r := g % (2 * half); if r < half then r else r - 2 * half
    }
  }

  /** A page by number: the byte offset is a 64-bit product, and a read past the end fails. */
  function Read(d: Disk, n: nat): (p: Option<Page>) {
    var k := n % 0x10_0000_0000_0000;
    if k < |d| then Some(d[k]) else None
  }

  /** The first 63 bytes of the payload, as a C string. */
  function Shown(plain: Page): (s: seq<byte>) {
    plain[..63] + [0]
  }

  /** The 64 bytes a reader is given: the content, as far as 63 bytes go, and zeros behind it. */
  ghost predicate ShowsContent(shown: seq<byte>, content: seq<byte>) {
    && |shown| == 64 && shown[63] == 0
    && forall i :: 0 <= i < 63 ==> shown[i] == if i < |content| then content[i] else 0
  }

  /** The chain of pages a superblock names, link by link, down to a plaintext. */
  ghost predicate Links(c: Crypto, d: Disk, sb: Page, node: Page, leaf: Page, payload: Page, plain: Page) {
    && Read(d, Get64(sb, SB_NODE)) == Some(node) && NodeMac(c, node) == Get(sb, SB_TREE_ROOT, MAC_SIZE)
    && Read(d, Get64(sb, SB_LEAF)) == Some(leaf) && LeafMac(c, leaf) == Get(node, NODE_CHILDREN, MAC_SIZE)
    && Read(d, Get64(sb, SB_PAYLOAD)) == Some(payload)
    && EntryOffset(leaf, Get64(sb, SB_PAYLOAD)).Some?
    && OpenPage(c, payload, Get64(sb, SB_PAYLOAD),
                Get(leaf, EntryOffset(leaf, Get64(sb, SB_PAYLOAD)).value, ENTRY_SIZE)) == Some(plain)
  }

  /** The file backs a superblock up: its chain is there, and opens to this plaintext. */
  ghost predicate Backs(c: Crypto, d: Disk, sb: Page, plain: Page) {
    exists node, leaf, payload :: Links(c, d, sb, node, leaf, payload, plain)
  }

  ghost predicate Verifies(c: Crypto, d: Disk, copy: Copy) {
    copy.Sb() < |d| && SbValid(c, d[copy.Sb()])
  }

  /** A superblock that verifies and has the greatest generation of those that do. Of two with the
      same generation it is copy A's. */
  ghost predicate Chosen(c: Crypto, d: Disk, copy: Copy) {
    && Verifies(c, d, copy)
    && (Verifies(c, d, copy.Other()) ==>
          if copy == A then Get64(d[B.Sb()], SB_GENERATION) <= Get64(d[A.Sb()], SB_GENERATION)
          else Get64(d[A.Sb()], SB_GENERATION) < Get64(d[B.Sb()], SB_GENERATION))
  }

  /** What a reader is to make of a disk. */
  ghost predicate IsRecovered(c: Crypto, d: Disk, r: Recovered) {
    match r
    case Nothing => !Verifies(c, d, A) && !Verifies(c, d, B)
    case Hybrid => exists copy :: Chosen(c, d, copy) && forall plain :: !Backs(c, d, d[copy.Sb()], plain)
    case Whole(number, content) =>
      exists copy, plain :: Chosen(c, d, copy) && Backs(c, d, d[copy.Sb()], plain)
        && number == Get64(d[copy.Sb()], SB_GENERATION) && content == Shown(plain)
  }

  /** `recover`, reading the file page by page and giving up at the first link that fails. */
  method RecoverFile(c: Crypto, file: array<Page>) returns (r: Recovered)
    ensures IsRecovered(c, file[..], r)
    ensures r == Recover(c, file[..])
  {
    var sb := new Option<Page>[2](_ => None);
    for i := 0 to 2
      invariant forall k :: 0 <= k < i ==>
        sb[k] == if k + 1 < file.Length && SbValid(c, file[k + 1]) then Some(file[k + 1]) else None
    {
      var page := ReadAt(file, 1 + i);
      sb[i] := if page.Some? && SbValid(c, page.value) then page else None;
    }
    var pick;
    if sb[0].Some? && sb[1].Some? {
      pick := if Get64(sb[0].value, SB_GENERATION) >= Get64(sb[1].value, SB_GENERATION) then 0 else 1;
    } else if sb[0].Some? {
      pick := 0;
    } else if sb[1].Some? {
      pick := 1;
    } else {
      r := Nothing;
      RecoverIff(c, file[..], r);
      return;
    }
    ghost var copy := if pick == 0 then A else B;
    assert Chosen(c, file[..], copy) && file[..][copy.Sb()] == sb[pick].value;
    var plain := OpenChain(c, file, sb[pick].value);
    r := if plain.Some? then Whole(Get64(sb[pick].value, SB_GENERATION), Shown(plain.value)) else Hybrid;
    RecoverIff(c, file[..], r);
  }

  /** Node, leaf and payload in turn, each checked before the next is read. */
  method OpenChain(c: Crypto, file: array<Page>, chosen: Page) returns (plain: Option<Page>)
    ensures plain.Some? ==> Backs(c, file[..], chosen, plain.value)
    ensures plain.None? ==> forall p :: !Backs(c, file[..], chosen, p)
  {
    plain := None;
    var node := ReadAt(file, Get64(chosen, SB_NODE));
    if node.None? || NodeMac(c, node.value) != Get(chosen, SB_TREE_ROOT, MAC_SIZE) {
      return;
    }
    var leaf := ReadAt(file, Get64(chosen, SB_LEAF));
    if leaf.None? || LeafMac(c, leaf.value) != Get(node.value, NODE_CHILDREN, MAC_SIZE) {
      return;
    }
    var payloadAt := Get64(chosen, SB_PAYLOAD);
    var payload := ReadAt(file, payloadAt);
    if payload.None? {
      return;
    }
    var entry := EntryOffset(leaf.value, payloadAt);
    if entry.None? {
      return;
    }
    var bytes := OpenPage(c, payload.value, payloadAt, Get(leaf.value, entry.value, ENTRY_SIZE));
    if bytes.None? || |bytes.value| != PAGE {
      return;
    }
    plain := Some(bytes.value);
    assert Links(c, file[..], chosen, node.value, leaf.value, payload.value, plain.value);
  }

  /** A read of one page at a byte offset, which is a product of 64-bit numbers. */
  method ReadAt(file: array<Page>, n: nat) returns (p: Option<Page>)
    ensures p == Read(file[..], n)
  {
    var offset := Wrap64(n * PAGE);
    WrappedOffset(n);
    p := if offset / PAGE < file.Length then Some(file[offset / PAGE]) else None;
  }

  lemma WrappedOffset(n: nat)
    ensures Wrap64(n * PAGE) == n % 0x10_0000_0000_0000 * PAGE
  {
    var k := 0x10_0000_0000_0000;
    assert n * PAGE == n / k * 0x1_0000_0000_0000_0000 + n % k * PAGE;
    Quotient(n * PAGE, n % k * PAGE, n / k, 0x1_0000_0000_0000_0000);
  }

  // The same as a function, for the theorems about runs

  /** Believe a superblock and check whether the file backs it up. */
  function Follow(c: Crypto, d: Disk, sb: Page): (r: Recovered) {
    FollowChain(c, d, Get64(sb, SB_GENERATION), Get64(sb, SB_PAYLOAD), Get64(sb, SB_LEAF), Get64(sb, SB_NODE),
                Get(sb, SB_TREE_ROOT, MAC_SIZE))
  }

  function FollowChain(c: Crypto, d: Disk, number: nat, payloadAt: nat, leafAt: nat, nodeAt: nat, root: seq<byte>)
    : (r: Recovered)
  {
    var node := Read(d, nodeAt);
    if node.None? || NodeMac(c, node.value) != root then Hybrid else
    var leaf := Read(d, leafAt);
    if leaf.None? || LeafMac(c, leaf.value) != Get(node.value, NODE_CHILDREN, MAC_SIZE) then Hybrid else
    var payload := Read(d, payloadAt);
    if payload.None? then Hybrid else
    var off := EntryOffset(leaf.value, payloadAt);
    if off.None? then Hybrid else
    var plain := OpenPage(c, payload.value, payloadAt, Get(leaf.value, off.value, ENTRY_SIZE));
    if plain.None? || |plain.value| != PAGE then Hybrid else
    Whole(number, Shown(plain.value))
  }

  function Believed(c: Crypto, d: Disk, copy: Copy): (sb: Option<Page>) {
    if copy.Sb() < |d| && SbValid(c, d[copy.Sb()]) then Some(d[copy.Sb()]) else None
  }

  function Recover(c: Crypto, d: Disk): (r: Recovered) {
    var a, b := Believed(c, d, A), Believed(c, d, B);
    if a.Some? && b.Some? then
      Follow(c, d, if Get64(a.value, SB_GENERATION) >= Get64(b.value, SB_GENERATION) then a.value else b.value)
    else if a.Some? then Follow(c, d, a.value)
    else if b.Some? then Follow(c, d, b.value)
    else Nothing
  }

  lemma FollowMeans(c: Crypto, d: Disk, sb: Page)
    ensures Follow(c, d, sb) == Hybrid <==> forall plain :: !Backs(c, d, sb, plain)
    ensures forall plain :: Backs(c, d, sb, plain) ==> Follow(c, d, sb) == Whole(Get64(sb, SB_GENERATION), Shown(plain))
    ensures Follow(c, d, sb) != Nothing
  {
    var r := Follow(c, d, sb);
    if r != Hybrid {
      var node, leaf, payload := Read(d, Get64(sb, SB_NODE)).value, Read(d, Get64(sb, SB_LEAF)).value,
        Read(d, Get64(sb, SB_PAYLOAD)).value;
      var entry := Get(leaf, EntryOffset(leaf, Get64(sb, SB_PAYLOAD)).value, ENTRY_SIZE);
      var plain := OpenPage(c, payload, Get64(sb, SB_PAYLOAD), entry).value;
      assert Links(c, d, sb, node, leaf, payload, plain);
      assert Backs(c, d, sb, plain);
    }
  }

  lemma RecoverFollows(c: Crypto, d: Disk, copy: Copy)
    requires Chosen(c, d, copy)
    ensures Recover(c, d) == Follow(c, d, d[copy.Sb()])
  {
  }

  lemma OneChosen(c: Crypto, d: Disk)
    ensures Verifies(c, d, A) || Verifies(c, d, B) <==> exists copy :: Chosen(c, d, copy)
  {
    assert Chosen(c, d, A) || Chosen(c, d, B) || !(Verifies(c, d, A) || Verifies(c, d, B));
  }

  /** There is exactly one thing to make of a disk, and it is what the function gives. */
  lemma RecoverIff(c: Crypto, d: Disk, r: Recovered)
    ensures IsRecovered(c, d, r) <==> r == Recover(c, d)
  {
    OneChosen(c, d);
    if Verifies(c, d, A) || Verifies(c, d, B) {
      var copy :| Chosen(c, d, copy);
      RecoverFollows(c, d, copy);
      FollowMeans(c, d, d[copy.Sb()]);
      assert forall other :: Chosen(c, d, other) ==> other == copy;
    }
  }

  // Generations on a disk

  ghost predicate Placed(g: Generation, copy: Copy) {
    g.payloadAt == copy.Payload() && g.leafAt == copy.Leaf() && g.nodeAt == copy.Node()
  }

  /** What a reader is meant to see of a generation. */
  function Seen(g: Generation): Recovered {
    Whole(g.number, Shown(g.plain))
  }

  lemma ContentSeen(g: Generation, content: seq<byte>)
    requires Carries(g.plain, g.number, content)
    ensures Seen(g).generation == g.number && ShowsContent(Seen(g).content, content)
    ensures |content| <= 63 ==> content <= Seen(g).content
  {
  }

  /** The whole chain of a generation is on the disk. Of the superblock, only the tagged
      bytes and the tag count. */
  ghost predicate Holds(c: Crypto, d: Disk, g: Generation, copy: Copy) {
    && |d| == TOTAL_PAGES && WellBuilt(c, g) && Placed(g, copy)
    && d[copy.Sb()][..112] == g.sb[..112]
    && d[copy.Leaf()] == g.leaf && d[copy.Node()] == g.node && d[copy.Payload()] == g.payload
  }

  /** The current generation: whole, and not outbid by the other superblock. */
  ghost predicate Current(c: Crypto, d: Disk, g: Generation, copy: Copy) {
    && Holds(c, d, g, copy)
    && (SbValid(c, d[copy.Other().Sb()]) ==> Get64(d[copy.Other().Sb()], SB_GENERATION) < g.number)
  }

  /** Everything a reader uses of a superblock lies in its first 112 bytes. */
  lemma SamePrefix(c: Crypto, d: Disk, s: Page, t: Page)
    requires s[..112] == t[..112]
    ensures SbValid(c, s) == SbValid(c, t)
    ensures Get64(s, SB_GENERATION) == Get64(t, SB_GENERATION)
    ensures Follow(c, d, s) == Follow(c, d, t)
  {
    assert s[..96] == s[..112][..96] == t[..96];
    assert s[..4] == s[..112][..4] == t[..4];
    assert s[96..112] == s[..112][96..112] == t[96..112];
    assert s[8..16] == s[..112][8..16] == t[8..16];
    assert s[16..24] == s[..112][16..24] == t[16..24];
    assert s[24..32] == s[..112][24..32] == t[24..32];
    assert s[32..40] == s[..112][32..40] == t[32..40];
    assert s[64..80] == s[..112][64..80] == t[64..80];
  }

  /** What is read under a superblock is the same in any two files that back it up, unless two nodes
      or two leaves have the same MAC, or one entry opens two payloads. */
  lemma OneContent(c: Crypto, d: Disk, e: Disk, sb: Page, node: Page, leaf: Page, payload: Page, plain: Page,
      sb': Page, node': Page, leaf': Page, payload': Page, plain': Page)
    requires Links(c, d, sb, node, leaf, payload, plain) && Links(c, e, sb', node', leaf', payload', plain')
    requires sb[..112] == sb'[..112]
    requires !Collide(c.nodeMac, node[8..4080], node'[8..4080]) && !Collide(c.leafMac, leaf[8..4064], leaf'[8..4064])
    requires forall nonce, aad, tag :: !Forged(c, nonce, aad, tag, payload, payload')
    ensures Follow(c, d, sb) == Follow(c, e, sb') == Whole(Get64(sb, SB_GENERATION), Shown(plain))
  {
    assert sb[16..24] == sb[..112][16..24] == sb'[16..24];
    assert sb[64..80] == sb[..112][64..80] == sb'[64..80];
    OnePlaintext(c, Get(sb, SB_TREE_ROOT, MAC_SIZE), Get64(sb, SB_PAYLOAD), node, leaf, payload, plain,
      node', leaf', payload', plain');
    assert Backs(c, d, sb, plain) && Backs(c, e, sb', plain);
    FollowMeans(c, d, sb);
    FollowMeans(c, e, sb');
    SamePrefix(c, e, sb, sb');
  }

  lemma FollowHeld(c: Crypto, d: Disk, g: Generation, copy: Copy)
    requires Holds(c, d, g, copy)
    ensures SbValid(c, d[copy.Sb()]) && Get64(d[copy.Sb()], SB_GENERATION) == g.number
    ensures Follow(c, d, d[copy.Sb()]) == Seen(g)
  {
    FollowOwn(c, d, g);
    SamePrefix(c, d, d[copy.Sb()], g.sb);
  }

  lemma FollowOwn(c: Crypto, d: Disk, g: Generation)
    requires WellBuilt(c, g) && g.nodeAt < |d| && g.leafAt < |d| && g.payloadAt < |d| && |d| <= TOTAL_PAGES
    requires d[g.nodeAt] == g.node && d[g.leafAt] == g.leaf && d[g.payloadAt] == g.payload
    ensures Follow(c, d, g.sb) == Seen(g)
  {
    FollowPages(c, d, g, Get(g.sb, SB_TREE_ROOT, MAC_SIZE));
  }

  lemma FollowPages(c: Crypto, d: Disk, g: Generation, root: seq<byte>)
    requires g.nodeAt < |d| && g.leafAt < |d| && g.payloadAt < |d| && |d| <= TOTAL_PAGES
    requires d[g.nodeAt] == g.node && d[g.leafAt] == g.leaf && d[g.payloadAt] == g.payload
    requires Chained(c, g) && root == Get(g.sb, SB_TREE_ROOT, MAC_SIZE)
    ensures FollowChain(c, d, g.number, g.payloadAt, g.leafAt, g.nodeAt, root) == Seen(g)
  {
    ReadSmall(d, g.nodeAt);
    ReadSmall(d, g.leafAt);
    ReadSmall(d, g.payloadAt);
  }

  lemma ReadSmall(d: Disk, n: nat)
    requires n < |d| <= TOTAL_PAGES
    ensures Read(d, n) == Some(d[n])
  {
  }

  lemma CurrentIsRecovered(c: Crypto, d: Disk, g: Generation, copy: Copy)
    requires Current(c, d, g, copy)
    ensures Recover(c, d) == Seen(g)
  {
    FollowHeld(c, d, g, copy);
    Bids(c, d, copy);
  }

  /** The reader follows a superblock that verifies and is not outbid by the other. */
  lemma Bids(c: Crypto, d: Disk, copy: Copy)
    requires |d| == TOTAL_PAGES && SbValid(c, d[copy.Sb()])
    requires SbValid(c, d[copy.Other().Sb()]) ==>
      Get64(d[copy.Other().Sb()], SB_GENERATION) < Get64(d[copy.Sb()], SB_GENERATION)
    ensures Recover(c, d) == Follow(c, d, d[copy.Sb()])
  {
    ReadSmall(d, A.Sb());
    ReadSmall(d, B.Sb());
  }

  // A commit

  datatype Write = Write(page: nat, bytes: Page)

  function Apply(d: Disk, ws: seq<Write>): (e: Disk)
    requires forall i :: 0 <= i < |ws| ==> ws[i].page < |d|
    ensures |e| == |d|
  {
    if |ws| == 0 then d else Apply(d, ws[..|ws| - 1])[ws[|ws| - 1].page := ws[|ws| - 1].bytes]
  }

  /** The order Decision 6b gives: evidence, barrier, superblock. */
  function CommitWrites(g: Generation, copy: Copy): (ws: seq<Write>)
    ensures |ws| == 4 && forall i :: 0 <= i < |ws| ==> ws[i].page < TOTAL_PAGES
  {
    [Write(copy.Payload(), g.payload), Write(copy.Leaf(), g.leaf), Write(copy.Node(), g.node), Write(copy.Sb(), g.sb)]
  }

  /** The order of a commit that did not think about ordering. */
  function WrongWrites(g: Generation, copy: Copy): (ws: seq<Write>)
    ensures |ws| == 4 && forall i :: 0 <= i < |ws| ==> ws[i].page < TOTAL_PAGES
  {
    [Write(copy.Sb(), g.sb), Write(copy.Payload(), g.payload), Write(copy.Leaf(), g.leaf), Write(copy.Node(), g.node)]
  }

  /** The writes of either order in sequence, cut short after `prefix` of them. */
  method Interrupted(file: array<Page>, ops: seq<Write>, prefix: nat)
    requires forall i :: 0 <= i < |ops| ==> ops[i].page < file.Length
    requires prefix <= |ops|
    modifies file
    ensures file[..] == Apply(old(file[..]), ops[..prefix])
  {
    for k := 0 to prefix
      invariant file[..] == Apply(old(file[..]), ops[..k])
    {
      assert ops[..k + 1][..k] == ops[..k];
      file[ops[k].page] := ops[k].bytes;
    }
  }

  /** A page some bytes of which are new and some old. */
  ghost predicate Torn(t: Page, old_: Page, new_: Page) {
    forall i :: 0 <= i < PAGE ==> t[i] == old_[i] || t[i] == new_[i]
  }

  /** What is asked of the superblock tag: a mix of two superblocks that verifies is, as far
      as the reader looks, one of the two. */
  ghost predicate TearProof(c: Crypto, old_: Page, new_: Page) {
    forall t: Page :: Torn(t, old_, new_) && SbValid(c, t) ==> t[..112] == new_[..112] || t[..112] == old_[..112]
  }

  /** Every disk a crash during a commit can leave. Before the barrier the three pages of the
      evidence may hold anything at all; after it they are durable, and the superblock page
      is any mix of what it was and what it was to become. */
  ghost predicate DuringCommit(before: Disk, after: Disk, g: Generation, copy: Copy) {
    && |before| == |after| == TOTAL_PAGES
    && (forall p :: 0 <= p < TOTAL_PAGES && p !in {copy.Payload(), copy.Leaf(), copy.Node(), copy.Sb()} ==>
      after[p] == before[p])
    && (|| after[copy.Sb()] == before[copy.Sb()]
        || (after[copy.Payload()] == g.payload && after[copy.Leaf()] == g.leaf && after[copy.Node()] == g.node
            && Torn(after[copy.Sb()], before[copy.Sb()], g.sb)))
  }

  /** A torn superblock write is only survived if the tag exposes it; one that landed whole or
      not at all asks nothing of the tag. */
  ghost predicate TearExposed(c: Crypto, before: Disk, after: Disk, g: Generation, copy: Copy)
    requires |before| == |after| == TOTAL_PAGES
  {
    after[copy.Sb()] == before[copy.Sb()] || after[copy.Sb()] == g.sb || TearProof(c, before[copy.Sb()], g.sb)
  }

  /** A commit of g2 while g is current. */
  ghost predicate MayCommit(c: Crypto, d: Disk, g: Generation, copy: Copy, g2: Generation) {
    Current(c, d, g, copy) && WellBuilt(c, g2) && Placed(g2, copy.Other()) && g.number < g2.number
  }

  /** Whatever a crash leaves, either the old generation is still current or the new one is. */
  lemma CrashSafe(c: Crypto, d: Disk, g: Generation, copy: Copy, g2: Generation, after: Disk)
    requires MayCommit(c, d, g, copy, g2) && DuringCommit(d, after, g2, copy.Other())
    requires TearExposed(c, d, after, g2, copy.Other())
    ensures Current(c, after, g, copy) || Current(c, after, g2, copy.Other())
    ensures Recover(c, after) == Seen(g) || Recover(c, after) == Seen(g2)
  {
    var t := after[copy.Other().Sb()];
    if SbValid(c, t) && t != d[copy.Other().Sb()] {
      if t[..112] == g2.sb[..112] {
        FollowHeld(c, after, g, copy);
        CurrentIsRecovered(c, after, g2, copy.Other());
      } else {
        SamePrefix(c, d, t, d[copy.Other().Sb()]);
        CurrentIsRecovered(c, after, g, copy);
      }
    } else {
      CurrentIsRecovered(c, after, g, copy);
    }
  }

  /** The prefixes of the correct order: the old generation until the last write, then the
      new one. Nothing is assumed of the tag. */
  lemma EveryPrefix(c: Crypto, d: Disk, g: Generation, copy: Copy, g2: Generation, k: nat)
    requires MayCommit(c, d, g, copy, g2) && k <= 4
    ensures k < 4 ==> Current(c, Apply(d, CommitWrites(g2, copy.Other())[..k]), g, copy)
    ensures k < 4 ==> Recover(c, Apply(d, CommitWrites(g2, copy.Other())[..k])) == Seen(g)
    ensures k == 4 ==> Current(c, Apply(d, CommitWrites(g2, copy.Other())[..k]), g2, copy.Other())
    ensures k == 4 ==> Recover(c, Apply(d, CommitWrites(g2, copy.Other())[..k])) == Seen(g2)
  {
    var after := Partial(d, g2, copy.Other(), k);
    PrefixIsPartial(d, g2, copy.Other(), k);
    PartialCurrent(c, d, g, copy, g2, k);
    if k < 4 {
      CurrentIsRecovered(c, after, g, copy);
    } else {
      CurrentIsRecovered(c, after, g2, copy.Other());
    }
  }

  /** The disk after the first k writes of a commit. */
  function Partial(d: Disk, g: Generation, copy: Copy, k: nat): (e: Disk)
    requires |d| == TOTAL_PAGES
    ensures |e| == TOTAL_PAGES
  {
    var e1 := if k >= 1 then d[copy.Payload() := g.payload] else d;
    var e2 := if k >= 2 then e1[copy.Leaf() := g.leaf] else e1;
    var e3 := if k >= 3 then e2[copy.Node() := g.node] else e2;
    if k >= 4 then e3[copy.Sb() := g.sb] else e3
  }

  lemma PrefixIsPartial(d: Disk, g: Generation, copy: Copy, k: nat)
    requires |d| == TOTAL_PAGES && k <= 4
    ensures Apply(d, CommitWrites(g, copy)[..k]) == Partial(d, g, copy, k)
  {
    var ws := CommitWrites(g, copy);
    if k != 0 {
      assert ws[..k][..k - 1] == ws[..k - 1];
      PrefixIsPartial(d, g, copy, k - 1);
    }
  }

  lemma PartialCurrent(c: Crypto, d: Disk, g: Generation, copy: Copy, g2: Generation, k: nat)
    requires MayCommit(c, d, g, copy, g2) && k <= 4
    ensures if k < 4 then Current(c, Partial(d, g2, copy.Other(), k), g, copy)
            else Current(c, Partial(d, g2, copy.Other(), k), g2, copy.Other())
  {
    var after := Partial(d, g2, copy.Other(), k);
    PartialPages(d, g2, copy.Other(), k);
    if k == 4 {
      FollowHeld(c, d, g, copy);
      assert Holds(c, after, g2, copy.Other());
    } else {
      assert Holds(c, after, g, copy);
    }
  }

  lemma PartialPages(d: Disk, g: Generation, copy: Copy, k: nat)
    requires |d| == TOTAL_PAGES && k <= 4
    ensures forall p :: 0 <= p < TOTAL_PAGES && p !in {copy.Payload(), copy.Leaf(), copy.Node(), copy.Sb()} ==>
      Partial(d, g, copy, k)[p] == d[p]
    ensures Partial(d, g, copy, k)[copy.Sb()] == if k < 4 then d[copy.Sb()] else g.sb
    ensures k >= 3 ==> Partial(d, g, copy, k)[copy.Node()] == g.node
    ensures k >= 3 ==> Partial(d, g, copy, k)[copy.Leaf()] == g.leaf
    ensures k >= 3 ==> Partial(d, g, copy, k)[copy.Payload()] == g.payload
  {
  }

  /** The commit touches no page that the generation it supersedes names. */
  lemma CommitSparesCurrent(g: Generation, copy: Copy, g2: Generation)
    requires Placed(g, copy)
    ensures forall i :: 0 <= i < 4 ==>
      CommitWrites(g2, copy.Other())[i].page !in {g.payloadAt, g.leafAt, g.nodeAt, copy.Sb()}
  {
  }

  /** With the superblock ahead of its evidence, every interruption short of the last write
      publishes a generation the file does not back up. */
  lemma WrongOrderIsHybrid(c: Crypto, d: Disk, g: Generation, copy: Copy, g2: Generation, k: nat)
    requires MayCommit(c, d, g, copy, g2) && 1 <= k <= 3
    requires NodeMac(c, d[copy.Other().Node()]) != NodeMac(c, g2.node)
    ensures Recover(c, Apply(d, WrongWrites(g2, copy.Other())[..k])) == Hybrid
  {
    WrongPages(d, g2, copy.Other(), k);
    FollowHeld(c, d, g, copy);
    Unbacked(c, Apply(d, WrongWrites(g2, copy.Other())[..k]), d[copy.Sb()], copy, g2);
  }

  lemma Unbacked(c: Crypto, d: Disk, loser: Page, copy: Copy, g: Generation)
    requires |d| == TOTAL_PAGES && WellBuilt(c, g) && g.nodeAt == copy.Other().Node()
    requires d[copy.Sb()] == loser && Get64(loser, SB_GENERATION) < g.number
    requires d[copy.Other().Sb()] == g.sb && NodeMac(c, d[g.nodeAt]) != NodeMac(c, g.node)
    ensures Recover(c, d) == Hybrid
  {
    ReadSmall(d, g.nodeAt);
    assert Follow(c, d, g.sb) == Hybrid;
  }

  lemma WrongPages(d: Disk, g: Generation, copy: Copy, k: nat)
    requires |d| == TOTAL_PAGES && 1 <= k <= 3
    ensures Apply(d, WrongWrites(g, copy)[..k])[copy.Sb()] == g.sb
    ensures Apply(d, WrongWrites(g, copy)[..k])[copy.Node()] == d[copy.Node()]
    ensures Apply(d, WrongWrites(g, copy)[..k])[copy.Other().Sb()] == d[copy.Other().Sb()]
  {
    var ws := WrongWrites(g, copy);
    assert ws[..k][..k - 1] == ws[..k - 1];
    if k == 1 {
      assert Apply(d, ws[..0]) == d;
    } else {
      WrongPages(d, g, copy, k - 1);
    }
  }

  /** After a completed commit, any page in place of the new superblock that agrees with it in
      the tagged bytes publishes the new generation, and any page that does not verify gives
      back exactly the generation before it. */
  lemma SuperblockReplaced(c: Crypto, d: Disk, g: Generation, copy: Copy, g2: Generation, page: Page)
    requires MayCommit(c, d, g, copy, g2)
    ensures page[..112] == g2.sb[..112] ==> Recover(c, Published(d, g2, copy.Other(), page)) == Seen(g2)
    ensures !SbValid(c, page) ==> Recover(c, Published(d, g2, copy.Other(), page)) == Seen(g)
  {
    var after := Published(d, g2, copy.Other(), page);
    PrefixIsPartial(d, g2, copy.Other(), 4);
    assert CommitWrites(g2, copy.Other())[..4] == CommitWrites(g2, copy.Other());
    PartialPages(d, g2, copy.Other(), 4);
    assert Holds(c, after, g, copy);
    FollowHeld(c, after, g, copy);
    if page[..112] == g2.sb[..112] {
      assert Holds(c, after, g2, copy.Other());
      CurrentIsRecovered(c, after, g2, copy.Other());
    }
    if !SbValid(c, page) {
      CurrentIsRecovered(c, after, g, copy);
    }
  }

  /** A completed commit with some page where its superblock was. */
  function Published(d: Disk, g: Generation, copy: Copy, page: Page): (e: Disk)
    requires |d| == TOTAL_PAGES
  {
    Apply(d, CommitWrites(g, copy))[copy.Sb() := page]
  }

  /** No byte of a superblock beyond the tag has any influence. */
  lemma OnlyTaggedBytesMatter(c: Crypto, d: Disk, e: Disk)
    requires |d| == |e| == TOTAL_PAGES
    requires forall p :: 0 <= p < TOTAL_PAGES && p != A.Sb() && p != B.Sb() ==> d[p] == e[p]
    requires d[A.Sb()][..112] == e[A.Sb()][..112] && d[B.Sb()][..112] == e[B.Sb()][..112]
    requires forall copy :: Chosen(c, d, copy) ==> NamesNoSuperblock(d[copy.Sb()])
    ensures Recover(c, d) == Recover(c, e)
  {
    SamePrefix(c, e, d[A.Sb()], e[A.Sb()]);
    SamePrefix(c, e, d[B.Sb()], e[B.Sb()]);
    OneChosen(c, d);
    if Verifies(c, d, A) || Verifies(c, d, B) {
      var copy :| Chosen(c, d, copy);
      assert Chosen(c, e, copy);
      RecoverFollows(c, d, copy);
      RecoverFollows(c, e, copy);
      SameFollow(c, d, e, d[copy.Sb()]);
    }
  }

  /** A superblock that names its own page as the leaf: a byte behind the tag decides whether the
      MAC of that leaf is right. */
  lemma SelfNamedExample() returns (c: Crypto, d: Disk, e: Disk)
    ensures |d| == |e| == TOTAL_PAGES && e == d[A.Sb() := e[A.Sb()]] && d[A.Sb()][..112] == e[A.Sb()][..112]
    ensures Recover(c, d).Whole? && Recover(c, e) == Hybrid
  {
    var zero: Page := seq(PAGE, i => 0);
    var zeros, ones: seq<byte> := seq(MAC_SIZE, i => 0), seq(MAC_SIZE, i => 1);
    c := Trivial().(leafMac := (m: seq<byte>) => if |m| > 200 && m[200] == 1 then ones else zeros);
    var sb := Naming(zeros, 7, A.Sb(), 5);
    var other := sb[208 := 1];
    d := seq(TOTAL_PAGES, i => if i == A.Sb() then sb else zero);
    e := d[A.Sb() := other];
    ByteBehind(sb, other);
    assert ones[0] != zeros[0];
    assert zero[64..80] == zeros && zero[..4][0] != SB_MAGIC[0];
    SelfFollowed(c, d, sb, zero, zeros);
    SelfFollowed(c, e, other, zero, zeros);
  }

  lemma ByteBehind(sb: Page, other: Page)
    requires sb[208] == 0 && other == sb[208 := 1]
    ensures other[..112] == sb[..112] && sb[8..4064][200] == 0 && other[8..4064][200] == 1
    ensures other[..4] == sb[..4] && other[..96] == sb[..96] && other[96..112] == sb[96..112]
    ensures forall off, len :: off + len <= 112 ==> Get(other, off, len) == Get(sb, off, len)
  {
    forall off: nat, len: nat | off + len <= 112 ensures Get(other, off, len) == Get(sb, off, len) {
      assert other[off..off + len] == sb[off..off + len];
    }
  }

  /** What becomes of such a superblock hangs on the MAC of its own page. */
  lemma SelfFollowed(c: Crypto, d: Disk, sb: Page, zero: Page, zeros: seq<byte>)
    requires |d| == TOTAL_PAGES && d[A.Sb()] == sb && d[B.Sb()] == d[5] == d[7] == zero
    requires SbValid(c, sb) && !SbValid(c, zero)
    requires Get64(sb, SB_PAYLOAD) == 7 && Get64(sb, SB_LEAF) == A.Sb() && Get64(sb, SB_NODE) == 5
    requires NodeMac(c, zero) == zeros == Get(sb, SB_TREE_ROOT, MAC_SIZE) == Get(zero, NODE_CHILDREN, MAC_SIZE)
    requires forall entry: seq<byte> :: |entry| == ENTRY_SIZE ==> OpenPage(c, zero, 7, entry) == Some(zero)
    ensures if LeafMac(c, sb) == zeros then Recover(c, d).Whole? else Recover(c, d) == Hybrid
  {
    assert Chosen(c, d, A);
    RecoverFollows(c, d, A);
    ReadSmall(d, 5);
    ReadSmall(d, A.Sb());
    ReadSmall(d, 7);
  }

  lemma Naming(zeros: seq<byte>, payloadAt: u64, leafAt: u64, nodeAt: u64) returns (sb: Page)
    requires zeros == seq(16, i => 0)
    ensures sb[..4] == SB_MAGIC && sb[64..80] == zeros && sb[96..112] == zeros && sb[208] == 0
    ensures Get64(sb, SB_PAYLOAD) == payloadAt && Get64(sb, SB_LEAF) == leafAt && Get64(sb, SB_NODE) == nodeAt
  {
    var x, y, z := ToBytes(payloadAt, 8), ToBytes(leafAt, 8), ToBytes(nodeAt, 8);
    sb := SB_MAGIC + zeros[..12] + x + y + z + seq(PAGE - 40, i => 0);
    assert sb[16..24] == x && sb[24..32] == y && sb[32..40] == z;
    Number64(payloadAt);
    Number64(leafAt);
    Number64(nodeAt);
  }

  /** The pages a superblock points at are not the superblock pages themselves. */
  ghost predicate NamesNoSuperblock(sb: Page) {
    forall off :: off in {SB_PAYLOAD, SB_LEAF, SB_NODE} ==>
      Get64(sb, off) % 0x10_0000_0000_0000 !in {A.Sb(), B.Sb()}
  }

  lemma SameFollow(c: Crypto, d: Disk, e: Disk, sb: Page)
    requires |d| == |e| == TOTAL_PAGES && NamesNoSuperblock(sb)
    requires forall p :: 0 <= p < TOTAL_PAGES && p != A.Sb() && p != B.Sb() ==> d[p] == e[p]
    ensures Follow(c, d, sb) == Follow(c, e, sb)
  {
    assert SB_PAYLOAD in {SB_PAYLOAD, SB_LEAF, SB_NODE} && SB_LEAF in {SB_PAYLOAD, SB_LEAF, SB_NODE}
        && SB_NODE in {SB_PAYLOAD, SB_LEAF, SB_NODE};
    assert Read(d, Get64(sb, SB_PAYLOAD)) == Read(e, Get64(sb, SB_PAYLOAD));
    assert Read(d, Get64(sb, SB_LEAF)) == Read(e, Get64(sb, SB_LEAF));
    assert Read(d, Get64(sb, SB_NODE)) == Read(e, Get64(sb, SB_NODE));
  }

  // Runs

  /** One commit attempt and the disk it left, whether it completed or a crash cut it short. */
  datatype Attempt = Attempt(gen: Generation, disk: Disk)

  ghost predicate Attempted(c: Crypto, d: Disk, g: Generation, copy: Copy, a: Attempt) {
    && MayCommit(c, d, g, copy, a.gen) && DuringCommit(d, a.disk, a.gen, copy.Other())
    && TearExposed(c, d, a.disk, a.gen, copy.Other())
  }

  /** A writer that reopens the file after each attempt, and goes on from what it recovers. */
  ghost predicate Run(c: Crypto, d: Disk, g: Generation, copy: Copy, run: seq<Attempt>)
    decreases |run|
  {
    |run| == 0
    || (Attempted(c, d, g, copy, run[0])
        && if Recover(c, run[0].disk) == Seen(run[0].gen)
           then Run(c, run[0].disk, run[0].gen, copy.Other(), run[1..])
           else Run(c, run[0].disk, g, copy, run[1..]))
  }

  /** After every attempt of the run a reader sees the generation that was current before it,
      or the new one, each with its own payload. */
  ghost predicate AlwaysWhole(c: Crypto, g: Generation, run: seq<Attempt>)
    decreases |run|
  {
    |run| == 0
    || (if Recover(c, run[0].disk) == Seen(run[0].gen) then AlwaysWhole(c, run[0].gen, run[1..])
        else Recover(c, run[0].disk) == Seen(g) && AlwaysWhole(c, g, run[1..]))
  }

  lemma {:induction false} RunsAreSafe(c: Crypto, d: Disk, g: Generation, copy: Copy, run: seq<Attempt>)
    requires Current(c, d, g, copy) && Run(c, d, g, copy, run)
    ensures AlwaysWhole(c, g, run)
    decreases |run|
  {
    if |run| != 0 {
      CrashSafe(c, d, g, copy, run[0].gen, run[0].disk);
      OneCurrent(c, d, g, copy, run[0]);
      if Recover(c, run[0].disk) == Seen(run[0].gen) {
        RunsAreSafe(c, run[0].disk, run[0].gen, copy.Other(), run[1..]);
      } else {
        RunsAreSafe(c, run[0].disk, g, copy, run[1..]);
      }
    }
  }

  /** Where a run ends: the disk, the generation that is current, and its copy. */
  ghost function End(c: Crypto, d: Disk, g: Generation, copy: Copy, run: seq<Attempt>): (Disk, Generation, Copy)
    decreases |run|
  {
    if |run| == 0 then (d, g, copy)
    else if Recover(c, run[0].disk) == Seen(run[0].gen) then End(c, run[0].disk, run[0].gen, copy.Other(), run[1..])
    else End(c, run[0].disk, g, copy, run[1..])
  }

  lemma {:induction false} RunEndsCurrent(c: Crypto, d: Disk, g: Generation, copy: Copy, run: seq<Attempt>)
    requires Current(c, d, g, copy) && Run(c, d, g, copy, run)
    ensures Current(c, End(c, d, g, copy, run).0, End(c, d, g, copy, run).1, End(c, d, g, copy, run).2)
    decreases |run|
  {
    if |run| != 0 {
      OneCurrent(c, d, g, copy, run[0]);
      if Recover(c, run[0].disk) == Seen(run[0].gen) {
        RunEndsCurrent(c, run[0].disk, run[0].gen, copy.Other(), run[1..]);
      } else {
        RunEndsCurrent(c, run[0].disk, g, copy, run[1..]);
      }
    }
  }

  /** After any run and one more completed commit, destroying the newest superblock gives back
      exactly the generation that was current before that commit, whole. */
  lemma RollBack(c: Crypto, d: Disk, g: Generation, copy: Copy, run: seq<Attempt>, next: Generation, rubble: Page)
    requires Current(c, d, g, copy) && Run(c, d, g, copy, run) && !SbValid(c, rubble) && WellBuilt(c, next)
    requires Placed(next, End(c, d, g, copy, run).2.Other()) && End(c, d, g, copy, run).1.number < next.number
    ensures |End(c, d, g, copy, run).0| == TOTAL_PAGES
    ensures Recover(c, Published(End(c, d, g, copy, run).0, next, End(c, d, g, copy, run).2.Other(), rubble))
      == Seen(End(c, d, g, copy, run).1)
  {
    RunEndsCurrent(c, d, g, copy, run);
    var (e, last, at) := End(c, d, g, copy, run);
    SuperblockReplaced(c, e, last, at, next, rubble);
  }

  /** What the reader sees tells which generation is current. */
  lemma OneCurrent(c: Crypto, d: Disk, g: Generation, copy: Copy, a: Attempt)
    requires Attempted(c, d, g, copy, a)
    ensures Recover(c, a.disk) == Seen(a.gen) ==> Current(c, a.disk, a.gen, copy.Other())
    ensures Recover(c, a.disk) != Seen(a.gen) ==> Current(c, a.disk, g, copy)
  {
    CrashSafe(c, d, g, copy, a.gen, a.disk);
    if Current(c, a.disk, g, copy) {
      CurrentIsRecovered(c, a.disk, g, copy);
    } else {
      CurrentIsRecovered(c, a.disk, a.gen, copy.Other());
    }
  }

  /** For a `long` of 32 or of 64 bits, the code is the generation, and not 0 or -1, exactly for
      the generations that are positive numbers of that type. */
  lemma WholeCode(g: Generation, half: nat)
    requires half == 0x8000_0000 || half == 0x8000_0000_0000_0000
    ensures Seen(g).Code(half) == g.number > 0 <==> 0 < g.number < half
  {
    var n := g.number;
    assert n % (2 * half) <= n;
    if n < half {
      Quotient(n, n, 0, 2 * half);
    }
  }

  /** `write_starting_file`: the first generation in copy A, everything else zero. */
  method StartingFile(c: Crypto, header: Page, g: Generation) returns (file: array<Page>)
    requires WellBuilt(c, g) && Placed(g, A)
    ensures file.Length == TOTAL_PAGES && fresh(file)
    ensures Current(c, file[..], g, A) && Recover(c, file[..]) == Seen(g)
  {
    var zero: Page := seq(PAGE, i => 0);
    file := new Page[TOTAL_PAGES](_ => zero);
    file[0] := header;
    file[A.Payload()] := g.payload;
    file[A.Leaf()] := g.leaf;
    file[A.Node()] := g.node;
    file[A.Sb()] := g.sb;
    assert file[B.Sb()][0] == 0 && SB_MAGIC[0] != 0;
    assert file[B.Sb()][..4][0] == 0;
    CurrentIsRecovered(c, file[..], g, A);
  }

  /** Two generations from the first byte to what is read back: the file is started with one in
      copy A, the commit of the next to copy B is cut short after some of its writes, and the
      reader sees the first until the last write and the second after it. */
  method CutShort(c: Crypto, header: Page, number: u64, first: seq<byte>, nonce: seq<byte>,
                  number2: u64, second: seq<byte>, nonce2: seq<byte>, prefix: nat, half: nat) returns (r: Recovered)
    requires |first| < PAGE && |second| < PAGE && |nonce| == |nonce2| == 23 && prefix <= 4
    requires 0 < number < number2 < half && (half == 0x8000_0000 || half == 0x8000_0000_0000_0000)
    ensures r.Whole? && r.generation == r.Code(half) == if prefix < 4 then number else number2
    ensures ShowsContent(r.content, if prefix < 4 then first else second)
  {
    var g := BuildGeneration(c, number, A.Payload(), A.Leaf(), A.Node(), first, nonce, true);
    var g2 := BuildGeneration(c, number2, B.Payload(), B.Leaf(), B.Node(), second, nonce2, true);
    r := CutShortAfter(c, header, g, g2, prefix);
    WholeCode(if prefix < 4 then g else g2, half);
    ContentSeen(if prefix < 4 then g else g2, if prefix < 4 then first else second);
  }

  method CutShortAfter(c: Crypto, header: Page, g: Generation, g2: Generation, prefix: nat) returns (r: Recovered)
    requires WellBuilt(c, g) && WellBuilt(c, g2) && Placed(g, A) && Placed(g2, B) && g.number < g2.number && prefix <= 4
    ensures r == if prefix < 4 then Seen(g) else Seen(g2)
  {
    var file := StartingFile(c, header, g);
    EveryPrefix(c, file[..], g, A, g2, prefix);
    Interrupted(file, CommitWrites(g2, B), prefix);
    r := RecoverFile(c, file);
  }

  /** The assumption about tears can be met: a tag none of whose bytes is zero, and which only the
      new superblock has, over a page of zeros. */
  lemma TearProofWitness() returns (c: Crypto, old_: Page, new_: Page)
    ensures SbValid(c, new_) && TearProof(c, old_, new_) && old_[..112] != new_[..112]
  {
    var head := SB_MAGIC + seq(92, i => 0 as byte);
    var tag, other: seq<byte> := seq(MAC_SIZE, i => 1), seq(MAC_SIZE, i => 2);
    old_, new_ := seq(PAGE, i => 0), head + tag + seq(PAGE - 112, i => 0);
    c := Trivial().(sbMac := (m: seq<byte>) => if m == head then tag else other);
    assert new_[..96] == head && new_[96..112] == tag && new_[..4] == SB_MAGIC;
    assert old_[..112][0] == 0 && new_[..112][0] == SB_MAGIC[0];
    forall t: Page | Torn(t, old_, new_) && SbValid(c, t)
      ensures t[..112] == new_[..112]
    {
      assert t[96..112][0] == t[96] <= 1;
      assert t[..96] == head;
      assert t[..112] == t[..96] + t[96..112] && new_[..112] == new_[..96] + new_[96..112];
    }
  }
}
