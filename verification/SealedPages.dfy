/**
 The pages of an encrypted generation: a payload sealed under an entry of a leaf, the leaf
 vouched for by a node, the node by a superblock, the superblock by its own tag. The MACs
 and the AEAD are parameters; all that is assumed of them is that what is sealed opens.
 */
module SealedPages {
  import opened Bits
  import opened Endian
  import opened Wrappers

  const PAGE: nat := 4096
  const MAC_SIZE: nat := 16

  type Page = p: seq<byte> | |p| == PAGE witness seq(4096, i => 0)

  // Fields of a page

  function Get(p: Page, off: nat, len: nat): (bs: seq<byte>)
    requires off + len <= PAGE
    ensures |bs| == len
  {
    p[off..off + len]
  }

  function Put(p: Page, off: nat, bs: seq<byte>): (q: Page)
    requires off + |bs| <= PAGE
  {
    p[..off] + bs + p[off + |bs|..]
  }

  function Get64(p: Page, off: nat): (n: nat)
    requires off + 8 <= PAGE
  {
    LittleEndian(Get(p, off, 8))
  }

  lemma GetPut(p: Page, off: nat, bs: seq<byte>, at: nat, len: nat)
    requires off + |bs| <= PAGE && at + len <= PAGE
    ensures at == off && len == |bs| ==> Get(Put(p, off, bs), at, len) == bs
    ensures at + len <= off || off + |bs| <= at ==> Get(Put(p, off, bs), at, len) == Get(p, at, len)
  {
    var q := Put(p, off, bs);
    PutAt(p, off, bs);
    if at == off && len == |bs| {
      assert q[at..at + len] == bs;
    }
    if at + len <= off || off + |bs| <= at {
      assert forall i :: at <= i < at + len ==> q[i] == p[i];
      assert q[at..at + len] == p[at..at + len];
    }
  }

  lemma PutAt(p: Page, off: nat, bs: seq<byte>)
    requires off + |bs| <= PAGE
    ensures forall i :: 0 <= i < PAGE ==> Put(p, off, bs)[i] == if off <= i < off + |bs| then bs[i - off] else p[i]
  {
  }

  // Primitives

  datatype Primitives = Primitives(
    sbMac: seq<byte> -> seq<byte>,
    nodeMac: seq<byte> -> seq<byte>,
    leafMac: seq<byte> -> seq<byte>,
    aeadSeal: (seq<byte>, seq<byte>, seq<byte>) -> (seq<byte>, seq<byte>),
    aeadOpen: (seq<byte>, seq<byte>, seq<byte>, seq<byte>) -> Option<seq<byte>>,
    crc: seq<byte> -> seq<byte>,
    uuid: seq<byte>)

  ghost predicate Lawful(c: Primitives) {
    && (forall m :: |c.sbMac(m)| == MAC_SIZE)
    && (forall m :: |c.nodeMac(m)| == MAC_SIZE)
    && (forall m :: |c.leafMac(m)| == MAC_SIZE)
    && (forall m :: |c.crc(m)| == 4)
    && (forall n, a, p :: |p| == PAGE ==>
      && |c.aeadSeal(n, a, p).0| == PAGE && |c.aeadSeal(n, a, p).1| == MAC_SIZE
      && c.aeadOpen(n, a, c.aeadSeal(n, a, p).0, c.aeadSeal(n, a, p).1) == Some(p))
  }

  ghost function Trivial(): (c: Primitives)
    ensures Lawful(c)
  {
    var zeros: seq<byte> := seq(MAC_SIZE, i => 0);
    Primitives(m => zeros, m => zeros, m => zeros, (n, a, p) => (p, zeros), (n, a, p, t) => Some(p), m => [0, 0, 0, 0],
      [])
  }

  type Crypto = c: Primitives | Lawful(c) ghost witness Trivial()

  // Superblock fields

  const SB_MAGIC: seq<byte> := [0x45, 0x51, 0x53, 0x42]
  const SB_GENERATION: nat := 8
  const SB_PAYLOAD: nat := 16
  const SB_LEAF: nat := 24
  const SB_NODE: nat := 32
  const SB_TREE_ROOT: nat := 64
  const SB_TAG: nat := 96
  const EPOCH: nat := 1

  /** A superblock a reader believes: the magic, and the tag over the first 96 bytes. */
  predicate SbValid(c: Crypto, sb: Page) {
    sb[..4] == SB_MAGIC && Get(sb, SB_TAG, MAC_SIZE) == c.sbMac(sb[..SB_TAG])
  }

  // The seal directory

  const LEAF_FIRST_PAGE: nat := 16
  const LEAF_ENTRIES: nat := 64
  const ENTRY_SIZE: nat := 48
  const ENTRIES_PER_LEAF: nat := 83
  const NODE_CHILDREN: nat := 64

  function LeafMac(c: Primitives, leaf: Page): (mac: seq<byte>) {
    c.leafMac(leaf[8..4064])
  }

  function NodeMac(c: Primitives, node: Page): (mac: seq<byte>) {
    c.nodeMac(node[8..4080])
  }

  /** `cyboudb_seal_entry`: where a leaf keeps the entry of a page, if it covers it. */
  function EntryOffset(leaf: Page, pageNo: nat): (off: Option<nat>)
    ensures off.Some? ==> off.value + ENTRY_SIZE <= 4064
  {
    var first := Get64(leaf, LEAF_FIRST_PAGE);
    if pageNo < first || pageNo - first >= ENTRIES_PER_LEAF then None
    else Some(LEAF_ENTRIES + ENTRY_SIZE * (pageNo - first))
  }

  /** The associated data: database, page number, generation, type and epoch. */
  function Aad(c: Primitives, pageNo: nat, entry: seq<byte>): (aad: seq<byte>)
    requires |entry| == ENTRY_SIZE
  {
    c.uuid + ToBytes(pageNo, 8) + entry[40..48] + ToBytes(entry[23], 8) + ToBytes(EPOCH, 8)
  }

  /** `cyboudb_page_open`: the generation and the type come out of the entry. */
  function OpenPage(c: Primitives, page: Page, pageNo: nat, entry: seq<byte>): (plain: Option<seq<byte>>)
    requires |entry| == ENTRY_SIZE
  {
    c.aeadOpen(entry[..24], Aad(c, pageNo, entry), page, entry[24..40])
  }

  // A generation

  datatype Generation = Generation(number: nat, payloadAt: nat, leafAt: nat, nodeAt: nat,
                                   plain: Page, payload: Page, leaf: Page, node: Page, sb: Page)

  /** The superblock publishes the generation's number and where its pages are. */
  ghost predicate Names(sb: Page, g: Generation) {
    && Get64(sb, SB_GENERATION) == g.number
    && Get64(sb, SB_PAYLOAD) == g.payloadAt && Get64(sb, SB_LEAF) == g.leafAt && Get64(sb, SB_NODE) == g.nodeAt
  }

  /** The chain from the superblock to the payload. */
  ghost predicate Chained(c: Crypto, g: Generation) {
    && NodeMac(c, g.node) == Get(g.sb, SB_TREE_ROOT, MAC_SIZE)
    && LeafMac(c, g.leaf) == Get(g.node, NODE_CHILDREN, MAC_SIZE)
    && EntryOffset(g.leaf, g.payloadAt).Some?
    && OpenPage(c, g.payload, g.payloadAt, Get(g.leaf, EntryOffset(g.leaf, g.payloadAt).value, ENTRY_SIZE))
      == Some(g.plain)
  }

  ghost predicate WellBuilt(c: Crypto, g: Generation) {
    SbValid(c, g.sb) && Names(g.sb, g) && Chained(c, g)
  }

  const LEAF_MAGIC: seq<byte> := [0x41, 0x53, 0x51, 0x4C]
  const NODE_MAGIC: seq<byte> := [0x41, 0x53, 0x51, 0x4E]

  /** The plaintext: the content with zeros behind it, and from byte 256 on a pattern, over whatever
      of the content reached that far. */
  ghost predicate Carries(plain: Page, number: nat, content: seq<byte>) {
    && (forall i :: 0 <= i < |content| && i < 256 ==> plain[i] == content[i])
    && (forall i :: |content| <= i < 256 ==> plain[i] == 0)
    && (forall i :: 256 <= i < PAGE ==> plain[i] == (i + number) % 0x100)
  }

  method FillPayload(number: u64, content: seq<byte>) returns (plain: Page)
    requires |content| < PAGE
    ensures Carries(plain, number, content)
  {
    var payload := new byte[PAGE](_ => 0);
    for i := 0 to |content|
      invariant forall k :: 0 <= k < PAGE ==> payload[k] == if k < i then content[k] else 0
    {
      payload[i] := content[i];
    }
    for i := 256 to PAGE
      invariant forall k :: 256 <= k < i ==> payload[k] == (k + number) % 0x100
      invariant forall k :: 0 <= k < 256 ==> payload[k] == if k < |content| then content[k] else 0
    {
      payload[i] := Wrap64(i + number) % 0x100;
      WrappedByte(i + number);
    }
    plain := payload[..];
  }

  lemma WrappedByte(n: nat)
    ensures Wrap64(n) % 0x100 == n % 0x100
  {
  }

  /** The header the leaf and the node of a directory share. */
  function Header(magic: seq<byte>, third: nat, number: u64): (h: seq<byte>)
    requires |magic| == 4
    ensures |h| == 40
  {
    magic + ToBytes(1, 4) + ToBytes(0, 8) + ToBytes(third, 8) + ToBytes(number, 8) + ToBytes(EPOCH, 8)
  }

  method InitPage(magic: seq<byte>, third: nat, number: u64) returns (p: Page)
    requires |magic| == 4
    ensures p[..40] == Header(magic, third, number)
    ensures Get(p, 16, 8) == ToBytes(third, 8)
  {
    p := Assemble(magic, ToBytes(1, 4), ToBytes(0, 8), ToBytes(third, 8), ToBytes(number, 8), ToBytes(EPOCH, 8));
  }

  method Assemble(magic: seq<byte>, version: seq<byte>, zero: seq<byte>, third: seq<byte>, number: seq<byte>,
      epoch: seq<byte>)
    returns (p: Page)
    requires |magic| == |version| == 4 && |zero| == |third| == |number| == |epoch| == 8
    ensures p[..40] == magic + version + zero + third + number + epoch && p[16..24] == third
  {
    var blank := seq(PAGE - 40, i => 0 as byte);
    p := magic + version + zero + third + number + epoch + blank;
    Between(magic + version + zero, third, number + epoch + blank, p);
    Between([], magic + version + zero + third + number + epoch, blank, p);
  }

  lemma Between(front: seq<byte>, middle: seq<byte>, back: seq<byte>, p: seq<byte>)
    requires p == front + middle + back
    ensures p[|front|..|front| + |middle|] == middle
  {
  }

  lemma PutKeeps(p: Page, off: nat, bs: seq<byte>, n: nat)
    requires n <= off && off + |bs| <= PAGE
    ensures Put(p, off, bs)[..n] == p[..n]
  {
  }

  /** A page of the directory carries its own checksum in the last four bytes. */
  ghost predicate Checked(c: Primitives, p: Page) {
    Get(p, 4092, 4) == c.crc(p[..4092])
  }

  method PutChecksum(c: Crypto, p: Page) returns (q: Page)
    ensures Checked(c, q) && q[..4092] == p[..4092]
  {
    var crc := c.crc(p[..4092]);
    GetPut(p, 4092, crc, 4092, 4);
    PutKeeps(p, 4092, crc, 4092);
    q := Put(p, 4092, crc);
  }

  lemma SameField(p: Page, q: Page, off: nat, len: nat)
    requires off + len <= 4092 && p[..4092] == q[..4092]
    ensures Get(p, off, len) == Get(q, off, len)
  {
    Inside(p, 4092, off, off + len);
    Inside(q, 4092, off, off + len);
  }

  lemma Inside(p: seq<byte>, n: nat, lo: nat, hi: nat)
    requires lo <= hi <= n <= |p|
    ensures p[lo..hi] == p[..n][lo..hi]
  {
  }

  /** `cyboudb_page_seal`: the entry holds the nonce, whose last byte is the page type, the
      tag, and the generation. Without randomness the page stays as it was. */
  method SealPage(c: Crypto, number: u64, pageNo: u64, plain: Page, nonce: seq<byte>, drawn: bool)
    returns (ok: bool, payload: Page, entry: seq<byte>)
    requires |nonce| == 23
    ensures |entry| == ENTRY_SIZE && ok == drawn
    ensures ok ==> OpenPage(c, payload, pageNo, entry) == Some(plain)
    ensures !ok ==> payload == plain
  {
    if !drawn {
      return false, plain, nonce + seq(ENTRY_SIZE - 23, i => 0);
    }
    var full := nonce + [1];
    var aad := c.uuid + ToBytes(pageNo, 8) + ToBytes(number, 8) + ToBytes(1, 8) + ToBytes(EPOCH, 8);
    var sealed := c.aeadSeal(full, aad, plain);
    ok, payload := true, sealed.0;
    entry := full + sealed.1 + ToBytes(number, 8);
    assert entry[..24] == full && entry[24..40] == sealed.1 && entry[40..48] == ToBytes(number, 8) && entry[23] == 1;
    assert Aad(c, pageNo, entry) == aad;
  }

  /** Seal the payload into its entry of a new leaf. */
  method BuildLeaf(c: Crypto, number: u64, pageNo: u64, plain: Page, nonce: seq<byte>, drawn: bool)
    returns (leaf: Page, payload: Page)
    requires pageNo < ENTRIES_PER_LEAF && |nonce| == 23
    ensures leaf[..40] == Header(LEAF_MAGIC, 0, number) && Checked(c, leaf)
    ensures EntryOffset(leaf, pageNo).Some?
    ensures drawn ==>
      OpenPage(c, payload, pageNo, Get(leaf, EntryOffset(leaf, pageNo).value, ENTRY_SIZE)) == Some(plain)
    ensures !drawn ==> payload == plain
  {
    var _, sealed, entry := SealPage(c, number, pageNo, plain, nonce, drawn);
    payload := sealed;
    var blank := InitPage(LEAF_MAGIC, 0, number);
    leaf := FillLeaf(c, blank, pageNo, entry);
    EntryAt(leaf, pageNo, entry);
  }

  lemma EntryAt(leaf: Page, pageNo: u64, entry: seq<byte>)
    requires pageNo < ENTRIES_PER_LEAF && Get(leaf, LEAF_FIRST_PAGE, 8) == ToBytes(0, 8)
    requires Get(leaf, LEAF_ENTRIES + ENTRY_SIZE * pageNo, ENTRY_SIZE) == entry
    ensures EntryOffset(leaf, pageNo).Some? && Get(leaf, EntryOffset(leaf, pageNo).value, ENTRY_SIZE) == entry
  {
    FirstOf(leaf, pageNo, 0);
  }

  lemma FirstOf(leaf: Page, pageNo: u64, first: u64)
    requires Get(leaf, LEAF_FIRST_PAGE, 8) == ToBytes(first, 8) && first <= pageNo < first + ENTRIES_PER_LEAF
    ensures EntryOffset(leaf, pageNo) == Some(LEAF_ENTRIES + ENTRY_SIZE * (pageNo - first))
  {
    Number64(first);
  }

  method FillLeaf(c: Crypto, blank: Page, pageNo: u64, entry: seq<byte>) returns (leaf: Page)
    requires pageNo < ENTRIES_PER_LEAF && |entry| == ENTRY_SIZE
    ensures leaf[..40] == blank[..40] && Checked(c, leaf)
    ensures Get(leaf, LEAF_FIRST_PAGE, 8) == Get(blank, LEAF_FIRST_PAGE, 8)
    ensures Get(leaf, LEAF_ENTRIES + ENTRY_SIZE * pageNo, ENTRY_SIZE) == entry
  {
    var off := LEAF_ENTRIES + ENTRY_SIZE * pageNo;
    GetPut(blank, off, entry, LEAF_FIRST_PAGE, 8);
    GetPut(blank, off, entry, off, ENTRY_SIZE);
    PutKeeps(blank, off, entry, 40);
    var filled := Put(blank, off, entry);
    leaf := PutChecksum(c, filled);
    SameField(filled, leaf, LEAF_FIRST_PAGE, 8);
    SameField(filled, leaf, off, ENTRY_SIZE);
    SameField(filled, leaf, 0, 40);
  }

  method BuildNode(c: Crypto, number: u64, leafMac: seq<byte>) returns (node: Page)
    requires |leafMac| == MAC_SIZE
    ensures node[..40] == Header(NODE_MAGIC, 1, number) && Checked(c, node)
    ensures Get(node, NODE_CHILDREN, MAC_SIZE) == leafMac
  {
    var blank := InitPage(NODE_MAGIC, 1, number);
    var child := Put(blank, NODE_CHILDREN, leafMac);
    GetPut(blank, NODE_CHILDREN, leafMac, NODE_CHILDREN, MAC_SIZE);
    PutKeeps(blank, NODE_CHILDREN, leafMac, 40);
    var counted := Put(child, 40, ToBytes(1, 8));
    GetPut(child, 40, ToBytes(1, 8), NODE_CHILDREN, MAC_SIZE);
    PutKeeps(child, 40, ToBytes(1, 8), 40);
    node := PutChecksum(c, counted);
    SameField(counted, node, NODE_CHILDREN, MAC_SIZE);
    SameField(counted, node, 0, 40);
  }

  method BuildSuperblock(c: Crypto, number: u64, payloadAt: u64, leafAt: u64, nodeAt: u64, root: seq<byte>)
      returns (sb: Page)
    requires |root| == MAC_SIZE
    ensures SbValid(c, sb)
    ensures Get64(sb, SB_GENERATION) == number && Get64(sb, SB_PAYLOAD) == payloadAt
    ensures Get64(sb, SB_LEAF) == leafAt && Get64(sb, SB_NODE) == nodeAt
    ensures Get(sb, SB_TREE_ROOT, MAC_SIZE) == root
  {
    var head := BuildHead(ToBytes(number, 8), ToBytes(payloadAt, 8), ToBytes(leafAt, 8), ToBytes(nodeAt, 8), root);
    var tag := c.sbMac(head);
    sb := head + tag + seq(PAGE - 112, i => 0);
    Within(head, tag + seq(PAGE - 112, i => 0), sb);
    assert sb[96..112] == tag;
    Number64(number);
    Number64(payloadAt);
    Number64(leafAt);
    Number64(nodeAt);
  }

  method BuildHead(number: seq<byte>, payloadAt: seq<byte>, leafAt: seq<byte>, nodeAt: seq<byte>, root: seq<byte>)
      returns (head: seq<byte>)
    requires |number| == 8 && |payloadAt| == 8 && |leafAt| == 8 && |nodeAt| == 8 && |root| == MAC_SIZE
    ensures |head| == SB_TAG && head[..4] == SB_MAGIC
    ensures head[8..16] == number && head[16..24] == payloadAt && head[24..32] == leafAt && head[32..40] == nodeAt
    ensures head[64..80] == root
  {
    var zeros := seq(24, i => 0 as byte);
    head := SB_MAGIC + zeros[..4] + number + payloadAt + leafAt + nodeAt + zeros + root + zeros[..16];
  }

  lemma Within(head: seq<byte>, rest: seq<byte>, sb: seq<byte>)
    requires |head| == SB_TAG && sb == head + rest
    ensures sb[..SB_TAG] == head && sb[..4] == head[..4]
    ensures sb[8..16] == head[8..16] && sb[16..24] == head[16..24] && sb[24..32] == head[24..32]
    ensures sb[32..40] == head[32..40] && sb[64..80] == head[64..80]
  {
  }

  /** `build_generation`, which does not ask whether the seal could be made. Given randomness
      the pages form a chain; without it the payload is left in the clear. */
  method BuildGeneration(c: Crypto, number: u64, payloadAt: u64, leafAt: u64, nodeAt: u64,
                         content: seq<byte>, nonce: seq<byte>, drawn: bool) returns (g: Generation)
    requires payloadAt < ENTRIES_PER_LEAF && |content| < PAGE && |nonce| == 23
    ensures drawn ==> WellBuilt(c, g)
    ensures !drawn ==> g.payload == g.plain
    ensures g.number == number && g.payloadAt == payloadAt && g.leafAt == leafAt && g.nodeAt == nodeAt
    ensures Carries(g.plain, number, content)
    ensures g.leaf[..40] == Header(LEAF_MAGIC, 0, number) && Checked(c, g.leaf)
    ensures g.node[..40] == Header(NODE_MAGIC, 1, number) && Checked(c, g.node)
  {
    var plain := FillPayload(number, content);
    var leaf, payload := BuildLeaf(c, number, payloadAt, plain, nonce, drawn);
    var node := BuildNode(c, number, LeafMac(c, leaf));
    var sb := BuildSuperblock(c, number, payloadAt, leafAt, nodeAt, NodeMac(c, node));
    g := Generation(number, payloadAt, leafAt, nodeAt, plain, payload, leaf, node, sb);
  }

  // What a superblock vouches for

  ghost predicate Collide(mac: seq<byte> -> seq<byte>, x: seq<byte>, y: seq<byte>) {
    x != y && mac(x) == mac(y)
  }

  /** Two different pages open under one nonce, one associated data and one tag. */
  ghost predicate Forged(c: Primitives, nonce: seq<byte>, aad: seq<byte>, tag: seq<byte>, p: Page, q: Page) {
    p != q && c.aeadOpen(nonce, aad, p, tag).Some? && c.aeadOpen(nonce, aad, q, tag).Some?
  }

  /** A node under a root, a leaf under the node, and a payload that its entry in the leaf opens. */
  ghost predicate Vouched(c: Primitives, root: seq<byte>, pageNo: nat, node: Page, leaf: Page, payload: Page,
      plain: Page) {
    && NodeMac(c, node) == root && LeafMac(c, leaf) == Get(node, NODE_CHILDREN, MAC_SIZE)
    && EntryOffset(leaf, pageNo).Some?
    && OpenPage(c, payload, pageNo, Get(leaf, EntryOffset(leaf, pageNo).value, ENTRY_SIZE)) == Some(plain)
  }

  lemma Slice<T>(p: seq<T>, a: nat, n: nat, lo: nat, hi: nat)
    requires a <= lo <= hi <= n <= |p|
    ensures p[lo..hi] == p[a..n][lo - a..hi - a]
  {
    assert forall i :: lo <= i < hi ==> p[i] == p[a..n][i - a];
  }

  lemma CoveredField(p: Page, q: Page, n: nat, off: nat, len: nat)
    requires 8 <= off && off + len <= n <= PAGE && p[8..n] == q[8..n]
    ensures Get(p, off, len) == Get(q, off, len)
  {
    Slice(p, 8, n, off, off + len);
    Slice(q, 8, n, off, off + len);
  }

  /** What the MAC of a leaf covers is all that is used of it. */
  lemma SameEntry(leaf: Page, leaf': Page, pageNo: nat)
    requires leaf[8..4064] == leaf'[8..4064]
    ensures EntryOffset(leaf, pageNo) == EntryOffset(leaf', pageNo)
    ensures forall off {:trigger Get(leaf, off, ENTRY_SIZE)} :: 8 <= off && off + ENTRY_SIZE <= 4064 ==>
      Get(leaf, off, ENTRY_SIZE) == Get(leaf', off, ENTRY_SIZE)
  {
    CoveredField(leaf, leaf', 4064, LEAF_FIRST_PAGE, 8);
    forall off | 8 <= off && off + ENTRY_SIZE <= 4064
      ensures Get(leaf, off, ENTRY_SIZE) == Get(leaf', off, ENTRY_SIZE)
    {
      CoveredField(leaf, leaf', 4064, off, ENTRY_SIZE);
    }
  }

  /** A root vouches for one plaintext: two chains under it end in the same, unless two nodes or two
      leaves have the same MAC, or one entry opens two payloads. */
  lemma OnePlaintext(c: Primitives, root: seq<byte>, pageNo: nat, node: Page, leaf: Page, payload: Page, plain: Page,
      node': Page, leaf': Page, payload': Page, plain': Page)
    requires Vouched(c, root, pageNo, node, leaf, payload, plain)
    requires Vouched(c, root, pageNo, node', leaf', payload', plain')
    requires !Collide(c.nodeMac, node[8..4080], node'[8..4080])
    requires !Collide(c.leafMac, leaf[8..4064], leaf'[8..4064])
    requires forall nonce, aad, tag :: !Forged(c, nonce, aad, tag, payload, payload')
    ensures plain == plain'
  {
    CoveredField(node, node', 4080, NODE_CHILDREN, MAC_SIZE);
    SameEntry(leaf, leaf', pageNo);
    OnePage(c, payload, payload', pageNo, Get(leaf, EntryOffset(leaf, pageNo).value, ENTRY_SIZE));
  }

  lemma OnePage(c: Primitives, payload: Page, payload': Page, pageNo: nat, entry: seq<byte>)
    requires |entry| == ENTRY_SIZE && forall nonce, aad, tag :: !Forged(c, nonce, aad, tag, payload, payload')
    requires OpenPage(c, payload, pageNo, entry).Some? && OpenPage(c, payload', pageNo, entry).Some?
    ensures payload == payload'
  {
    assert !Forged(c, entry[..24], Aad(c, pageNo, entry), entry[24..40], payload, payload');
  }
}
