/** The page image of one B+ tree node. */
module BTreeCodec {
  import opened KeyOrder
  import opened Bytes
  import opened BTreeShape

  const PAGE_SIZE := 4096
  const PAGE_HEADER_SIZE := 32
  const MAX_DATA_BYTES := PAGE_SIZE - PAGE_HEADER_SIZE

  // ---------------------------------------------------------------- the format

  function TypeByte(n: Node): Byte {
    if n.LeafNode? then 0 else 1
  }

  function RightOf(n: Node): PageID {
    if n.LeafNode? then n.right else 0
  }

  function Header(n: Node): Bytes {
    [TypeByte(n)] + LE(|n.keys|, 2) + LE(RightOf(n), 8)
  }

  function KeyImage(k: Key): Bytes {
    LE(|k|, 2) + k
  }

  function LocImage(l: RowLocation): Bytes {
    LE(l.page, 8) + LE(l.slot, 4)
  }

  function KeysImage(ks: seq<Key>): Bytes {
    if ks == [] then [] else KeyImage(ks[0]) + KeysImage(ks[1..])
  }

  function LocsImage(ls: seq<RowLocation>): (b: Bytes)
    ensures |b| == 12 * |ls|
  {
    if ls == [] then [] else LocImage(ls[0]) + LocsImage(ls[1..])
  }

  function KidsImage(cs: seq<PageID>): (b: Bytes)
    ensures |b| == 8 * |cs|
  {
    if cs == [] then [] else LE(cs[0], 8) + KidsImage(cs[1..])
  }

  function Tail(n: Node): Bytes {
    if n.LeafNode? then LocsImage(n.values) else KidsImage(n.children)
  }

  function Image(n: Node): Bytes {
    Header(n) + KeysImage(n.keys) + Tail(n)
  }

  /** Node type, number of keys and right sibling. */
  lemma HeaderLayout(n: Node)
    requires |n.keys| < UINT16_LIMIT && (n.LeafNode? ==> n.right < UINT64_LIMIT)
    ensures |Image(n)| >= 11 && Image(n)[0] == (if n.LeafNode? then 0 else 1) && FromLE(Image(n)[1..3]) == |n.keys|
    ensures FromLE(Image(n)[3..11]) == if n.LeafNode? then n.right else 0
  {
    Pow256Values();
    FromLEInverse(|n.keys|, 2);
    FromLEInverse(RightOf(n), 8);
    HeaderParts(TypeByte(n), LE(|n.keys|, 2), LE(RightOf(n), 8), KeysImage(n.keys), Tail(n), Image(n));
  }

  lemma HeaderParts(t: Byte, a: Bytes, b: Bytes, c: Bytes, d: Bytes, s: Bytes)
    requires |a| == 2 && |b| == 8 && s == [t] + a + b + c + d
    ensures |s| >= 11 && s[0] == t && s[1..3] == a && s[3..11] == b
  {
  }

  // ---------------------------------------------------------------- parsing

  function Prefixed<T>(xs: seq<T>, r: Option<seq<T>>): Option<seq<T>> {
    if r.None? then None else Some(xs + r.value)
  }

  function KeysPrefixed(ks: seq<Key>, r: Option<(seq<Key>, Bytes)>): Option<(seq<Key>, Bytes)> {
    if r.None? then None else Some((ks + r.value.0, r.value.1))
  }

  lemma PrefixedStep<T>(xs: seq<T>, x: T, r: Option<seq<T>>)
    ensures Prefixed([], r) == r
    ensures Prefixed(xs, Prefixed([x], r)) == Prefixed(xs + [x], r)
  {
    if r.Some? {
      assert [] + r.value == r.value;
      assert xs + ([x] + r.value) == xs + [x] + r.value;
    }
  }

  lemma KeysPrefixedStep(ks: seq<Key>, k: Key, r: Option<(seq<Key>, Bytes)>)
    ensures KeysPrefixed([], r) == r
    ensures KeysPrefixed(ks, KeysPrefixed([k], r)) == KeysPrefixed(ks + [k], r)
  {
    if r.Some? {
      assert [] + r.value.0 == r.value.0;
      assert ks + ([k] + r.value.0) == ks + [k] + r.value.0;
    }
  }

  function ParseKeys(s: Bytes, n: nat): Option<(seq<Key>, Bytes)>
    decreases n
  {
    if n == 0 then Some(([], s))
    else if |s| < 2 then None
    else
      var k := FromLE(s[..2]);
      if |s| < 2 + k then None
      else
        KeysPrefixed([s[2..2 + k]], ParseKeys(s[2 + k..], n - 1))
  }

  function ParseLocs(s: Bytes, n: nat): Option<seq<RowLocation>>
    decreases n
  {
    if n == 0 then Some([])
    else if |s| < 12 then None
    else
      Prefixed([RowLocation(FromLE(s[..8]), FromLE(s[8..12]))], ParseLocs(s[12..], n - 1))
  }

  function ParseKids(s: Bytes, n: nat): Option<seq<PageID>>
    decreases n
  {
    if n == 0 then Some([])
    else if |s| < 8 then None
    else
      Prefixed([FromLE(s[..8])], ParseKids(s[8..], n - 1))
  }

  /** Every non-zero type byte is read as an internal node. */
  function Parse(data: Bytes): Option<Node> {
    if |data| < 11 then None
    else
      var n, right := FromLE(data[1..3]), FromLE(data[3..11]);
      match ParseKeys(data[11..], n)
      case None => None
      case Some((ks, rest)) =>
        if data[0] == 0 then
          match ParseLocs(rest, n)
          case None => None
          case Some(ls) => Some(LeafNode(ks, ls, right))
        else
          match ParseKids(rest, n + 1)
          case None => None
          case Some(cs) => Some(InnerNode(ks, cs))
  }

  // ---------------------------------------------------------------- round trip

  predicate FitsFields(l: RowLocation) {
    l.page < UINT64_LIMIT && l.slot < UINT32_LIMIT
  }

  /** The node's lengths and numbers fit the fields that hold them. */
  ghost predicate Encodable(n: Node) {
    && |n.keys| < UINT16_LIMIT
    && (forall i | 0 <= i < |n.keys| :: |n.keys[i]| < UINT16_LIMIT)
    && match n {
         case LeafNode(keys, values, right) =>
           && |values| == |keys| && right < UINT64_LIMIT
           && (forall i | 0 <= i < |values| :: FitsFields(values[i]))
         case InnerNode(keys, children) =>
           && |children| == |keys| + 1
           && (forall i | 0 <= i < |children| :: children[i] < UINT64_LIMIT)
       }
  }

  lemma KeyBack(k: Key, tail: Bytes)
    requires |k| < UINT16_LIMIT
    ensures var s := KeyImage(k) + tail;
            && |s| >= 2 + |k| && FromLE(s[..2]) == |k| && s[2..2 + |k|] == k && s[2 + |k|..] == tail
  {
    Pow256Values();
    var s := KeyImage(k) + tail;
    assert s == LE(|k|, 2) + (k + tail);
    ReadBack(|k|, 2, k + tail);
  }

  lemma LocBack(l: RowLocation, tail: Bytes)
    requires FitsFields(l)
    ensures var s := LocImage(l) + tail;
            && |s| >= 12 && FromLE(s[..8]) == l.page && FromLE(s[8..12]) == l.slot && s[12..] == tail
  {
    Pow256Values();
    var s := LocImage(l) + tail;
    assert s == LE(l.page, 8) + (LE(l.slot, 4) + tail);
    ReadBack(l.page, 8, LE(l.slot, 4) + tail);
    ReadBack(l.slot, 4, tail);
    assert s[8..12] == s[8..][..4] && s[12..] == s[8..][4..];
  }

  lemma Regroup(a: Bytes, b: Bytes, c: Bytes)
    ensures (a + b) + c == a + (b + c)
  {
  }

  lemma ParseKeysStep(k: Key, tail: Bytes, n: nat)
    requires |k| < UINT16_LIMIT
    ensures ParseKeys(KeyImage(k) + tail, n + 1) == KeysPrefixed([k], ParseKeys(tail, n))
  {
    KeyBack(k, tail);
  }

  lemma ParseLocsStep(l: RowLocation, tail: Bytes, n: nat)
    requires FitsFields(l)
    ensures ParseLocs(LocImage(l) + tail, n + 1) == Prefixed([l], ParseLocs(tail, n))
  {
    LocBack(l, tail);
  }

  lemma ParseKidsStep(c: PageID, tail: Bytes, n: nat)
    requires c < UINT64_LIMIT
    ensures ParseKids(LE(c, 8) + tail, n + 1) == Prefixed([c], ParseKids(tail, n))
  {
    Pow256Values();
    ReadBack(c, 8, tail);
  }

  lemma {:induction false} ParseKeysBack(ks: seq<Key>, rest: Bytes)
    requires forall i | 0 <= i < |ks| :: |ks[i]| < UINT16_LIMIT
    ensures ParseKeys(KeysImage(ks) + rest, |ks|) == Some((ks, rest))
  {
    if ks == [] {
      assert KeysImage(ks) + rest == rest;
    } else {
      ParseKeysBack(ks[1..], rest);
      ParseKeysStep(ks[0], KeysImage(ks[1..]) + rest, |ks| - 1);
      Regroup(KeyImage(ks[0]), KeysImage(ks[1..]), rest);
      assert [ks[0]] + ks[1..] == ks;
    }
  }

  lemma {:induction false} ParseLocsBack(ls: seq<RowLocation>, rest: Bytes)
    requires forall i | 0 <= i < |ls| :: FitsFields(ls[i])
    ensures ParseLocs(LocsImage(ls) + rest, |ls|) == Some(ls)
  {
    if ls != [] {
      ParseLocsBack(ls[1..], rest);
      ParseLocsStep(ls[0], LocsImage(ls[1..]) + rest, |ls| - 1);
      Regroup(LocImage(ls[0]), LocsImage(ls[1..]), rest);
      assert [ls[0]] + ls[1..] == ls;
    }
  }

  lemma {:induction false} ParseKidsBack(cs: seq<PageID>, rest: Bytes)
    requires forall i | 0 <= i < |cs| :: cs[i] < UINT64_LIMIT
    ensures ParseKids(KidsImage(cs) + rest, |cs|) == Some(cs)
  {
    if cs != [] {
      ParseKidsBack(cs[1..], rest);
      ParseKidsStep(cs[0], KidsImage(cs[1..]) + rest, |cs| - 1);
      Regroup(LE(cs[0], 8), KidsImage(cs[1..]), rest);
      assert [cs[0]] + cs[1..] == cs;
    }
  }

  lemma ParseHeader(n: Node, body: Bytes)
    requires |n.keys| < UINT16_LIMIT && RightOf(n) < UINT64_LIMIT
    ensures var d := Header(n) + body;
            && |d| >= 11 && d[0] == TypeByte(n) && FromLE(d[1..3]) == |n.keys|
            && FromLE(d[3..11]) == RightOf(n) && d[11..] == body
  {
    Pow256Values();
    var d := Header(n) + body;
    assert d == [TypeByte(n)] + (LE(|n.keys|, 2) + (LE(RightOf(n), 8) + body));
    ReadBack(|n.keys|, 2, LE(RightOf(n), 8) + body);
    ReadBack(RightOf(n), 8, body);
    assert d[1..] == LE(|n.keys|, 2) + (LE(RightOf(n), 8) + body);
    assert d[1..3] == d[1..][..2] && d[3..11] == d[1..][2..][..8] && d[11..] == d[1..][2..][8..];
  }

  lemma Grouped(a: Bytes, b: Bytes, c: Bytes, d: Bytes)
    ensures a + b + c + d == a + (b + (c + d))
  {
  }

  lemma ParseFront(n: Node, pad: Bytes)
    requires |n.keys| < UINT16_LIMIT && RightOf(n) < UINT64_LIMIT
    requires forall i | 0 <= i < |n.keys| :: |n.keys[i]| < UINT16_LIMIT
    ensures var d := Image(n) + pad;
            && |d| >= 11 && d[0] == TypeByte(n) && FromLE(d[1..3]) == |n.keys| && FromLE(d[3..11]) == RightOf(n)
            && ParseKeys(d[11..], |n.keys|) == Some((n.keys, Tail(n) + pad))
  {
    Grouped(Header(n), KeysImage(n.keys), Tail(n), pad);
    ParseHeader(n, KeysImage(n.keys) + (Tail(n) + pad));
    ParseKeysBack(n.keys, Tail(n) + pad);
  }

  /** Reading a page back gives the node that was written, whatever bytes follow its image. */
  lemma ParseImage(n: Node, pad: Bytes)
    requires Encodable(n)
    ensures Parse(Image(n) + pad) == Some(n)
  {
    ParseFront(n, pad);
    match n {
      case LeafNode(keys, values, right) => ParseLocsBack(values, pad);
      case InnerNode(keys, children) => ParseKidsBack(children, pad);
    }
  }

  // ---------------------------------------------------------------- size

  function KeysSize(ks: seq<Key>): nat {
    if ks == [] then 0 else 2 + |ks[0]| + KeysSize(ks[1..])
  }

  lemma {:induction false} KeysImageSize(ks: seq<Key>)
    ensures |KeysImage(ks)| == KeysSize(ks)
  {
    if ks != [] {
      KeysImageSize(ks[1..]);
    }
  }

  lemma OneMore(a: nat, n: nat)
    ensures (a + 1) * n == a * n + n
  {
  }

  lemma {:induction false} KeysSizeBound(ks: seq<Key>, m: nat)
    requires forall k | k in ks :: |k| <= m
    ensures KeysSize(ks) <= |ks| * (2 + m)
  {
    if ks != [] {
      KeysSizeBound(ks[1..], m);
      OneMore(|ks| - 1, 2 + m);
    }
  }

  lemma {:induction false} KeysSizeExact(ks: seq<Key>, m: nat)
    requires forall k | k in ks :: |k| == m
    ensures KeysSize(ks) == |ks| * (2 + m)
  {
    if ks != [] {
      KeysSizeExact(ks[1..], m);
      OneMore(|ks| - 1, 2 + m);
    }
  }

  /** With keys of at most 26 bytes every node within the order fits its page. */
  lemma ShortKeysFit(n: Node)
    requires |n.keys| <= BTREE_ORDER && forall k | k in n.keys :: |k| <= 26
    requires n.LeafNode? ==> |n.values| == |n.keys|
    requires n.InnerNode? ==> |n.children| == |n.keys| + 1
    ensures |Image(n)| <= MAX_DATA_BYTES
  {
    KeysImageSize(n.keys);
    KeysSizeBound(n.keys, 26);
    assert |n.keys| * 28 <= 2800;
  }

  /** 26 is the limit: a full leaf of 27-byte keys does not fit. */
  lemma LongerKeysDoNotFit(n: Node)
    requires n.LeafNode? && |n.keys| == |n.values| == BTREE_ORDER && forall k | k in n.keys :: |k| == 27
    ensures |Image(n)| > MAX_DATA_BYTES
  {
    KeysImageSize(n.keys);
    KeysSizeExact(n.keys, 27);
  }

  // ---------------------------------------------------------------- writing

  lemma {:induction false} KeysImageAppend(a: seq<Key>, k: Key)
    ensures KeysImage(a + [k]) == KeysImage(a) + KeyImage(k)
  {
    if a == [] {
      assert KeysImage([k]) == KeyImage(k) + KeysImage([]);
      assert a + [k] == [k];
    } else {
      KeysImageAppend(a[1..], k);
      assert (a + [k])[1..] == a[1..] + [k];
      Regroup(KeyImage(a[0]), KeysImage(a[1..]), KeyImage(k));
    }
  }

  lemma {:induction false} LocsImageAppend(a: seq<RowLocation>, l: RowLocation)
    ensures LocsImage(a + [l]) == LocsImage(a) + LocImage(l)
  {
    if a == [] {
      assert LocsImage([l]) == LocImage(l) + LocsImage([]);
      assert a + [l] == [l];
    } else {
      LocsImageAppend(a[1..], l);
      assert (a + [l])[1..] == a[1..] + [l];
      Regroup(LocImage(a[0]), LocsImage(a[1..]), LocImage(l));
    }
  }

  lemma {:induction false} KidsImageAppend(a: seq<PageID>, c: PageID)
    ensures KidsImage(a + [c]) == KidsImage(a) + LE(c, 8)
  {
    if a == [] {
      assert KidsImage([c]) == LE(c, 8) + KidsImage([]);
      assert a + [c] == [c];
    } else {
      KidsImageAppend(a[1..], c);
      assert (a + [c])[1..] == a[1..] + [c];
      Regroup(LE(a[0], 8), KidsImage(a[1..]), LE(c, 8));
    }
  }

  lemma KeysImageStep(ks: seq<Key>, i: nat)
    requires i < |ks|
    ensures KeysImage(ks[..i + 1]) == KeysImage(ks[..i]) + LE(|ks[i]|, 2) + ks[i]
    ensures KeysSize(ks[..i + 1]) <= KeysSize(ks)
  {
    assert ks[..i + 1] == ks[..i] + [ks[i]];
    KeysImageAppend(ks[..i], ks[i]);
    Regroup(KeysImage(ks[..i]), LE(|ks[i]|, 2), ks[i]);
    KeysSizeMonotone(ks, i + 1);
  }

  lemma LocsImageStep(ls: seq<RowLocation>, i: nat)
    requires i < |ls|
    ensures LocsImage(ls[..i + 1]) == LocsImage(ls[..i]) + LE(ls[i].page, 8) + LE(ls[i].slot, 4)
  {
    assert ls[..i + 1] == ls[..i] + [ls[i]];
    LocsImageAppend(ls[..i], ls[i]);
    Regroup(LocsImage(ls[..i]), LE(ls[i].page, 8), LE(ls[i].slot, 4));
  }

  lemma KidsImageStep(cs: seq<PageID>, i: nat)
    requires i < |cs|
    ensures KidsImage(cs[..i + 1]) == KidsImage(cs[..i]) + LE(cs[i], 8)
  {
    assert cs[..i + 1] == cs[..i] + [cs[i]];
    KidsImageAppend(cs[..i], cs[i]);
  }

  lemma LocsGrow(head: Bytes, buf: Bytes, ls: seq<RowLocation>, i: nat)
    requires i < |ls| && buf == head + LocsImage(ls[..i])
    ensures buf + LE(ls[i].page, 8) + LE(ls[i].slot, 4) == head + LocsImage(ls[..i + 1])
  {
    LocsImageStep(ls, i);
    RegroupFour(head, LocsImage(ls[..i]), LE(ls[i].page, 8), LE(ls[i].slot, 4));
  }

  lemma KidsGrow(head: Bytes, buf: Bytes, cs: seq<PageID>, i: nat)
    requires i < |cs| && buf == head + KidsImage(cs[..i])
    ensures buf + LE(cs[i], 8) == head + KidsImage(cs[..i + 1])
  {
    KidsImageStep(cs, i);
    RegroupFour(head, KidsImage(cs[..i]), LE(cs[i], 8), []);
  }

  lemma RegroupFour(head: Bytes, a: Bytes, b: Bytes, c: Bytes)
    ensures head + a + b + c == head + (a + b + c) && head + a + b == head + (a + b)
  {
  }

  lemma {:induction false} KeysSizeMonotone(ks: seq<Key>, i: nat)
    requires i <= |ks|
    ensures KeysSize(ks[..i]) <= KeysSize(ks)
  {
    if i > 0 {
      assert ks[..i][1..] == ks[1..][..i - 1];
      KeysSizeMonotone(ks[1..], i - 1);
    }
  }

  /** The key part of the buffer, or nothing when the keys alone overflow the page. */
  method EncodeKeys(head: Bytes, keys: seq<Key>) returns (r: Option<Bytes>)
    requires |head| <= MAX_DATA_BYTES
    ensures |head| + KeysSize(keys) <= MAX_DATA_BYTES ==> r == Some(head + KeysImage(keys))
    ensures |head| + KeysSize(keys) > MAX_DATA_BYTES ==> r == None
  {
    var buf, i := head, 0;
    while i < |keys|
      invariant i <= |keys| && buf == head + KeysImage(keys[..i]) && |buf| <= MAX_DATA_BYTES
    {
      var k := keys[i];
      KeysImageStep(keys, i);
      KeysImageSize(keys[..i + 1]);
      if |buf| + 2 + |k| > MAX_DATA_BYTES {
        return None;
      }
      buf := buf + LE(|k|, 2) + k;
      i := i + 1;
    }
    assert keys[..i] == keys;
    KeysImageSize(keys);
    return Some(buf);
  }

  method EncodeLocs(head: Bytes, values: seq<RowLocation>) returns (r: Option<Bytes>)
    requires |head| <= MAX_DATA_BYTES
    ensures |head| + 12 * |values| <= MAX_DATA_BYTES ==> r == Some(head + LocsImage(values))
    ensures |head| + 12 * |values| > MAX_DATA_BYTES ==> r == None
  {
    var buf, i := head, 0;
    while i < |values|
      invariant i <= |values| && buf == head + LocsImage(values[..i]) && |buf| <= MAX_DATA_BYTES
    {
      if |buf| + 12 > MAX_DATA_BYTES {
        return None;
      }
      LocsGrow(head, buf, values, i);
      buf := buf + LE(values[i].page, 8) + LE(values[i].slot, 4);
      i := i + 1;
    }
    assert values[..i] == values;
    return Some(buf);
  }

  method EncodeKids(head: Bytes, children: seq<PageID>) returns (r: Option<Bytes>)
    requires |head| <= MAX_DATA_BYTES
    ensures |head| + 8 * |children| <= MAX_DATA_BYTES ==> r == Some(head + KidsImage(children))
    ensures |head| + 8 * |children| > MAX_DATA_BYTES ==> r == None
  {
    var buf, i := head, 0;
    while i < |children|
      invariant i <= |children| && buf == head + KidsImage(children[..i]) && |buf| <= MAX_DATA_BYTES
    {
      if |buf| + 8 > MAX_DATA_BYTES {
        return None;
      }
      KidsGrow(head, buf, children, i);
      buf := buf + LE(children[i], 8);
      i := i + 1;
    }
    assert children[..i] == children;
    return Some(buf);
  }

  /** Succeeds exactly when the image fits the page, and then yields the image. */
  method EncodeNode(n: Node) returns (r: Option<Bytes>)
    ensures r == if |Image(n)| <= MAX_DATA_BYTES then Some(Image(n)) else None
  {
    KeysImageSize(n.keys);
    r := EncodeKeys(Header(n), n.keys);
    if r.Some? {
      match n {
        case LeafNode(_, values, _) => r := EncodeLocs(r.value, values);
        case InnerNode(_, children) => r := EncodeKids(r.value, children);
      }
    }
  }

  // ---------------------------------------------------------------- reading

  method DecodeKeys(data: Bytes, count: nat) returns (r: Option<(seq<Key>, Bytes)>)
    ensures r == ParseKeys(data, count)
  {
    var keys: seq<Key>, off: nat, i: nat := [], 0, 0;
    assert data[0..] == data;
    KeysPrefixedStep([], [], ParseKeys(data, count));
    while i < count
      invariant i <= count && off <= |data|
      invariant ParseKeys(data, count) == KeysPrefixed(keys, ParseKeys(data[off..], count - i))
    {
      if off + 2 > |data| {
        return None;
      }
      var klen := FromLE(data[off..off + 2]);
      assert data[off..][..2] == data[off..off + 2];
      if off + 2 + klen > |data| {
        return None;
      }
      assert data[off..][2..2 + klen] == data[off + 2..off + 2 + klen];
      assert data[off..][2 + klen..] == data[off + 2 + klen..];
      KeysPrefixedStep(keys, data[off + 2..off + 2 + klen], ParseKeys(data[off + 2 + klen..], count - i - 1));
      keys := keys + [data[off + 2..off + 2 + klen]];
      off, i := off + 2 + klen, i + 1;
    }
    assert keys + [] == keys;
    return Some((keys, data[off..]));
  }

  method DecodeLocs(data: Bytes, count: nat) returns (r: Option<seq<RowLocation>>)
    ensures r == ParseLocs(data, count)
  {
    var values: seq<RowLocation>, off: nat, i: nat := [], 0, 0;
    assert data[0..] == data;
    PrefixedStep([], RowLocation(0, 0), ParseLocs(data, count));
    while i < count
      invariant i <= count && off <= |data|
      invariant ParseLocs(data, count) == Prefixed(values, ParseLocs(data[off..], count - i))
    {
      if off + 12 > |data| {
        return None;
      }
      assert data[off..][..8] == data[off..off + 8] && data[off..][8..12] == data[off + 8..off + 12];
      assert data[off..][12..] == data[off + 12..];
      var loc := RowLocation(FromLE(data[off..off + 8]), FromLE(data[off + 8..off + 12]));
      PrefixedStep(values, loc, ParseLocs(data[off + 12..], count - i - 1));
      values := values + [loc];
      off, i := off + 12, i + 1;
    }
    assert values + [] == values;
    return Some(values);
  }

  method DecodeKids(data: Bytes, count: nat) returns (r: Option<seq<PageID>>)
    ensures r == ParseKids(data, count)
  {
    var children: seq<PageID>, off: nat, i: nat := [], 0, 0;
    assert data[0..] == data;
    PrefixedStep([], 0, ParseKids(data, count));
    while i < count
      invariant i <= count && off <= |data|
      invariant ParseKids(data, count) == Prefixed(children, ParseKids(data[off..], count - i))
    {
      if off + 8 > |data| {
        return None;
      }
      assert data[off..][..8] == data[off..off + 8] && data[off..][8..] == data[off + 8..];
      PrefixedStep(children, FromLE(data[off..off + 8]), ParseKids(data[off + 8..], count - i - 1));
      children := children + [FromLE(data[off..off + 8])];
      off, i := off + 8, i + 1;
    }
    assert children + [] == children;
    return Some(children);
  }

  /** Inverts `EncodeNode` on the whole payload area of a page, zero padding included. */
  method DecodeNode(data: Bytes) returns (r: Option<Node>)
    ensures r == Parse(data)
  {
    if |data| < 11 {
      return None;
    }
    var count, right := FromLE(data[1..3]), FromLE(data[3..11]);
    var keys := DecodeKeys(data[11..], count);
    if keys.None? {
      return None;
    }
    if data[0] == 0 {
      var values := DecodeLocs(keys.value.1, count);
      return if values.None? then None else Some(LeafNode(keys.value.0, values.value, right));
    } else {
      var children := DecodeKids(keys.value.1, count + 1);
      return if children.None? then None else Some(InnerNode(keys.value.0, children.value));
    }
  }

  // ---------------------------------------------------------------- whole trees

  const MAX_KEY := 26

  /** Every key of the subtree, separators included, is short and every location fits its fields. */
  ghost predicate Small(t: Tree)
    decreases t
  {
    && (forall i | 0 <= i < |t.keys| :: |t.keys[i]| <= MAX_KEY)
    && match t {
         case Leaf(_, _, values) => forall i | 0 <= i < |values| :: FitsFields(values[i])
         case Inner(_, _, kids) => forall i | 0 <= i < |kids| :: Small(kids[i])
       }
  }

  /** The page fits, and reading it back gives the node that was written. */
  ghost predicate Faithful(n: Node) {
    |Image(n)| <= MAX_DATA_BYTES && forall pad :: Parse(Image(n) + pad) == Some(n)
  }

  lemma FaithfulNode(n: Node)
    requires Encodable(n) && |n.keys| <= BTREE_ORDER
    requires forall i | 0 <= i < |n.keys| :: |n.keys[i]| <= MAX_KEY
    ensures Faithful(n)
  {
    ShortKeysFit(n);
    forall pad
      ensures Parse(Image(n) + pad) == Some(n)
    {
      ParseImage(n, pad);
    }
  }
}
