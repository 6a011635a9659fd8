/**
 The page codec for B-tree nodes: a length-prefixed binary layout padded with
 zeroes to one 16 KiB page. The printer appends to one byte vector, the parser
 moves an offset over the page.

 `Represents(page, node)` is the relation the two halves share. The printer
 produces a page that represents its node, the parser answers `Ok(node)` exactly
 when the page represents `node`, and no page represents two nodes.
 */
module NodeCodec {
  import opened Common

  const PAGE_SIZE: nat := 16 * 1024
  const MAGIC: seq<Byte> := [0x41, 0x42, 0x54, 0x4E]
  const HEADER_SIZE: nat := 25

  datatype CodecError = HarnessFailed

  datatype Node = Node(
    pageId: U64,
    pageLsn: U64,
    keys: seq<seq<Byte>>,
    valuesOrChildren: seq<seq<Byte>>,
    isLeaf: bool)

  // ---------------------------------------------------------------- layout

  /** One length-prefixed field. */
  function Field(content: seq<Byte>): (bytes: seq<Byte>)
    ensures |bytes| == 2 + |content|
  {
    LeBytes(|content|, 2) + content
  }

  /** Fields laid out one after the other. */
  function Fields(fs: seq<seq<Byte>>): seq<Byte>
  {
    if fs == [] then [] else Field(fs[0]) + Fields(fs[1..])
  }

  /** The number of bytes a list of fields needs: two for each length, plus the contents. */
  function FieldsSize(fs: seq<seq<Byte>>): nat
  {
    if fs == [] then 0 else 2 + |fs[0]| + FieldsSize(fs[1..])
  }

  function EncodedSize(node: Node): nat
  {
    HEADER_SIZE + FieldsSize(node.keys) + FieldsSize(node.valuesOrChildren)
  }

  /** The counts and the fields behind them. */
  function Body(node: Node): seq<Byte>
  {
    LeBytes(|node.keys|, 2) + (LeBytes(|node.valuesOrChildren|, 2)
    + (Fields(node.keys) + Fields(node.valuesOrChildren)))
  }

  /** Everything after the magic and the leaf flag. */
  function Tail(node: Node): seq<Byte>
  {
    LeBytes(node.pageId, 8) + (LeBytes(node.pageLsn, 8) + Body(node))
  }

  /** What it means for a page to hold `node`. Bytes past the encoded size are not looked at. */
  ghost predicate Represents(page: seq<Byte>, node: Node)
  {
    && |page| == PAGE_SIZE
    && page[..4] == MAGIC
    && (page[4] == 1 <==> node.isLeaf)
    && Tail(node) <= page[5..]
  }

  lemma {:induction false} FieldsSizeIsLength(fs: seq<seq<Byte>>)
    ensures |Fields(fs)| == FieldsSize(fs)
    ensures 2 * |fs| <= FieldsSize(fs)
  {
    if fs != [] {
      FieldsSizeIsLength(fs[1..]);
    }
  }

  lemma EncodedSizeIsLength(node: Node)
    ensures EncodedSize(node) == 5 + |Tail(node)|
    ensures |node.keys| <= EncodedSize(node) && |node.valuesOrChildren| <= EncodedSize(node)
  {
    FieldsSizeIsLength(node.keys);
    FieldsSizeIsLength(node.valuesOrChildren);
  }

  lemma {:induction false} FieldsAppend(fs: seq<seq<Byte>>, f: seq<Byte>)
    ensures Fields(fs + [f]) == Fields(fs) + Field(f)
  {
    if fs == [] {
      assert [f][1..] == [];
    } else {
      FieldsAppend(fs[1..], f);
      assert (fs + [f])[1..] == fs[1..] + [f];
      ConcatAssociative(Field(fs[0]), Fields(fs[1..]), Field(f));
    }
  }

  lemma {:induction false} FieldIsSmaller(fs: seq<seq<Byte>>, i: nat)
    requires i < |fs|
    ensures |fs[i]| <= FieldsSize(fs)
  {
    if i > 0 {
      FieldIsSmaller(fs[1..], i - 1);
    }
  }

  lemma SameU16(a: nat, b: nat, s: seq<Byte>)
    requires a <= U16_MAX && b <= U16_MAX
    requires LeBytes(a, 2) <= s && LeBytes(b, 2) <= s
    ensures a == b
  {
    PrefixSame(LeBytes(a, 2), LeBytes(b, 2), s);
    Pow256Values();
    FromLeOfLeBytes(a, 2);
    FromLeOfLeBytes(b, 2);
  }

  lemma SameU64(a: U64, b: U64, s: seq<Byte>)
    requires LeBytes(a, 8) <= s && LeBytes(b, 8) <= s
    ensures a == b
  {
    PrefixSame(LeBytes(a, 8), LeBytes(b, 8), s);
    Pow256Values();
    FromLeOfLeBytes(a, 8);
    FromLeOfLeBytes(b, 8);
  }

  /** A field can be read in only one way. */
  lemma SameField(f: seq<Byte>, g: seq<Byte>, s: seq<Byte>)
    requires |s| <= U16_MAX && Field(f) <= s && Field(g) <= s
    ensures f == g
  {
    PrefixSplit(LeBytes(|f|, 2), f, s);
    PrefixSplit(LeBytes(|g|, 2), g, s);
    SameU16(|f|, |g|, s);
    PrefixSame(f, g, s[2..]);
  }

  /** Two field lists read from the same place agree as far as the shorter one goes. */
  lemma {:induction false} FieldsAgree(fs: seq<seq<Byte>>, gs: seq<seq<Byte>>, s: seq<Byte>)
    requires |s| <= U16_MAX && |fs| <= |gs|
    requires Fields(fs) <= s && Fields(gs) <= s
    ensures fs == gs[..|fs|]
  {
    if fs != [] {
      PrefixSplit(Field(fs[0]), Fields(fs[1..]), s);
      PrefixSplit(Field(gs[0]), Fields(gs[1..]), s);
      SameField(fs[0], gs[0], s);
      FieldsAgree(fs[1..], gs[1..], s[2 + |fs[0]|..]);
      assert gs[..|fs|] == [gs[0]] + gs[1..][..|fs| - 1];
      assert fs == [fs[0]] + fs[1..];
    }
  }

  /** If a longer list is stored where `fs` was read, its next field is stored right behind `fs`. */
  lemma {:induction false} NextField(fs: seq<seq<Byte>>, gs: seq<seq<Byte>>, s: seq<Byte>)
    requires |s| <= U16_MAX && |fs| < |gs|
    requires Fields(fs) <= s && Fields(gs) <= s
    ensures Field(gs[|fs|]) <= s[|Fields(fs)|..]
  {
    PrefixSplit(Field(gs[0]), Fields(gs[1..]), s);
    if fs == [] {
      assert s[0..] == s;
    } else {
      PrefixSplit(Field(fs[0]), Fields(fs[1..]), s);
      SameField(fs[0], gs[0], s);
      var n := 2 + |fs[0]|;
      NextField(fs[1..], gs[1..], s[n..]);
      DropDrop(s, n, |Fields(fs[1..])|);
    }
  }

  // ---------------------------------------------------------------- printer

  method PushLen(encoded: seq<Byte>, len: nat) returns (r: Result<seq<Byte>, CodecError>)
    ensures r == if len <= U16_MAX then Ok(encoded + LeBytes(len, 2)) else Err(HarnessFailed)
  {
    if len > U16_MAX {
      return Err(HarnessFailed);
    }
    return Ok(encoded + LeBytes(len, 2));
  }

  method PushBytes(encoded: seq<Byte>, content: seq<Byte>) returns (r: Result<seq<Byte>, CodecError>)
    ensures r == if |content| <= U16_MAX then Ok(encoded + Field(content)) else Err(HarnessFailed)
  {
    r := PushLen(encoded, |content|);
    if r.Ok? {
      ConcatAssociative(encoded, LeBytes(|content|, 2), content);
      r := Ok(r.value + content);
    }
  }

  /** One of the two loops of the printer: append every field, stop at the first that is too long. */
  method PushAll(encoded: seq<Byte>, fs: seq<seq<Byte>>) returns (r: Result<seq<Byte>, CodecError>)
    ensures r.Ok? ==> r.value == encoded + Fields(fs)
    ensures r.Err? ==> FieldsSize(fs) > U16_MAX
  {
    var out := encoded;
    for i := 0 to |fs|
      invariant out == encoded + Fields(fs[..i])
    {
      var pushed := PushBytes(out, fs[i]);
      if pushed.Err? {
        FieldIsSmaller(fs, i);
        return Err(HarnessFailed);
      }
      FieldsAppend(fs[..i], fs[i]);
      assert fs[..i + 1] == fs[..i] + [fs[i]];
      ConcatAssociative(encoded, Fields(fs[..i]), Field(fs[i]));
      out := pushed.value;
    }
    assert fs[..|fs|] == fs;
    return Ok(out);
  }

  /** The printer before padding. */
  method EncodeUnpadded(node: Node) returns (r: Result<seq<Byte>, CodecError>)
    ensures r.Ok? ==> r.value == (MAGIC + [if node.isLeaf then 1 else 0]) + Tail(node)
    ensures r.Err? ==> EncodedSize(node) > PAGE_SIZE
  {
    EncodedSizeIsLength(node);
    var start: seq<Byte> := MAGIC + [if node.isLeaf then 1 else 0];
    var withId := start + LeBytes(node.pageId, 8);
    var withLsn := withId + LeBytes(node.pageLsn, 8);
    r := PushLen(withLsn, |node.keys|);
    if r.Err? { return; }
    ghost var withKeyCount := r.value;
    r := PushLen(r.value, |node.valuesOrChildren|);
    if r.Err? { return; }
    ghost var withCounts := r.value;
    r := PushAll(r.value, node.keys);
    if r.Err? { return; }
    r := PushAll(r.value, node.valuesOrChildren);
    if r.Err? { return; }
    ghost var ks, vs := Fields(node.keys), Fields(node.valuesOrChildren);
    ghost var kc, vc := LeBytes(|node.keys|, 2), LeBytes(|node.valuesOrChildren|, 2);
    ConcatAssociative(withCounts, ks, vs);
    ConcatAssociative(withKeyCount, vc, ks + vs);
    ConcatAssociative(withLsn, kc, vc + (ks + vs));
    ConcatAssociative(withId, LeBytes(node.pageLsn, 8), Body(node));
    ConcatAssociative(start, LeBytes(node.pageId, 8), LeBytes(node.pageLsn, 8) + Body(node));
  }

  method Encode(node: Node) returns (r: Result<seq<Byte>, CodecError>)
    ensures r.Ok? <==> 25 + FieldsSize(node.keys) + FieldsSize(node.valuesOrChildren) <= 16384
    ensures r.Ok? ==> Represents(r.value, node)
    ensures r.Ok? ==> r.value[4] == if node.isLeaf then 1 else 0
    ensures r.Ok? ==> forall i :: EncodedSize(node) <= i < PAGE_SIZE ==> r.value[i] == 0
  {
    EncodedSizeIsLength(node);
    r := EncodeUnpadded(node);
    if r.Err? { return; }
    var encoded := r.value;
    if |encoded| > PAGE_SIZE {
      return Err(HarnessFailed);
    }
    var padding: seq<Byte> := seq(PAGE_SIZE - |encoded|, _ => 0);
    ConcatAssociative(MAGIC + [if node.isLeaf then 1 else 0], Tail(node), padding);
    var page := encoded + padding;
    assert page[5..] == Tail(node) + padding;
    return Ok(page);
  }

  // ---------------------------------------------------------------- parser

  method ReadU16(bytes: seq<Byte>, offset: nat) returns (r: Result<(nat, nat), CodecError>)
    ensures r.Ok? <==> offset + 2 <= |bytes|
    ensures r.Ok? ==> r.value.1 == offset + 2 && r.value.0 <= U16_MAX
    ensures r.Ok? ==> LeBytes(r.value.0, 2) <= bytes[offset..]
  {
    if offset + 2 > |bytes| {
      return Err(HarnessFailed);
    }
    var field := bytes[offset..offset + 2];
    LeBytesOfFromLe(field);
    Pow256Values();
    return Ok((FromLe(field), offset + 2));
  }

  method ReadU64(bytes: seq<Byte>, offset: nat) returns (r: Result<U64, CodecError>)
    ensures r.Ok? <==> offset + 8 <= |bytes|
    ensures r.Ok? ==> LeBytes(r.value, 8) <= bytes[offset..]
  {
    if offset + 8 > |bytes| {
      return Err(HarnessFailed);
    }
    var field := bytes[offset..offset + 8];
    LeBytesOfFromLe(field);
    Pow256Values();
    return Ok(FromLe(field));
  }

  method ReadBytes(bytes: seq<Byte>, offset: nat) returns (r: Result<(seq<Byte>, nat), CodecError>)
    ensures r.Ok? ==> r.value.1 == offset + 2 + |r.value.0| <= |bytes| && |r.value.0| <= U16_MAX
    ensures r.Ok? ==> Field(r.value.0) <= bytes[offset..]
    ensures r.Err? && offset <= |bytes| ==> forall f: seq<Byte> :: |f| <= U16_MAX ==> !(Field(f) <= bytes[offset..])
  {
    var len := ReadU16(bytes, offset);
    if len.Err? {
      return Err(HarnessFailed);
    }
    var (n, at) := len.value;
    if at + n > |bytes| {
      forall f: seq<Byte> | |f| <= U16_MAX ensures !(Field(f) <= bytes[offset..]) {
        if Field(f) <= bytes[offset..] {
          PrefixSplit(LeBytes(|f|, 2), f, bytes[offset..]);
          SameU16(|f|, n, bytes[offset..]);
        }
      }
      return Err(HarnessFailed);
    }
    var content := bytes[at..at + n];
    DropDrop(bytes, offset, 2);
    assert content == bytes[at..][..n];
    PrefixOfTake(bytes[at..], n);
    PrefixJoin(LeBytes(n, 2), content, bytes[offset..]);
    return Ok((content, at + n));
  }

  lemma NoNextField(out: seq<seq<Byte>>, count: nat, bytes: seq<Byte>)
    requires |bytes| <= U16_MAX && |out| < count && Fields(out) <= bytes
    requires forall f: seq<Byte> :: |f| <= U16_MAX ==> !(Field(f) <= bytes[|Fields(out)|..])
    ensures NoFields(bytes, count)
  {
    forall fs: seq<seq<Byte>> | |fs| == count ensures !(Fields(fs) <= bytes) {
      if Fields(fs) <= bytes {
        NextField(out, fs, bytes);
      }
    }
  }

  lemma AppendField(out: seq<seq<Byte>>, f: seq<Byte>, bytes: seq<Byte>)
    requires Fields(out) <= bytes && Field(f) <= bytes[|Fields(out)|..]
    ensures Fields(out + [f]) <= bytes && |Fields(out + [f])| == |Fields(out)| + 2 + |f|
  {
    FieldsAppend(out, f);
    PrefixJoin(Fields(out), Field(f), bytes);
  }

  /** One of the two loops of the parser. It fails only where no list of `count` fields starts at `start`. */
  method ReadAll(bytes: seq<Byte>, start: nat, count: nat) returns (r: Result<(seq<seq<Byte>>, nat), CodecError>)
    requires |bytes| <= U16_MAX && start <= |bytes|
    ensures r.Ok? ==> |r.value.0| == count && Fields(r.value.0) <= bytes[start..]
    ensures r.Ok? ==> r.value.1 == start + |Fields(r.value.0)|
    ensures r.Err? ==> NoFields(bytes[start..], count)
  {
    var offset := start;
    var out: seq<seq<Byte>> := [];
    for i := 0 to count
      invariant |out| == i && Fields(out) <= bytes[start..]
      invariant offset == start + |Fields(out)|
    {
      var field := ReadBytes(bytes, offset);
      assert bytes[start..][|Fields(out)|..] == bytes[offset..] by { DropDrop(bytes, start, |Fields(out)|); }
      if field.Err? {
        NoNextField(out, count, bytes[start..]);
        return Err(HarnessFailed);
      }
      AppendField(out, field.value.0, bytes[start..]);
      out := out + [field.value.0];
      offset := field.value.1;
    }
    return Ok((out, offset));
  }

  method Decode(page: seq<Byte>) returns (r: Result<Node, CodecError>)
    ensures forall node :: r == Ok(node) <==> Represents(page, node)
  {
    if |page| != PAGE_SIZE || page[..4] != MAGIC {
      return Err(HarnessFailed);
    }
    var isLeaf := page[4] == 1;
    var pageId := ReadU64(page, 5);
    var pageLsn := ReadU64(page, 13);
    var keyCount := ReadU16(page, 21);
    var valueCount := ReadU16(page, 23);
    var lists := ReadLists(page, keyCount.value.0, valueCount.value.0);
    if lists.Err? {
      NoListsNoNode(page, keyCount.value.0, valueCount.value.0);
      return Err(HarnessFailed);
    }
    var node := Node(pageId.value, pageLsn.value, lists.value.0, lists.value.1, isLeaf);
    PartsRepresent(page, node);
    OnlyRepresentation(page, node);
    return Ok(node);
  }

  /** The parser's two loops, one behind the other. */
  method ReadLists(page: seq<Byte>, keyCount: nat, valueCount: nat)
    returns (r: Result<(seq<seq<Byte>>, seq<seq<Byte>>), CodecError>)
    requires |page| == PAGE_SIZE
    ensures r.Ok? ==> HasLists(page, r.value.0, r.value.1) && |r.value.0| == keyCount && |r.value.1| == valueCount
    ensures r.Err? ==> NoLists(page, keyCount, valueCount)
  {
    var keys := ReadAll(page, HEADER_SIZE, keyCount);
    if keys.Err? {
      return Err(HarnessFailed);
    }
    var values := ReadAll(page, keys.value.1, valueCount);
    if values.Err? {
      NoValuesNoLists(page, keys.value.0, valueCount);
      return Err(HarnessFailed);
    }
    return Ok((keys.value.0, values.value.0));
  }

  ghost predicate HasLists(page: seq<Byte>, keys: seq<seq<Byte>>, values: seq<seq<Byte>>)
    requires |page| == PAGE_SIZE
  {
    && Fields(keys) <= page[HEADER_SIZE..]
    && Fields(values) <= page[HEADER_SIZE + |Fields(keys)|..]
  }

  ghost predicate NoLists(page: seq<Byte>, keyCount: nat, valueCount: nat)
    requires |page| == PAGE_SIZE
  {
    forall ks: seq<seq<Byte>>, vs: seq<seq<Byte>> :: |ks| == keyCount && |vs| == valueCount ==> !HasLists(page, ks, vs)
  }

  // ---------------------------------------------------------------- theorems

  /** The relation field by field, at the offsets the parser visits. */
  ghost predicate HasParts(page: seq<Byte>, node: Node)
    requires |page| == PAGE_SIZE
  {
    && LeBytes(node.pageId, 8) <= page[5..]
    && LeBytes(node.pageLsn, 8) <= page[13..]
    && LeBytes(|node.keys|, 2) <= page[21..]
    && LeBytes(|node.valuesOrChildren|, 2) <= page[23..]
    && |node.keys| <= U16_MAX && |node.valuesOrChildren| <= U16_MAX
    && HasLists(page, node.keys, node.valuesOrChildren)
  }

  lemma RepresentsParts(page: seq<Byte>, node: Node)
    requires Represents(page, node)
    ensures HasParts(page, node)
  {
    EncodedSizeIsLength(node);
    var ks, vs := Fields(node.keys), Fields(node.valuesOrChildren);
    PrefixSplit(LeBytes(node.pageId, 8), LeBytes(node.pageLsn, 8) + Body(node), page[5..]);
    DropDrop(page, 5, 8);
    PrefixSplit(LeBytes(node.pageLsn, 8), Body(node), page[13..]);
    DropDrop(page, 13, 8);
    PrefixSplit(LeBytes(|node.keys|, 2), LeBytes(|node.valuesOrChildren|, 2) + (ks + vs), page[21..]);
    DropDrop(page, 21, 2);
    PrefixSplit(LeBytes(|node.valuesOrChildren|, 2), ks + vs, page[23..]);
    DropDrop(page, 23, 2);
    PrefixSplit(ks, vs, page[25..]);
    DropDrop(page, 25, |ks|);
  }

  lemma PartsRepresent(page: seq<Byte>, node: Node)
    requires |page| == PAGE_SIZE && page[..4] == MAGIC
    requires page[4] == 1 <==> node.isLeaf
    requires HasParts(page, node)
    ensures Represents(page, node)
  {
    var ks, vs := Fields(node.keys), Fields(node.valuesOrChildren);
    DropDrop(page, 25, |ks|);
    PrefixJoin(ks, vs, page[25..]);
    DropDrop(page, 23, 2);
    PrefixJoin(LeBytes(|node.valuesOrChildren|, 2), ks + vs, page[23..]);
    DropDrop(page, 21, 2);
    PrefixJoin(LeBytes(|node.keys|, 2), LeBytes(|node.valuesOrChildren|, 2) + (ks + vs), page[21..]);
    DropDrop(page, 13, 8);
    PrefixJoin(LeBytes(node.pageLsn, 8), Body(node), page[13..]);
    DropDrop(page, 5, 8);
    PrefixJoin(LeBytes(node.pageId, 8), LeBytes(node.pageLsn, 8) + Body(node), page[5..]);
  }

  /** There is one list of keys only, so the values can be looked for behind it. */
  lemma NoValuesNoLists(page: seq<Byte>, keys: seq<seq<Byte>>, valueCount: nat)
    requires |page| == PAGE_SIZE && Fields(keys) <= page[HEADER_SIZE..]
    requires NoFields(page[HEADER_SIZE + |Fields(keys)|..], valueCount)
    ensures NoLists(page, |keys|, valueCount)
  {
    forall ks: seq<seq<Byte>>, vs: seq<seq<Byte>> | |ks| == |keys| && |vs| == valueCount
        ensures !HasLists(page, ks, vs) {
      if HasLists(page, ks, vs) {
        ValuesAreBehindKeys(page, keys, ks, vs);
      }
    }
  }

  lemma ValuesAreBehindKeys(page: seq<Byte>, keys: seq<seq<Byte>>, ks: seq<seq<Byte>>, vs: seq<seq<Byte>>)
    requires |page| == PAGE_SIZE && Fields(keys) <= page[HEADER_SIZE..]
    requires |ks| == |keys| && HasLists(page, ks, vs)
    ensures Fields(vs) <= page[HEADER_SIZE + |Fields(keys)|..]
  {
    FieldsAgree(ks, keys, page[HEADER_SIZE..]);
    assert keys[..|keys|] == keys;
  }

  lemma NoListsNoNode(page: seq<Byte>, keyCount: nat, valueCount: nat)
    requires |page| == PAGE_SIZE && keyCount <= U16_MAX && valueCount <= U16_MAX
    requires LeBytes(keyCount, 2) <= page[21..] && LeBytes(valueCount, 2) <= page[23..]
    requires NoLists(page, keyCount, valueCount)
    ensures forall node :: !Represents(page, node)
  {
    forall node ensures !Represents(page, node) {
      if Represents(page, node) {
        RepresentsParts(page, node);
        SameU16(|node.keys|, keyCount, page[21..]);
        SameU16(|node.valuesOrChildren|, valueCount, page[23..]);
      }
    }
  }

  /** No `count` fields stand at the start of `bytes`. */
  ghost predicate NoFields(bytes: seq<Byte>, count: nat)
  {
    forall fs: seq<seq<Byte>> :: |fs| == count ==> !(Fields(fs) <= bytes)
  }

  /** The number stored little-endian in the `k` bytes from `at` on. */
  ghost predicate StoresLe(page: seq<Byte>, at: nat, k: nat, n: nat)
  {
    at + k <= |page| && FromLe(page[at..at + k]) == n
  }

  lemma LeBytesStored(page: seq<Byte>, at: nat, k: nat, n: nat)
    requires at + k <= |page| && n < Pow256(k) && LeBytes(n, k) <= page[at..]
    ensures StoresLe(page, at, k, n)
  {
    assert page[at..at + k] == LeBytes(n, k);
    FromLeOfLeBytes(n, k);
  }

  /** Where field `i` of a list stands. */
  lemma {:induction false} FieldStandsAt(fs: seq<seq<Byte>>, i: nat, bytes: seq<Byte>)
    requires i < |fs| && Fields(fs) <= bytes
    ensures FieldsSize(fs[..i]) <= |bytes| && Field(fs[i]) <= bytes[FieldsSize(fs[..i])..]
  {
    var first := Field(fs[0]);
    PrefixSplit(first, Fields(fs[1..]), bytes);
    if i == 0 {
      assert fs[..0] == [] && bytes[0..] == bytes;
    } else {
      FieldStandsAt(fs[1..], i - 1, bytes[|first|..]);
      SizeOfFirst(fs, i);
      DropDrop(bytes, |first|, FieldsSize(fs[1..][..i - 1]));
    }
  }

  lemma SizeOfFirst(fs: seq<seq<Byte>>, i: nat)
    requires 0 < i < |fs|
    ensures FieldsSize(fs[..i]) == |Field(fs[0])| + FieldsSize(fs[1..][..i - 1])
  {
    assert fs[..i][1..] == fs[1..][..i - 1];
  }

  /** The two length bytes of a field and its content. */
  lemma FieldStored(f: seq<Byte>, page: seq<Byte>, at: nat)
    requires at <= |page| <= 0x1_0000 && Field(f) <= page[at..]
    ensures StoresLe(page, at, 2, |f|) && at + 2 + |f| <= |page| && page[at + 2..at + 2 + |f|] == f
  {
    PrefixSplit(LeBytes(|f|, 2), f, page[at..]);
    DropDrop(page, at, 2);
    Pow256Values();
    LeBytesStored(page, at, 2, |f|);
  }

  /** The layout in numbers: what stands where on a page. */
  lemma PageLayout(page: seq<Byte>, node: Node)
    requires Represents(page, node)
    ensures |page| == 16384 && page[..4] == [0x41, 0x42, 0x54, 0x4E]
    ensures StoresLe(page, 5, 8, node.pageId) && StoresLe(page, 13, 8, node.pageLsn)
    ensures StoresLe(page, 21, 2, |node.keys|) && StoresLe(page, 23, 2, |node.valuesOrChildren|)
    ensures Fields(node.keys) <= page[25..]
    ensures 25 + FieldsSize(node.keys) <= |page|
    ensures Fields(node.valuesOrChildren) <= page[25 + FieldsSize(node.keys)..]
  {
    RepresentsParts(page, node);
    Pow256Values();
    LeBytesStored(page, 5, 8, node.pageId);
    LeBytesStored(page, 13, 8, node.pageLsn);
    LeBytesStored(page, 21, 2, |node.keys|);
    LeBytesStored(page, 23, 2, |node.valuesOrChildren|);
    FieldsSizeIsLength(node.keys);
  }

  /** No page holds two different nodes: the layout needs no separators. */
  lemma RepresentationIsUnique(page: seq<Byte>, a: Node, b: Node)
    requires Represents(page, a) && Represents(page, b)
    ensures a == b
  {
    RepresentsParts(page, a);
    RepresentsParts(page, b);
    SameU64(a.pageId, b.pageId, page[5..]);
    SameU64(a.pageLsn, b.pageLsn, page[13..]);
    SameU16(|a.keys|, |b.keys|, page[21..]);
    SameU16(|a.valuesOrChildren|, |b.valuesOrChildren|, page[23..]);
    FieldsAgree(a.keys, b.keys, page[HEADER_SIZE..]);
    assert b.keys[..|b.keys|] == b.keys;
    FieldsAgree(a.valuesOrChildren, b.valuesOrChildren, page[HEADER_SIZE + |Fields(a.keys)|..]);
  }

  lemma OnlyRepresentation(page: seq<Byte>, node: Node)
    requires Represents(page, node)
    ensures forall other :: Represents(page, other) <==> other == node
  {
    forall other ensures Represents(page, other) <==> other == node {
      if Represents(page, other) {
        RepresentationIsUnique(page, node, other);
      }
    }
  }

  /** Encode, then decode: the node comes back whenever it fits on a page, however many fields it has. */
  method RoundTrip(node: Node) returns (r: Result<Node, CodecError>)
    ensures r == if EncodedSize(node) <= PAGE_SIZE then Ok(node) else Err(HarnessFailed)
  {
    var encoded := Encode(node);
    if encoded.Err? {
      return Err(HarnessFailed);
    }
    r := Decode(encoded.value);
    assert r == Ok(node);
  }

  /**
   Decode, then encode: every accepted page is accepted again as the same node. The
   new page repeats each byte the parser consumed except the leaf flag, which becomes
   0 or 1, and is zero from there on.
   */
  method Reencode(page: seq<Byte>) returns (r: Result<seq<Byte>, CodecError>)
    ensures r.Ok? <==> exists node :: Represents(page, node)
    ensures forall node :: r.Ok? && Represents(page, node) ==>
              Represents(r.value, node) && Canonical(page, r.value, node)
  {
    var decoded := Decode(page);
    if decoded.Err? {
      return Err(HarnessFailed);
    }
    assert decoded == Ok(decoded.value);
    EncodedSizeIsLength(decoded.value);
    r := Encode(decoded.value);
    forall node | Represents(page, node) ensures Canonical(page, r.value, node) {
      assert decoded == Ok(node);
      SameBytes(page, r.value, node);
    }
  }

  /** `again` is `page` with the leaf flag normalised and everything behind the node cleared. */
  ghost predicate Canonical(page: seq<Byte>, again: seq<Byte>, node: Node)
  {
    && |page| == |again| == PAGE_SIZE
    && (forall i :: 0 <= i < EncodedSize(node) && i < PAGE_SIZE && i != 4 ==> again[i] == page[i])
    && again[4] == (if page[4] == 1 then 1 else 0)
    && (forall i :: EncodedSize(node) <= i < PAGE_SIZE ==> again[i] == 0)
  }

  lemma SameBytes(page: seq<Byte>, again: seq<Byte>, node: Node)
    requires Represents(page, node) && Represents(again, node)
    ensures forall i :: 0 <= i < EncodedSize(node) && i != 4 ==> i < PAGE_SIZE && again[i] == page[i]
  {
    EncodedSizeIsLength(node);
    forall i | 0 <= i < EncodedSize(node) && i != 4
      ensures i < PAGE_SIZE && again[i] == page[i]
    {
      if i < 4 {
        assert page[..4][i] == again[..4][i];
      } else {
        assert page[5..][i - 5] == Tail(node)[i - 5] == again[5..][i - 5];
      }
    }
  }
}
