/**
 * The flattened device tree (`src/fdt.ts`): a tree serialised into a header, an empty reserve map,
 * a struct block of big-endian tokens and a block of shared property names (Devicetree
 * Specification v0.4, sections 5.2 to 5.6).
 *
 * The functions give the bytes; the methods are the source's loops that append them. `Decode` is a
 * reader of such blobs (the one in `src/fdt.test.ts`), and `RoundTrip` says that it returns the tree
 * that was flattened.
 */
module DeviceTree {
  import opened Bytes
  import opened Common

  datatype Property = Property(name: string, value: seq<Byte>)
  datatype Node = Node(name: string, properties: seq<Property>, children: seq<Node>)

  const MAGIC: int := 0xd00dfeed
  const BEGIN_NODE: int := 1
  const END_NODE: int := 2
  const PROP: int := 3
  const END: int := 9
  const HEADER_SIZE: nat := 40
  const RESERVE_ENTRY_SIZE: nat := 16
  const TWO_TO_32: int := Bytes.TWO_TO_32

  /** A multiple of 4, counted down so that sums need `AlignedSum` and nothing else. */
  predicate Aligned(n: nat) { n == 0 || (n >= 4 && Aligned(n - 4)) }

  lemma {:induction false} AlignedIsMultiple(n: nat)
    ensures Aligned(n) <==> n % 4 == 0
  {
    if n >= 4 {
      AlignedIsMultiple(n - 4);
    }
  }

  lemma {:induction false} AlignedSum(a: nat, b: nat)
    requires Aligned(a) && Aligned(b)
    ensures Aligned(a + b)
  {
    if a > 0 {
      AlignedSum(a - 4, b);
    }
  }

  // ---------- Encoding ----------

  /** Big-endian, modulo 2^32. */
  function U32(value: int): (bytes: seq<Byte>)
    ensures |bytes| == 4
  {
    [value / 0x100_0000 % 256, value / 0x1_0000 % 256, value / 0x100 % 256, value % 256]
  }

  function CString(text: string): (bytes: seq<Byte>)
    ensures |bytes| == |text| + 1
  {
    seq(|text|, i requires 0 <= i < |text| => text[i] as int % 256) + [0]
  }

  function Pad4(bytes: seq<Byte>): (padded: seq<Byte>)
    ensures Aligned(|padded|) && bytes <= padded && |padded| < |bytes| + 4
  {
    AlignedIsMultiple(|bytes| + (4 - |bytes| % 4) % 4);
    bytes + seq((4 - |bytes| % 4) % 4, _ => 0)
  }

  function AddName(names: seq<string>, name: string): seq<string> {
    if name in names then names else names + [name]
  }

  function PropertyNames(properties: seq<Property>, names: seq<string>): seq<string> {
    if properties == [] then names else PropertyNames(properties[1..], AddName(names, properties[0].name))
  }

  /** Property names of a tree in tree order, each once, after those in `names`. */
  function TreeNames(node: Node, names: seq<string>): seq<string>
    decreases node, 1
  {
    ForestNames(node.children, PropertyNames(node.properties, names))
  }

  function ForestNames(nodes: seq<Node>, names: seq<string>): seq<string>
    decreases nodes, 0
  {
    if nodes == [] then names else ForestNames(nodes[1..], TreeNames(nodes[0], names))
  }

  function Strings(names: seq<string>): seq<Byte> {
    if names == [] then [] else CString(names[0]) + Strings(names[1..])
  }

  /** Each name's position in the strings block, when the block starts at `start`. */
  function Offsets(names: seq<string>, start: nat): map<string, nat> {
    if names == [] then map[]
    else map[names[0] := start] + Offsets(names[1..], start + |names[0]| + 1)
  }

  predicate Named(properties: seq<Property>, offsets: map<string, nat>) {
    forall i :: 0 <= i < |properties| ==> properties[i].name in offsets
  }

  predicate TreeNamed(node: Node, offsets: map<string, nat>)
    decreases node, 1
  {
    Named(node.properties, offsets) && ForestNamed(node.children, offsets)
  }

  predicate ForestNamed(nodes: seq<Node>, offsets: map<string, nat>)
    decreases nodes, 0
  {
    nodes == [] || (TreeNamed(nodes[0], offsets) && ForestNamed(nodes[1..], offsets))
  }

  function PropertyBytes(p: Property, offset: nat): (bytes: seq<Byte>)
    ensures Aligned(|bytes|)
  {
    AlignedSum(12, |Pad4(p.value)|);
    U32(PROP) + U32(|p.value|) + U32(offset) + Pad4(p.value)
  }

  function PropertiesBytes(properties: seq<Property>, offsets: map<string, nat>): (bytes: seq<Byte>)
    requires Named(properties, offsets)
    ensures Aligned(|bytes|)
  {
    if properties == [] then []
    else
      NamedTail(properties, offsets);
      var first, rest := PropertyBytes(properties[0], offsets[properties[0].name]),
          PropertiesBytes(properties[1..], offsets);
      AlignedSum(|first|, |rest|);
      first + rest
  }

  lemma NamedTail(properties: seq<Property>, offsets: map<string, nat>)
    requires properties != []
    ensures Named(properties, offsets) <==> properties[0].name in offsets && Named(properties[1..], offsets)
  {
    assert forall i :: 0 <= i < |properties| - 1 ==> properties[1..][i] == properties[i + 1];
    if properties[0].name in offsets && Named(properties[1..], offsets) {
      forall i | 0 <= i < |properties| ensures properties[i].name in offsets {
        assert i > 0 ==> properties[i] == properties[1..][i - 1];
      }
    }
  }

  function NodeHead(name: string): (bytes: seq<Byte>)
    ensures Aligned(|bytes|)
  {
    AlignedSum(4, |Pad4(CString(name))|);
    U32(BEGIN_NODE) + Pad4(CString(name))
  }

  /** Every token of a node sits at a multiple of 4 from the node's start, because every part has such a length. */
  function TreeBytes(node: Node, offsets: map<string, nat>): (bytes: seq<Byte>)
    requires TreeNamed(node, offsets)
    ensures Aligned(|bytes|)
    decreases node, 1
  {
    var head, own, below := NodeHead(node.name), PropertiesBytes(node.properties, offsets),
        ForestBytes(node.children, offsets);
    AlignedSum(|below|, 4);
    AlignedSum(|own|, |below| + 4);
    AlignedSum(|head|, |own| + |below| + 4);
    head + (own + (below + U32(END_NODE)))
  }

  function ForestBytes(nodes: seq<Node>, offsets: map<string, nat>): (bytes: seq<Byte>)
    requires ForestNamed(nodes, offsets)
    ensures Aligned(|bytes|)
    decreases nodes, 0
  {
    if nodes == [] then []
    else
      var first, rest := TreeBytes(nodes[0], offsets), ForestBytes(nodes[1..], offsets);
      AlignedSum(|first|, |rest|);
      first + rest
  }

  function Header(structSize: nat, stringsSize: nat): (bytes: seq<Byte>)
    ensures |bytes| == HEADER_SIZE
  {
    var offStruct := HEADER_SIZE + RESERVE_ENTRY_SIZE;
    U32(MAGIC) + U32(offStruct + structSize + stringsSize) + U32(offStruct) + U32(offStruct + structSize)
    + U32(HEADER_SIZE) + U32(17) + U32(16) + U32(0) + U32(stringsSize) + U32(structSize)
  }

  /** The reserve map's only entry, the all-zero terminator. */
  function EmptyReserve(): (bytes: seq<Byte>)
    ensures |bytes| == RESERVE_ENTRY_SIZE && forall i :: 0 <= i < |bytes| ==> bytes[i] == 0
  {
    seq(RESERVE_ENTRY_SIZE, _ => 0)
  }

  function StructBlock(root: Node): (bytes: seq<Byte>)
    ensures Aligned(|bytes|)
  {
    var offsets := Offsets(TreeNames(root, []), 0);
    TreeIsNamed(root);
    AlignedSum(|TreeBytes(root, offsets)|, 4);
    TreeBytes(root, offsets) + U32(END)
  }

  function Flattened(root: Node): seq<Byte> {
    var strings := Strings(TreeNames(root, []));
    Header(|StructBlock(root)|, |strings|) + EmptyReserve() + StructBlock(root) + strings
  }

  // ---------- Every property name has a string ----------

  lemma {:induction false} PropertyNamesCover(properties: seq<Property>, names: seq<string>)
    requires Distinct(names)
    ensures var all := PropertyNames(properties, names);
            Distinct(all) && names <= all && forall i :: 0 <= i < |properties| ==> properties[i].name in all
  {
    if properties != [] {
      var first := AddName(names, properties[0].name);
      PropertyNamesCover(properties[1..], first);
      var all := PropertyNames(properties, names);
      assert properties[0].name in first && first <= all;
      forall i | 0 <= i < |properties| ensures properties[i].name in all {
        if i > 0 {
          assert properties[i] == properties[1..][i - 1];
        } else {
          var k :| 0 <= k < |first| && first[k] == properties[0].name;
          assert all[k] == properties[0].name;
        }
      }
    }
  }

  lemma NamedMonotone(properties: seq<Property>, names: seq<string>, more: seq<string>)
    requires names <= more && forall i :: 0 <= i < |properties| ==> properties[i].name in names
    ensures forall i :: 0 <= i < |properties| ==> properties[i].name in more
  {
    forall i | 0 <= i < |properties| ensures properties[i].name in more {
      var k :| 0 <= k < |names| && names[k] == properties[i].name;
      assert more[k] == properties[i].name;
    }
  }

  lemma {:induction false} OffsetsKeys(names: seq<string>, start: nat)
    ensures forall name :: name in Offsets(names, start) <==> name in names
  {
    if names != [] {
      OffsetsKeys(names[1..], start + |names[0]| + 1);
    }
  }

  lemma {:induction false} TreeNamesCover(node: Node, names: seq<string>, offsets: map<string, nat>)
    requires Distinct(names)
    ensures var all := TreeNames(node, names);
            Distinct(all) && names <= all
                && ((forall name :: name in all ==> name in offsets) ==> TreeNamed(node, offsets))
    decreases node, 1
  {
    var own := PropertyNames(node.properties, names);
    PropertyNamesCover(node.properties, names);
    ForestNamesCover(node.children, own, offsets);
    NamedMonotone(node.properties, own, TreeNames(node, names));
  }

  lemma {:induction false} ForestNamesCover(nodes: seq<Node>, names: seq<string>, offsets: map<string, nat>)
    requires Distinct(names)
    ensures var all := ForestNames(nodes, names);
            Distinct(all) && names <= all
                && ((forall name :: name in all ==> name in offsets) ==> ForestNamed(nodes, offsets))
    decreases nodes, 0
  {
    if nodes != [] {
      var first := TreeNames(nodes[0], names);
      TreeNamesCover(nodes[0], names, offsets);
      ForestNamesCover(nodes[1..], first, offsets);
      var all := ForestNames(nodes, names);
      assert forall name :: name in first ==> name in all by {
        assert forall k :: 0 <= k < |first| ==> all[k] == first[k];
      }
    }
  }

  /** Emitting a tree with the offsets of its own names never meets a missing string. */
  lemma TreeIsNamed(root: Node)
    ensures TreeNamed(root, Offsets(TreeNames(root, []), 0))
  {
    OffsetsKeys(TreeNames(root, []), 0);
    TreeNamesCover(root, [], Offsets(TreeNames(root, []), 0));
  }

  // ---------- The loops of the source ----------

  /** `collectNames`: append the property names of a tree that are not yet listed. */
  method CollectNames(node: Node, initial: seq<string>) returns (names: seq<string>)
    ensures names == TreeNames(node, initial)
    decreases node
  {
    names := initial;
    for i := 0 to |node.properties|
      invariant PropertyNames(node.properties[i..], names) == PropertyNames(node.properties, initial)
    {
      if node.properties[i].name !in names {
        names := names + [node.properties[i].name];
      }
    }
    ghost var own := names;
    for i := 0 to |node.children|
      invariant ForestNames(node.children[i..], names) == ForestNames(node.children, own)
    {
      names := CollectNames(node.children[i], names);
    }
  }

  lemma Assoc<T>(a: seq<T>, b: seq<T>, c: seq<T>)
    ensures (a + b) + c == a + (b + c)
  {
  }

  lemma MapAssoc(m: map<string, nat>, name: string, offset: nat, rest: map<string, nat>)
    ensures m[name := offset] + rest == m + (map[name := offset] + rest)
  {
  }

  /** `stringBlock`: the names as consecutive C strings and the offset of each. */
  method StringBlock(names: seq<string>) returns (bytes: seq<Byte>, offsetOf: map<string, nat>)
    ensures bytes == Strings(names) && offsetOf == Offsets(names, 0)
  {
    bytes, offsetOf := [], map[];
    var offset := 0;
    for i := 0 to |names|
      invariant offset == |bytes| && bytes + Strings(names[i..]) == Strings(names)
      invariant offsetOf + Offsets(names[i..], offset) == Offsets(names, 0)
    {
      var encoded := CString(names[i]);
      assert names[i..][1..] == names[i + 1..] && names[i..][0] == names[i];
      MapAssoc(offsetOf, names[i], offset, Offsets(names[i + 1..], offset + |encoded|));
      Assoc(bytes, encoded, Strings(names[i + 1..]));
      offsetOf := offsetOf[names[i] := offset];
      bytes := bytes + encoded;
      offset := offset + |encoded|;
    }
    assert names[|names|..] == [];
    assert bytes + [] == bytes && offsetOf + map[] == offsetOf;
  }

  lemma PropertiesBytesStep(properties: seq<Property>, i: nat, offsetOf: map<string, nat>, parts: seq<Byte>)
    requires i < |properties| && Named(properties[i..], offsetOf)
    ensures properties[i].name in offsetOf && Named(properties[i + 1..], offsetOf)
    ensures parts + PropertiesBytes(properties[i..], offsetOf)
            == (parts + PropertyBytes(properties[i], offsetOf[properties[i].name]))
               + PropertiesBytes(properties[i + 1..], offsetOf)
  {
    NamedTail(properties[i..], offsetOf);
    assert properties[i..][1..] == properties[i + 1..] && properties[i..][0] == properties[i];
    Assoc(parts, PropertyBytes(properties[i], offsetOf[properties[i].name]),
        PropertiesBytes(properties[i + 1..], offsetOf));
  }

  method EmitProperties(properties: seq<Property>, offsetOf: map<string, nat>, initial: seq<Byte>)
    returns (ok: bool, parts: seq<Byte>)
    ensures ok == Named(properties, offsetOf)
    ensures ok ==> parts == initial + PropertiesBytes(properties, offsetOf)
  {
    parts := initial;
    for i := 0 to |properties|
      invariant Named(properties[..i], offsetOf)
      invariant Named(properties, offsetOf) ==>
          && Named(properties[i..], offsetOf)
          && parts + PropertiesBytes(properties[i..], offsetOf) == initial + PropertiesBytes(properties, offsetOf)
    {
      var p := properties[i];
      if p.name !in offsetOf {
        return false, parts;
      }
      if Named(properties, offsetOf) {
        PropertiesBytesStep(properties, i, offsetOf, parts);
      }
      parts := parts + PropertyBytes(p, offsetOf[p.name]);
    }
    assert properties[..|properties|] == properties;
    assert parts + [] == parts;
    ok := true;
  }

  lemma ForestBytesStep(nodes: seq<Node>, i: nat, offsetOf: map<string, nat>, parts: seq<Byte>)
    requires i < |nodes|
    ensures ForestNamed(nodes[i..], offsetOf)
            <==> TreeNamed(nodes[i], offsetOf) && ForestNamed(nodes[i + 1..], offsetOf)
    ensures ForestNamed(nodes[i..], offsetOf) ==>
              parts + ForestBytes(nodes[i..], offsetOf)
                  == (parts + TreeBytes(nodes[i], offsetOf)) + ForestBytes(nodes[i + 1..], offsetOf)
  {
    assert nodes[i..][1..] == nodes[i + 1..] && nodes[i..][0] == nodes[i];
    if ForestNamed(nodes[i..], offsetOf) {
      Assoc(parts, TreeBytes(nodes[i], offsetOf), ForestBytes(nodes[i + 1..], offsetOf));
    }
  }

  /** `emitNode`: append a node's bytes, or stop at the first property whose name has no string. */
  method EmitNode(node: Node, offsetOf: map<string, nat>, initial: seq<Byte>) returns (ok: bool, parts: seq<Byte>)
    ensures ok == TreeNamed(node, offsetOf)
    ensures ok ==> parts == initial + TreeBytes(node, offsetOf)
    decreases node
  {
    ok, parts := EmitProperties(node.properties, offsetOf, initial + NodeHead(node.name));
    if !ok {
      return;
    }
    ghost var own := parts;
    for i := 0 to |node.children|
      invariant ForestNamed(node.children, offsetOf) == ForestNamed(node.children[i..], offsetOf)
      invariant ForestNamed(node.children, offsetOf) ==>
          parts + ForestBytes(node.children[i..], offsetOf) == own + ForestBytes(node.children, offsetOf)
    {
      ForestBytesStep(node.children, i, offsetOf, parts);
      ok, parts := EmitNode(node.children[i], offsetOf, parts);
      if !ok {
        return;
      }
    }
    assert parts + [] == parts;
    parts := parts + U32(END_NODE);
    ok := true;
    Assoc(own, ForestBytes(node.children, offsetOf), U32(END_NODE));
    Assoc(initial + NodeHead(node.name), PropertiesBytes(node.properties, offsetOf),
        ForestBytes(node.children, offsetOf) + U32(END_NODE));
    Assoc(initial, NodeHead(node.name),
          PropertiesBytes(node.properties, offsetOf) + (ForestBytes(node.children, offsetOf) + U32(END_NODE)));
  }

  /** `flatten`: the whole blob. It cannot fail. */
  method Flatten(root: Node) returns (blob: seq<Byte>)
    ensures blob == Flattened(root)
  {
    hide U32, Header, Strings, Offsets, TreeBytes, Aligned;
    var names := CollectNames(root, []);
    OffsetsKeys(names, 0);
    TreeNamesCover(root, [], Offsets(names, 0));
    var strings, offsetOf := StringBlock(names);
    TreeIsNamed(root);
    var ok, struct := EmitNode(root, offsetOf, []);
    struct := struct + U32(END);
    assert struct == StructBlock(root);
    blob := Header(|struct|, |strings|) + EmptyReserve() + struct + strings;
  }

  // ---------- Reading ----------

  function ReadU32(blob: seq<Byte>, at: nat): Option<nat> {
    if at + 4 > |blob| then None
    else Some(Cell(blob[at], blob[at + 1], blob[at + 2], blob[at + 3]))
  }

  function Cell(a: nat, b: nat, c: nat, d: nat): nat { a * 0x100_0000 + b * 0x1_0000 + c * 0x100 + d }

  /** ASCII text up to the NUL. */
  function ReadText(blob: seq<Byte>, at: nat): Option<string>
    decreases |blob| - at
  {
    if at >= |blob| || blob[at] >= 128 then None
    else if blob[at] == 0 then Some("")
    else
      match ReadText(blob, at + 1)
      case None => None
      case Some(rest) => Some([blob[at] as char] + rest)
  }

  function Align4(at: nat): (aligned: nat)
    ensures at <= aligned < at + 4 && aligned % 4 == 0
  {
    (at + 3) / 4 * 4
  }

  datatype Parsed = Parsed(node: Node, next: nat)

  /**
   * The reader of `src/fdt.test.ts:94-140`, made stricter by section 5.4.1 of the Devicetree Specification
   * v0.4: it refuses a token that does not start on a 4-byte boundary. What it reads is aligned throughout.
   */
  function ReadNode(blob: seq<Byte>, strings: nat, at: nat): (r: Option<Parsed>)
    ensures r.Some? ==> at < r.value.next
    decreases |blob| - at, 0
  {
    if !Aligned(at) || ReadU32(blob, at) != Some(BEGIN_NODE) then None
    else
      match ReadText(blob, at + 4)
      case None => None
      case Some(name) => ReadItems(blob, strings, Align4(at + 4 + |name| + 1), Node(name, [], []))
  }

  /** The tokens of a node after its name, up to its END_NODE. */
  function ReadItems(blob: seq<Byte>, strings: nat, cursor: nat, soFar: Node): (r: Option<Parsed>)
    ensures r.Some? ==> cursor < r.value.next
    decreases |blob| - cursor, 1
  {
    match ReadU32(blob, cursor)
    case None => None
    case Some(token) =>
      if !Aligned(cursor) then None
      else if token == PROP then
        (match (ReadU32(blob, cursor + 4), ReadU32(blob, cursor + 8))
         case (Some(length), Some(offset)) =>
           if cursor + 12 + length > |blob| then None
           else
             (match ReadText(blob, strings + offset)
              case None => None
              case Some(name) =>
                var p := Property(name, blob[cursor + 12..cursor + 12 + length]);
                ReadItems(blob, strings, Align4(cursor + 12 + length), soFar.(properties := soFar.properties + [p])))
         case (_, _) => None)
      else if token == BEGIN_NODE then
        (match ReadNode(blob, strings, cursor)
         case None => None
         case Some(child) => ReadItems(blob, strings, child.next, soFar.(children := soFar.children + [child.node])))
      else if token == END_NODE then Some(Parsed(soFar, cursor + 4))
      else None
  }

  function Decode(blob: seq<Byte>): Option<Node> {
    if ReadU32(blob, 0) != Some(MAGIC) then None
    else
      match (ReadU32(blob, 8), ReadU32(blob, 12))
      case (Some(struct), Some(strings)) =>
        (match ReadNode(blob, strings, struct)
         case None => None
         case Some(root) => if Aligned(root.next) && ReadU32(blob, root.next) == Some(END) then Some(root.node)
             else None)
      case (_, _) => None
  }

  // ---------- Reading back what was written ----------

  /** `bytes` stands in `blob` at `at`. */
  ghost predicate At(blob: seq<Byte>, at: nat, bytes: seq<Byte>) {
    at + |bytes| <= |blob| && forall i :: 0 <= i < |bytes| ==> bytes[i] == blob[at + i]
  }

  lemma AtSplit(blob: seq<Byte>, at: nat, a: seq<Byte>, b: seq<Byte>)
    ensures At(blob, at, a + b) <==> At(blob, at, a) && At(blob, at + |a|, b)
  {
    if At(blob, at, a + b) {
      forall i | 0 <= i < |a| ensures a[i] == blob[at + i] {
        assert (a + b)[i] == a[i];
      }
      forall i | 0 <= i < |b| ensures b[i] == blob[at + |a| + i] {
        assert (a + b)[|a| + i] == b[i];
      }
    }
  }

  lemma AtSlice(blob: seq<Byte>, at: nat, bytes: seq<Byte>)
    requires At(blob, at, bytes)
    ensures at + |bytes| <= |blob| && blob[at..at + |bytes|] == bytes
  {
  }

  lemma DigitsOfCell(value: nat)
    requires value < TWO_TO_32
    ensures value == value / 0x100 * 0x100 + value % 0x100
    ensures value / 0x100 == value / 0x1_0000 * 0x100 + value / 0x100 % 0x100
    ensures value / 0x1_0000 == value / 0x100_0000 * 0x100 + value / 0x1_0000 % 0x100
    ensures value / 0x100_0000 % 0x100 == value / 0x100_0000
  {
  }

  lemma CellOfU32(value: nat)
    requires value < TWO_TO_32
    ensures var b := U32(value); Cell(b[0], b[1], b[2], b[3]) == value
  {
    DigitsOfCell(value);
  }

  lemma ReadBackU32(blob: seq<Byte>, at: nat, value: nat)
    requires At(blob, at, U32(value)) && value < TWO_TO_32
    ensures ReadU32(blob, at) == Some(value)
  {
    hide U32, Cell;
    var bytes := U32(value);
    CellOfU32(value);
    assert bytes[0] == blob[at + 0] && bytes[1] == blob[at + 1] && bytes[2] == blob[at + 2] && bytes[3] == blob[at + 3];
  }

  predicate Ascii(text: string) {
    forall i :: 0 <= i < |text| ==> 0 < text[i] as int < 128
  }

  lemma {:induction false} ReadBackText(blob: seq<Byte>, at: nat, text: string)
    requires At(blob, at, CString(text)) && Ascii(text)
    ensures ReadText(blob, at) == Some(text)
    decreases |text|
  {
    var bytes := CString(text);
    assert bytes[0] == blob[at + 0];
    if text != "" {
      var rest := text[1..];
      assert CString(rest) == bytes[1..];
      AtSplit(blob, at, [bytes[0]], CString(rest));
      assert bytes == [bytes[0]] + CString(rest);
      ReadBackText(blob, at + 1, rest);
      assert [blob[at] as char] + rest == text;
    }
  }

  lemma ReadBackPadded(blob: seq<Byte>, at: nat, bytes: seq<Byte>)
    requires At(blob, at, Pad4(bytes)) && Aligned(at)
    ensures At(blob, at, bytes) && Align4(at + |bytes|) == at + |Pad4(bytes)|
  {
    hide Pad4, Aligned, Align4;
    AlignedIsMultiple(at);
    AlignedIsMultiple(|Pad4(bytes)|);
    AlignedUp(at, |bytes|, |Pad4(bytes)|);
    AtSplit(blob, at, bytes, Pad4(bytes)[|bytes|..]);
    assert Pad4(bytes) == bytes + Pad4(bytes)[|bytes|..];
  }

  lemma AlignedUp(at: nat, size: nat, padded: nat)
    requires at % 4 == 0 && padded % 4 == 0 && size <= padded < size + 4
    ensures Align4(at + size) == at + padded
  {
  }

  /** The strings of `offsets` stand in the blob from `strings`. */
  ghost predicate StringsAt(blob: seq<Byte>, strings: nat, offsets: map<string, nat>) {
    forall name :: name in offsets ==>
                     Ascii(name) && offsets[name] < TWO_TO_32 && At(blob, strings + offsets[name], CString(name))
  }

  predicate TreeAscii(node: Node)
    decreases node, 1
  {
    Ascii(node.name) && ForestAscii(node.children)
  }

  predicate ForestAscii(nodes: seq<Node>)
    decreases nodes, 0
  {
    nodes == [] || (TreeAscii(nodes[0]) && ForestAscii(nodes[1..]))
  }

  lemma ReadBackProperty(blob: seq<Byte>, strings: nat, cursor: nat, p: Property, offset: nat, soFar: Node)
    requires At(blob, cursor, PropertyBytes(p, offset)) && Aligned(cursor) && |blob| < TWO_TO_32
    requires Ascii(p.name) && offset < TWO_TO_32 && At(blob, strings + offset, CString(p.name))
    ensures ReadItems(blob, strings, cursor, soFar)
            == ReadItems(blob, strings, cursor + |PropertyBytes(p, offset)|,
                soFar.(properties := soFar.properties + [p]))
  {
    hide U32, ReadU32, ReadText, Aligned, Pad4, CString, At, Ascii, ReadNode;
    AtSplit(blob, cursor, U32(PROP) + U32(|p.value|) + U32(offset), Pad4(p.value));
    AtSplit(blob, cursor, U32(PROP) + U32(|p.value|), U32(offset));
    AtSplit(blob, cursor, U32(PROP), U32(|p.value|));
    AlignedIsMultiple(12);
    AlignedSum(cursor, 12);
    ReadBackPadded(blob, cursor + 12, p.value);
    AtSlice(blob, cursor + 12, p.value);
    ReadBackU32(blob, cursor, PROP);
    ReadBackU32(blob, cursor + 4, |p.value|);
    ReadBackU32(blob, cursor + 8, offset);
    ReadBackText(blob, strings + offset, p.name);
  }

  lemma ReadBackChild(blob: seq<Byte>, strings: nat, cursor: nat, soFar: Node, child: Parsed)
    requires Aligned(cursor) && ReadU32(blob, cursor) == Some(BEGIN_NODE)
    requires ReadNode(blob, strings, cursor) == Some(child)
    ensures ReadItems(blob, strings, cursor, soFar)
            == ReadItems(blob, strings, child.next, soFar.(children := soFar.children + [child.node]))
  {
  }

  lemma ReadBackEnd(blob: seq<Byte>, strings: nat, cursor: nat, soFar: Node)
    requires Aligned(cursor) && ReadU32(blob, cursor) == Some(END_NODE)
    ensures ReadItems(blob, strings, cursor, soFar) == Some(Parsed(soFar, cursor + 4))
  {
  }

  lemma {:induction false} ReadBackForest(
    blob: seq<Byte>, strings: nat, cursor: nat, offsets: map<string, nat>, children: seq<Node>, soFar: Node)
    requires |blob| < TWO_TO_32 && Aligned(cursor) && StringsAt(blob, strings, offsets)
    requires ForestNamed(children, offsets) && ForestAscii(children)
    requires At(blob, cursor, ForestBytes(children, offsets) + U32(END_NODE))
    ensures ReadItems(blob, strings, cursor, soFar) == Some(Parsed(
                soFar.(children := soFar.children + children), cursor + |ForestBytes(children, offsets)| + 4))
    decreases children, 0
  {
    hide U32, ReadU32, ReadText, Aligned, At, Ascii, ReadNode, ReadItems, StringsAt, TreeBytes;
    if children == [] {
      assert ForestBytes(children, offsets) + U32(END_NODE) == U32(END_NODE);
      ReadBackU32(blob, cursor, END_NODE);
      ReadBackEnd(blob, strings, cursor, soFar);
      assert soFar.children + children == soFar.children;
    } else {
      var child, rest := TreeBytes(children[0], offsets), ForestBytes(children[1..], offsets);
      var next := soFar.(children := soFar.children + [children[0]]);
      Assoc(child, rest, U32(END_NODE));
      AtSplit(blob, cursor, child, rest + U32(END_NODE));
      ReadBackNode(blob, strings, cursor, offsets, children[0]);
      ReadBackChild(blob, strings, cursor, soFar, Parsed(children[0], cursor + |child|));
      AlignedSum(cursor, |child|);
      ReadBackForest(blob, strings, cursor + |child|, offsets, children[1..], next);
      assert next.children + children[1..] == soFar.children + children;
    }
  }

  lemma {:induction false} ReadBackProperties(
    blob: seq<Byte>, strings: nat, cursor: nat, offsets: map<string, nat>, properties: seq<Property>, soFar: Node)
    requires |blob| < TWO_TO_32 && Aligned(cursor) && StringsAt(blob, strings, offsets)
    requires Named(properties, offsets) && At(blob, cursor, PropertiesBytes(properties, offsets))
    ensures Aligned(cursor + |PropertiesBytes(properties, offsets)|)
    ensures ReadItems(blob, strings, cursor, soFar) == ReadItems(
                blob, strings, cursor + |PropertiesBytes(properties, offsets)|,
                soFar.(properties := soFar.properties + properties))
    decreases |properties|
  {
    hide U32, ReadU32, ReadText, Aligned, At, ReadNode, ReadItems, PropertyBytes;
    if properties == [] {
      assert soFar.properties + properties == soFar.properties;
    } else {
      NamedTail(properties, offsets);
      var p, offset := properties[0], offsets[properties[0].name];
      var head, rest := PropertyBytes(p, offset), PropertiesBytes(properties[1..], offsets);
      var next := soFar.(properties := soFar.properties + [p]);
      AtSplit(blob, cursor, head, rest);
      ReadBackProperty(blob, strings, cursor, p, offset, soFar);
      AlignedSum(cursor, |head|);
      ReadBackProperties(blob, strings, cursor + |head|, offsets, properties[1..], next);
      assert next.properties + properties[1..] == soFar.properties + properties;
    }
  }

  lemma ReadBackHead(blob: seq<Byte>, strings: nat, at: nat, name: string)
    requires At(blob, at, NodeHead(name)) && Ascii(name) && Aligned(at)
    ensures ReadU32(blob, at) == Some(BEGIN_NODE)
    ensures ReadNode(blob, strings, at) == ReadItems(blob, strings, at + |NodeHead(name)|, Node(name, [], []))
  {
    AtSplit(blob, at, U32(BEGIN_NODE), Pad4(CString(name)));
    ReadBackU32(blob, at, BEGIN_NODE);
    AlignedSum(at, 4);
    ReadBackPadded(blob, at + 4, CString(name));
    ReadBackText(blob, at + 4, name);
  }

  lemma NodeParts(blob: seq<Byte>, at: nat, offsets: map<string, nat>, node: Node)
    requires TreeNamed(node, offsets) && TreeAscii(node) && At(blob, at, TreeBytes(node, offsets)) && Aligned(at)
    ensures Named(node.properties, offsets) && ForestNamed(node.children, offsets)
    ensures Ascii(node.name) && ForestAscii(node.children)
    ensures var head, own, below := |NodeHead(node.name)|, |PropertiesBytes(node.properties, offsets)|,
            ForestBytes(node.children, offsets);
            && At(blob, at, NodeHead(node.name)) && At(blob, at + head, PropertiesBytes(node.properties, offsets))
            && At(blob, at + head + own, below + U32(END_NODE)) && Aligned(at + head)
            && |TreeBytes(node, offsets)| == head + own + |below| + 4
  {
    hide U32, Aligned, At, PropertiesBytes, ForestBytes, NodeHead;
    var head, own, below := NodeHead(node.name), PropertiesBytes(node.properties, offsets),
        ForestBytes(node.children, offsets);
    AtSplit(blob, at, head, own + (below + U32(END_NODE)));
    AtSplit(blob, at + |head|, own, below + U32(END_NODE));
    AlignedSum(at, |head|);
  }

  lemma {:induction false} ReadBackNode(blob: seq<Byte>, strings: nat, at: nat, offsets: map<string, nat>, node: Node)
    requires |blob| < TWO_TO_32 && Aligned(at) && StringsAt(blob, strings, offsets)
    requires TreeNamed(node, offsets) && TreeAscii(node) && At(blob, at, TreeBytes(node, offsets))
    ensures ReadNode(blob, strings, at) == Some(Parsed(node, at + |TreeBytes(node, offsets)|))
    ensures ReadU32(blob, at) == Some(BEGIN_NODE)
    decreases node, 1
  {
    hide U32, ReadU32, ReadText, Aligned, At, ReadNode, ReadItems, StringsAt, TreeBytes, PropertiesBytes, ForestBytes,
      NodeHead, TreeNamed, TreeAscii;
    NodeParts(blob, at, offsets, node);
    var body := at + |NodeHead(node.name)|;
    ReadBackHead(blob, strings, at, node.name);
    ReadBackBody(blob, strings, body, offsets, node);
  }

  lemma {:induction false} ReadBackBody(blob: seq<Byte>, strings: nat, at: nat, offsets: map<string, nat>, node: Node)
    requires |blob| < TWO_TO_32 && Aligned(at) && StringsAt(blob, strings, offsets)
    requires Named(node.properties, offsets) && ForestNamed(node.children, offsets) && ForestAscii(node.children)
    requires At(blob, at, PropertiesBytes(node.properties, offsets))
    requires At(blob, at + |PropertiesBytes(node.properties, offsets)|,
             ForestBytes(node.children, offsets) + U32(END_NODE))
    ensures ReadItems(blob, strings, at, Node(node.name, [], [])) == Some(Parsed(
                node, at + |PropertiesBytes(node.properties, offsets)| + |ForestBytes(node.children, offsets)| + 4))
    decreases node, 0
  {
    hide U32, ReadU32, ReadText, Aligned, At, ReadNode, ReadItems, StringsAt, PropertiesBytes, ForestBytes,
      ForestAscii, ForestNamed, Named;
    var own := |PropertiesBytes(node.properties, offsets)|;
    ReadBackProperties(blob, strings, at, offsets, node.properties, Node(node.name, [], []));
    assert [] + node.properties == node.properties;
    ReadBackForest(blob, strings, at + own, offsets, node.children, Node(node.name, node.properties, []));
    assert [] + node.children == node.children;
  }

  // ---------- The whole blob ----------

  predicate NamesAscii(names: seq<string>) {
    forall i :: 0 <= i < |names| ==> Ascii(names[i])
  }

  lemma {:induction false} OffsetPointsAtString(
      blob: seq<Byte>, strings: nat, names: seq<string>, start: nat, name: string)
    requires At(blob, strings + start, Strings(names)) && name in names
    ensures var offsets := Offsets(names, start);
            name in offsets && strings + offsets[name] < |blob| && At(blob, strings + offsets[name], CString(name))
    decreases |names|
  {
    var rest, next := names[1..], start + |names[0]| + 1;
    AtSplit(blob, strings + start, CString(names[0]), Strings(rest));
    OffsetsKeys(rest, next);
    if name in rest {
      OffsetPointsAtString(blob, strings, rest, next, name);
    }
  }

  lemma OffsetsPointAtStrings(blob: seq<Byte>, strings: nat, names: seq<string>)
    requires At(blob, strings, Strings(names)) && NamesAscii(names) && |blob| < TWO_TO_32
    ensures StringsAt(blob, strings, Offsets(names, 0))
  {
    OffsetsKeys(names, 0);
    forall name | name in Offsets(names, 0)
      ensures Ascii(name) && Offsets(names, 0)[name] < TWO_TO_32
      ensures At(blob, strings + Offsets(names, 0)[name], CString(name))
    {
      OffsetPointsAtString(blob, strings, names, 0, name);
    }
  }

  lemma BlobLayout(blob: seq<Byte>, header: seq<Byte>, reserve: seq<Byte>, struct: seq<Byte>, strings: seq<Byte>)
    requires blob == header + reserve + struct + strings && |header| == HEADER_SIZE && |reserve| == RESERVE_ENTRY_SIZE
    ensures At(blob, 0, header) && At(blob, HEADER_SIZE, reserve) && At(blob, 56, struct)
    ensures At(blob, 56 + |struct|, strings)
    ensures |blob| == 56 + |struct| + |strings|
  {
    AtSplit(blob, 0, header + reserve + struct, strings);
    AtSplit(blob, 0, header + reserve, struct);
    AtSplit(blob, 0, header, reserve);
  }

  /** What the ten header fields of a blob say about its blocks. */
  ghost predicate Described(blob: seq<Byte>, struct: seq<Byte>, strings: seq<Byte>) {
    && ReadU32(blob, 0) == Some(MAGIC) && ReadU32(blob, 4) == Some(|blob|)
    && ReadU32(blob, 8) == Some(56) && At(blob, 56, struct)
    && ReadU32(blob, 12) == Some(56 + |struct|) && At(blob, 56 + |struct|, strings)
    && ReadU32(blob, 16) == Some(HEADER_SIZE) && At(blob, HEADER_SIZE, EmptyReserve())
    && ReadU32(blob, 20) == Some(17) && ReadU32(blob, 24) == Some(16) && ReadU32(blob, 28) == Some(0)
    && ReadU32(blob, 32) == Some(|strings|) && ReadU32(blob, 36) == Some(|struct|)
    && 56 + |struct| + |strings| == |blob| && Aligned(|struct|)
  }

  lemma {:induction false} HeaderDescribes(blob: seq<Byte>, struct: seq<Byte>, strings: seq<Byte>)
    requires blob == Header(|struct|, |strings|) + EmptyReserve() + struct + strings
    requires |blob| < TWO_TO_32 && Aligned(|struct|)
    ensures Described(blob, struct, strings)
  {
    hide U32, Header, At, Aligned;
    BlobLayout(blob, Header(|struct|, |strings|), EmptyReserve(), struct, strings);
    HeaderFields(blob, |struct|, |strings|);
  }

  /** The header's offsets and sizes describe the blob they precede. */
  lemma HeaderDescribesBlob(root: Node)
    requires |Flattened(root)| < TWO_TO_32
    ensures Described(Flattened(root), StructBlock(root), Strings(TreeNames(root, [])))
  {
    HeaderDescribes(Flattened(root), StructBlock(root), Strings(TreeNames(root, [])));
  }

  lemma HeaderFields(blob: seq<Byte>, structSize: nat, stringsSize: nat)
    requires At(blob, 0, Header(structSize, stringsSize)) && 56 + structSize + stringsSize < TWO_TO_32
    ensures ReadU32(blob, 0) == Some(MAGIC) && ReadU32(blob, 4) == Some(56 + structSize + stringsSize)
    ensures ReadU32(blob, 8) == Some(56) && ReadU32(blob, 12) == Some(56 + structSize)
    ensures ReadU32(blob, 16) == Some(HEADER_SIZE)
    ensures ReadU32(blob, 20) == Some(17) && ReadU32(blob, 24) == Some(16) && ReadU32(blob, 28) == Some(0)
    ensures ReadU32(blob, 32) == Some(stringsSize) && ReadU32(blob, 36) == Some(structSize)
  {
    var header := Header(structSize, stringsSize);
    var total := 56 + structSize + stringsSize;
    HeaderField(blob, header, 0, MAGIC);
    HeaderField(blob, header, 4, total);
    HeaderField(blob, header, 8, 56);
    HeaderField(blob, header, 12, 56 + structSize);
    HeaderField(blob, header, 16, HEADER_SIZE);
    HeaderField(blob, header, 20, 17);
    HeaderField(blob, header, 24, 16);
    HeaderField(blob, header, 28, 0);
    HeaderField(blob, header, 32, stringsSize);
    HeaderField(blob, header, 36, structSize);
  }

  lemma HeaderField(blob: seq<Byte>, header: seq<Byte>, at: nat, value: nat)
    requires At(blob, 0, header) && at + 4 <= |header| && value < TWO_TO_32
    requires forall i :: 0 <= i < 4 ==> header[at + i] == U32(value)[i]
    ensures ReadU32(blob, at) == Some(value)
  {
    hide U32, ReadU32;
    forall i | 0 <= i < 4 ensures U32(value)[i] == blob[at + i] {
      assert header[at + i] == blob[0 + (at + i)];
    }
    ReadBackU32(blob, at, value);
  }

  lemma ReadBackRoot(blob: seq<Byte>, strings: nat, offsets: map<string, nat>, root: Node)
    requires |blob| < TWO_TO_32 && StringsAt(blob, strings, offsets) && TreeNamed(root, offsets) && TreeAscii(root)
    requires At(blob, 56, TreeBytes(root, offsets) + U32(END))
    requires ReadU32(blob, 0) == Some(MAGIC) && ReadU32(blob, 8) == Some(56) && ReadU32(blob, 12) == Some(strings)
    ensures Decode(blob) == Some(root)
  {
    hide U32, At, ReadU32, ReadNode, StringsAt, TreeNamed, TreeAscii, TreeBytes, Aligned;
    AtSplit(blob, 56, TreeBytes(root, offsets), U32(END));
    AlignedIsMultiple(56);
    AlignedSum(56, |TreeBytes(root, offsets)|);
    ReadBackNode(blob, strings, 56, offsets, root);
    ReadBackU32(blob, 56 + |TreeBytes(root, offsets)|, END);
  }

  lemma StringsStand(root: Node)
    requires NamesAscii(TreeNames(root, [])) && |Flattened(root)| < TWO_TO_32
    ensures StringsAt(Flattened(root), 56 + |StructBlock(root)|, Offsets(TreeNames(root, []), 0))
  {
    HeaderDescribesBlob(root);
    OffsetsPointAtStrings(Flattened(root), 56 + |StructBlock(root)|, TreeNames(root, []));
  }

  /** The trees the format can carry: NUL-free ASCII names and a blob below 4 GiB. */
  predicate Encodable(root: Node) {
    TreeAscii(root) && NamesAscii(TreeNames(root, [])) && |Flattened(root)| < TWO_TO_32
  }

  /** Reading a flattened tree gives the tree back: names, properties, values, children and their order. */
  lemma RoundTrip(root: Node)
    requires Encodable(root)
    ensures Decode(Flattened(root)) == Some(root)
  {
    HeaderDescribesBlob(root);
    TreeIsNamed(root);
    StringsStand(root);
    ReadBackRoot(Flattened(root), 56 + |StructBlock(root)|, Offsets(TreeNames(root, []), 0), root);
  }

  // ---------- The blob in bytes ----------

  lemma ConstantsInBytes()
    ensures U32(MAGIC) == [0xd0, 0x0d, 0xfe, 0xed] && U32(BEGIN_NODE) == [0, 0, 0, 1] && U32(END_NODE) == [0, 0, 0, 2]
    ensures U32(PROP) == [0, 0, 0, 3] && U32(END) == [0, 0, 0, 9]
  {
  }

  /** Cells are big-endian, text ends in a NUL, and padding to 4 bytes is zeros. */
  lemma CellsAndText(value: nat, text: string, bytes: seq<Byte>)
    requires value < 0x1_0000_0000
    ensures var b := U32(value);
            0x100_0000 * (b[0] as int) + 0x1_0000 * (b[1] as int) + 0x100 * (b[2] as int) + b[3] as int == value
    ensures CString(text)[|text|] == 0 && forall i :: 0 <= i < |text| ==> CString(text)[i] == text[i] as int % 256
    ensures |Pad4(bytes)| % 4 == 0 && |Pad4(bytes)| < |bytes| + 4 && Pad4(bytes)[..|bytes|] == bytes
    ensures forall i :: |bytes| <= i < |Pad4(bytes)| ==> Pad4(bytes)[i] == 0
  {
    CellOfU32(value);
    AlignedIsMultiple(|Pad4(bytes)|);
    hide Aligned;
  }

  /**
   * A node is token 1, its padded name, its properties, its children and token 2; a property is token 3,
   * its length, its name's offset and its padded value.
   */
  lemma NodesInBytes(node: Node, offsets: map<string, nat>, p: Property, offset: nat)
    requires TreeNamed(node, offsets)
    ensures TreeBytes(node, offsets)
            == [0, 0, 0, 1] + Pad4(CString(node.name)) + PropertiesBytes(node.properties, offsets)
               + ForestBytes(node.children, offsets) + [0, 0, 0, 2]
    ensures PropertyBytes(p, offset) == [0, 0, 0, 3] + U32(|p.value|) + U32(offset) + Pad4(p.value)
  {
    ConstantsInBytes();
    hide U32, Pad4, CString, PropertiesBytes, ForestBytes;
    var head, own, below := NodeHead(node.name), PropertiesBytes(node.properties, offsets),
        ForestBytes(node.children, offsets);
    Assoc(head, own, below + [0, 0, 0, 2]);
    Assoc(head + own, below, [0, 0, 0, 2]);
  }

  /**
   * The blob starts with the magic number, its struct block at byte 56 ends with token 9, and no memory is
   * reserved.
   */
  lemma BlobInBytes(root: Node)
    requires |Flattened(root)| < TWO_TO_32
    ensures var blob, offsets := Flattened(root), Offsets(TreeNames(root, []), 0);
            && TreeNamed(root, offsets)
            && At(blob, 0, [0xd0, 0x0d, 0xfe, 0xed]) && At(blob, 40, seq(16, _ => 0))
            && At(blob, 56, TreeBytes(root, offsets) + [0, 0, 0, 9])
            && |blob| == 56 + |TreeBytes(root, offsets)| + 4 + |Strings(TreeNames(root, []))|
  {
    TreeIsNamed(root);
    BlobParts(root);
    ReserveIsZero();
    hide Flattened, Header, Strings, TreeBytes, Offsets, TreeNames, EmptyReserve, StructBlock, TreeNamed, At;
    var struct, strings := StructBlock(root), Strings(TreeNames(root, []));
    BlobLayout(Flattened(root), Header(|struct|, |strings|), EmptyReserve(), struct, strings);
    MagicFirst(|struct|, |strings|);
    var header := Header(|struct|, |strings|);
    assert header == header[..4] + header[4..];
    AtSplit(Flattened(root), 0, header[..4], header[4..]);
  }

  lemma BlobParts(root: Node)
    ensures var offsets, strings := Offsets(TreeNames(root, []), 0), Strings(TreeNames(root, []));
            && TreeNamed(root, offsets) && StructBlock(root) == TreeBytes(root, offsets) + [0, 0, 0, 9]
            && Flattened(root) == Header(|StructBlock(root)|, |strings|) + EmptyReserve() + StructBlock(root) + strings
  {
    hide U32, Header, Strings, TreeBytes, Offsets, TreeNames, EmptyReserve, TreeNamed;
    TreeIsNamed(root);
    ConstantsInBytes();
  }

  lemma ReserveIsZero()
    ensures EmptyReserve() == seq(16, _ => 0)
  {
  }

  lemma MagicFirst(structSize: nat, stringsSize: nat)
    ensures Header(structSize, stringsSize)[..4] == [0xd0, 0x0d, 0xfe, 0xed]
  {
    ConstantsInBytes();
    hide U32;
  }

  /** Two trees with one blob are the same tree. */
  lemma FlattenedIsInjective(a: Node, b: Node)
    requires Encodable(a) && Encodable(b) && Flattened(a) == Flattened(b)
    ensures a == b
  {
    RoundTrip(a);
    RoundTrip(b);
  }

  // ---------- Where the blob goes ----------

  datatype Address = AtEnd | AtGuest(address: int)
  datatype Placement = Misaligned | DoesNotFit | Placed(address: int)

  /** `storeDeviceTreeToRam`: the guest address for a blob in RAM `[base, base + ramSize)` above an image. */
  function Place(base: int, ramSize: int, imageSize: nat, blobSize: nat, wanted: Address): Placement {
    var top := base + ramSize - blobSize;
    var address := if wanted.AtEnd? then top - top % 8 else wanted.address;
    if !wanted.AtEnd? && address % 8 != 0 then Misaligned
    else if address < base + imageSize || address + blobSize > base + ramSize then DoesNotFit
    else Placed(address)
  }

  predicate Fits(base: int, ramSize: int, imageSize: nat, blobSize: nat, address: int) {
    address % 8 == 0 && base + imageSize <= address && address + blobSize <= base + ramSize
  }

  /**
   * `'end'` finds the highest aligned address that fits, and fails only if none does; a given address is
   * taken or refused.
   */
  lemma PlacementIsHighest(base: int, ramSize: int, imageSize: nat, blobSize: nat)
    ensures var p := Place(base, ramSize, imageSize, blobSize, AtEnd);
            && (p.Placed? ==> Fits(base, ramSize, imageSize, blobSize, p.address))
            && (forall a :: Fits(base, ramSize, imageSize, blobSize, a) ==> p.Placed? && a <= p.address)
    ensures forall a ::
              (Place(base, ramSize, imageSize, blobSize, AtGuest(a)) == Placed(a) <==>
               Fits(base, ramSize, imageSize, blobSize, a))
  {
  }
}
