/**
 EFI signature lists (section 32.4.1 of the UEFI specification) as MokManager.c reads them: the
 parsers, on the value of the variable's memory.  `size` is the variable's size; the loops look at the
 next list's size field before they know it is there, so `mem` reaches at least one header further.
 */
module SigList {
  import opened Bytes

  type Guid = g: seq<byte> | |g| == 16 witness [0, 0, 0, 0, 0, 0, 0, 0, 0, 0, 0, 0, 0, 0, 0, 0]

  const LIST_HEADER := 28
  const OWNER := 16

  const X509: Guid := [0xa1, 0x59, 0xc0, 0xa5, 0xe4, 0x94, 0xa7, 0x4a, 0x87, 0xb5, 0xab, 0x15, 0x5c, 0x2b, 0xf0, 0x72]
  const SHA1: Guid := [0x12, 0xa5, 0x6c, 0x82, 0x10, 0xcf, 0xc9, 0x4a, 0xb1, 0x87, 0xbe, 0x01, 0x49, 0x66, 0x31, 0xbd]
  const SHA224: Guid := [0x33, 0x52, 0x6e, 0x0b, 0x5c, 0xa6, 0xc9, 0x44, 0x94, 0x07, 0xd9, 0xab, 0x83, 0xbf, 0xc8, 0xbd]
  const SHA256: Guid := [0x26, 0x16, 0xc4, 0xc1, 0x4c, 0x50, 0x92, 0x40, 0xac, 0xa9, 0x41, 0xf9, 0x36, 0x93, 0x43, 0x28]
  const SHA384: Guid := [0x07, 0x53, 0x3e, 0xff, 0xd0, 0x9f, 0xc9, 0x48, 0x85, 0xf1, 0x8a, 0xd5, 0x6c, 0x70, 0x1e, 0x01]
  const SHA512: Guid := [0xae, 0x0f, 0x3e, 0x09, 0xc4, 0xa6, 0x50, 0x4f, 0x9f, 0x1b, 0xd4, 0x1e, 0x2b, 0x89, 0xc1, 0x9a]
  const SHIM_LOCK: Guid := [0x50, 0xab, 0x5d, 0x60, 0x46, 0xe0, 0x00, 0x43, 0xab, 0xb6, 0x3d, 0xd8, 0x10, 0xdd, 0x8b, 0x23]

  predicate IsSha2(kind: Guid) { kind == SHA224 || kind == SHA256 || kind == SHA384 || kind == SHA512 }

  function ShaSize(kind: Guid): nat {
    if kind == SHA1 then 20 else if kind == SHA224 then 28 else if kind == SHA256 then 32
    else if kind == SHA384 then 48 else if kind == SHA512 then 64 else 0
  }

  /** Bytes of one signature in a hash list: its owner and its digest. */
  function EntrySize(kind: Guid): nat { ShaSize(kind) + OWNER }

  /** The kinds a SHA-2 list can have are all different from the certificate kind. */
  lemma KindsDiffer()
    ensures !IsSha2(X509)
    ensures forall kind: Guid :: IsSha2(kind) ==> ShaSize(kind) in {28, 32, 48, 64}
  {
    assert X509[0] == 0xa1 && SHA224[0] == 0x33 && SHA256[0] == 0x26 && SHA384[0] == 0x07 && SHA512[0] == 0xae && SHA1[0] == 0x12;
  }

  predicate ValidKind(kind: Guid, sigSize: nat) {
    (kind == X509 && sigSize != 0) || (IsSha2(kind) && sigSize == EntrySize(kind))
  }

  // ---------------------------------------------------------------- list headers

  function Kind(mem: seq<byte>, pos: nat): Guid
    requires pos + LIST_HEADER <= |mem|
  {
    mem[pos..pos + 16]
  }

  function ListSize(mem: seq<byte>, pos: nat): nat requires pos + LIST_HEADER <= |mem| { Get(mem, pos + 16, 4) }

  function HeaderSize(mem: seq<byte>, pos: nat): nat requires pos + LIST_HEADER <= |mem| { Get(mem, pos + 20, 4) }

  function SigSize(mem: seq<byte>, pos: nat): nat requires pos + LIST_HEADER <= |mem| { Get(mem, pos + 24, 4) }

  /** The loop condition shared by every walk over a database. */
  predicate More(mem: seq<byte>, pos: nat, size: nat)
    requires size + LIST_HEADER <= |mem|
  {
    pos < size && ListSize(mem, pos) <= size - pos
  }

  // ---------------------------------------------------------------- count_keys

  /** Number of lists from pos on, or nothing if one is malformed. */
  function Count(mem: seq<byte>, pos: nat, size: nat): (r: Option<nat>)
    requires size + LIST_HEADER <= |mem|
    decreases size - pos
  {
    if !More(mem, pos, size) then Some(0)
    else if pos + LIST_HEADER > size || ListSize(mem, pos) == 0 then None
    else if ListSize(mem, pos) <= SigSize(mem, pos) then None
    else if !ValidKind(Kind(mem, pos), SigSize(mem, pos)) then None
    else match Count(mem, pos + ListSize(mem, pos), size) case None => None case Some(n) => Some(n + 1)
  }

  lemma CountStep(mem: seq<byte>, pos: nat, size: nat)
    requires size + LIST_HEADER <= |mem| && Count(mem, pos, size).Some? && More(mem, pos, size)
    ensures pos + LIST_HEADER <= size && ListSize(mem, pos) > 0
    ensures Count(mem, pos + ListSize(mem, pos), size).Some?
      && Count(mem, pos, size).value == Count(mem, pos + ListSize(mem, pos), size).value + 1
  {
  }

  method CountKeys(mem: seq<byte>, size: nat) returns (num: nat)
    requires size + LIST_HEADER <= |mem|
    ensures num == match Count(mem, 0, size) case None => 0 case Some(n) => n
  {
    var pos, dbsize := 0, size;
    num := 0;
    while dbsize > 0 && dbsize >= ListSize(mem, pos)
      invariant pos + dbsize == size
      invariant Count(mem, 0, size) == match Count(mem, pos, size) case None => None case Some(n) => Some(num + n)
      decreases dbsize
    {
      if pos + LIST_HEADER > size || ListSize(mem, pos) == 0 { return 0; }
      if ListSize(mem, pos) == 0 || ListSize(mem, pos) <= SigSize(mem, pos) { return 0; }
      if !ValidKind(Kind(mem, pos), SigSize(mem, pos)) { return 0; }
      num := num + 1;
      dbsize := dbsize - ListSize(mem, pos);
      pos := pos + ListSize(mem, pos);
    }
  }

  // ---------------------------------------------------------------- build_mok_list

  /** One list: its kind and where its certificate or hashes lie; no place once it is deleted. */
  datatype Node = Node(kind: Guid, mok: Option<nat>, size: nat)

  function NodeAt(mem: seq<byte>, pos: nat): Node
    requires pos + LIST_HEADER <= |mem|
  {
    var cert := pos + LIST_HEADER + HeaderSize(mem, pos);
    if Kind(mem, pos) == X509 then Node(X509, Some(cert + OWNER), if SigSize(mem, pos) < OWNER then 0 else SigSize(mem, pos) - OWNER)
    else Node(Kind(mem, pos), Some(cert), (ListSize(mem, pos) - LIST_HEADER) % 0x1_0000_0000)
  }

  function Nodes(mem: seq<byte>, pos: nat, size: nat): (r: Option<seq<Node>>)
    requires size + LIST_HEADER <= |mem|
    decreases size - pos
  {
    if !More(mem, pos, size) then Some([])
    else if pos + LIST_HEADER > size || ListSize(mem, pos) == 0 then None
    else
      var node := NodeAt(mem, pos);
      if pos + LIST_HEADER + HeaderSize(mem, pos) + OWNER + 1 > size || SigSize(mem, pos) <= OWNER then None
      else if node.mok.value + node.size > size then None
      else match Nodes(mem, pos + ListSize(mem, pos), size)
        case None => None
        case Some(rest) => Some([node] + rest)
  }

  /** Fill the node array that count_keys sized. */
  method BuildMokList(num: nat, mem: seq<byte>, size: nat) returns (list: array?<Node>)
    requires size + LIST_HEADER <= |mem| && Count(mem, 0, size) == Some(num)
    ensures list == null <==> Nodes(mem, 0, size).None?
    ensures list != null ==> fresh(list) && list[..] == Nodes(mem, 0, size).value
  {
    hide Nodes, Count, NodeAt, Get;
    var nodes := new Node[num](_ => Node(X509, None, 0));
    var pos, dbsize, count := 0, size, 0;
    assert forall rest: seq<Node> :: nodes[..0] + rest == rest;
    while dbsize > 0 && dbsize >= ListSize(mem, pos)
      invariant pos + dbsize == size && count <= num
      invariant Count(mem, pos, size) == Some(num - count)
      invariant Nodes(mem, 0, size) ==
        match Nodes(mem, pos, size) case None => None case Some(rest) => Some(nodes[..count] + rest)
      decreases dbsize
    {
      CountStep(mem, pos, size);
      NodesStep(mem, pos, size);
      if pos + LIST_HEADER > size || ListSize(mem, pos) == 0 { return null; }
      var node := NodeAt(mem, pos);
      if pos + LIST_HEADER + HeaderSize(mem, pos) + OWNER + 1 > size || SigSize(mem, pos) <= OWNER { return null; }
      NodePlaced(mem, pos);
      if node.mok.value + node.size > size { return null; }
      nodes[count] := node;
      var next := pos + ListSize(mem, pos);
      assert nodes[..count + 1] == nodes[..count] + [node];
      assert forall rest: seq<Node> :: nodes[..count] + ([node] + rest) == nodes[..count + 1] + rest;
      count := count + 1;
      dbsize := dbsize - ListSize(mem, pos);
      pos := next;
    }
    NodesDone(mem, pos, size);
    assert nodes[..count] + [] == nodes[..];
    return nodes;
  }

  lemma NodePlaced(mem: seq<byte>, pos: nat)
    requires pos + LIST_HEADER <= |mem|
    ensures NodeAt(mem, pos).mok.Some?
  {
  }

  lemma NodesDone(mem: seq<byte>, pos: nat, size: nat)
    requires size + LIST_HEADER <= |mem| && !More(mem, pos, size)
    ensures Nodes(mem, pos, size) == Some([]) && Count(mem, pos, size) == Some(0)
  {
  }

  lemma NodesStep(mem: seq<byte>, pos: nat, size: nat)
    requires size + LIST_HEADER <= |mem| && More(mem, pos, size)
    ensures Nodes(mem, pos, size) ==
      if pos + LIST_HEADER > size || ListSize(mem, pos) == 0
         || pos + LIST_HEADER + HeaderSize(mem, pos) + OWNER + 1 > size || SigSize(mem, pos) <= OWNER
         || NodeAt(mem, pos).mok.value + NodeAt(mem, pos).size > size
      then None
      else match Nodes(mem, pos + ListSize(mem, pos), size)
        case None => None
        case Some(rest) => Some([NodeAt(mem, pos)] + rest)
  {
  }
}
