/** Reading a written database: the parsers see exactly the live lists, and shim.c finds their hashes. */
module MokLookup {
  import opened Bytes
  import opened SigList
  import opened HashPurge
  import opened HashList
  import opened MokDelete
  import opened MokCodec

  /** Contents that can be written: something, of a kind these databases hold, within 32-bit sizes. */
  predicate KeyFits(k: Key) {
    k.content.Some? ==> 1 <= |k.content.value| < 0xffff_ff00 && (k.kind == X509 || IsSha2(k.kind))
  }

  /** The written list is longer than the signature size it states. */
  predicate Reads(k: Key) {
    k.content.Some? && k.kind != X509 ==> |k.content.value| + LIST_HEADER > EntrySize(k.kind)
  }

  /** Contents a list can be read back with. */
  predicate KeyOk(k: Key) { KeyFits(k) && Reads(k) }

  predicate AllKeysFit(keys: seq<Key>) { forall i :: 0 <= i < |keys| ==> KeyFits(keys[i]) }

  predicate AllOk(keys: seq<Key>) { forall i :: 0 <= i < |keys| ==> KeyOk(keys[i]) }

  function Live(keys: seq<Key>): seq<Key> {
    if keys == [] then []
    else Live(keys[..|keys| - 1]) + if keys[|keys| - 1].content.None? then [] else [keys[|keys| - 1]]
  }

  lemma HeaderWords(mem: seq<byte>, pos: nat, kind: Guid, listSize: nat, sigSize: nat)
    requires At(mem, pos, Header(kind, listSize, sigSize)) && listSize < 0x1_0000_0000 && sigSize < 0x1_0000_0000
    ensures pos + LIST_HEADER <= |mem|
    ensures Kind(mem, pos) == kind && ListSize(mem, pos) == listSize && HeaderSize(mem, pos) == 0 && SigSize(mem, pos) == sigSize
  {
    hide ToLE, Get, Pow256, At;
    AtBound(mem, pos, Header(kind, listSize, sigSize));
    AtSplit(mem, pos, kind, ToLE(listSize, 4) + (ToLE(0, 4) + ToLE(sigSize, 4)));
    AtSplit(mem, pos + 16, ToLE(listSize, 4), ToLE(0, 4) + ToLE(sigSize, 4));
    AtSplit(mem, pos + 20, ToLE(0, 4), ToLE(sigSize, 4));
    AtBound(mem, pos, kind);
    Powers();
    ReadWord(mem, pos + 16, listSize, 4);
    ReadWord(mem, pos + 20, 0, 4);
    ReadWord(mem, pos + 24, sigSize, 4);
  }

  /** The header of a written list read back. */
  lemma ReadFields(mem: seq<byte>, pos: nat, k: Key)
    requires At(mem, pos, Encode(k)) && KeyFits(k) && k.content.Some?
    ensures pos + LIST_HEADER <= |mem| && pos + |Encode(k)| <= |mem| && |Encode(k)| > LIST_HEADER
    ensures Kind(mem, pos) == k.kind && ListSize(mem, pos) == |Encode(k)| && HeaderSize(mem, pos) == 0
    ensures SigSize(mem, pos) == if k.kind == X509 then |k.content.value| + OWNER else EntrySize(k.kind)
    ensures SigSize(mem, pos) > OWNER
  {
    hide Header, At, Get, ShaSize;
    KindsDiffer();
    var c := k.content.value;
    AtBound(mem, pos, Encode(k));
    if k.kind == X509 {
      var header := Header(X509, |c| + LIST_HEADER + OWNER, |c| + OWNER);
      AtSplit(mem, pos, header, SHIM_LOCK + c);
      HeaderWords(mem, pos, X509, |c| + LIST_HEADER + OWNER, |c| + OWNER);
    } else {
      var header := Header(k.kind, |c| + LIST_HEADER, EntrySize(k.kind));
      AtSplit(mem, pos, header, c);
      HeaderWords(mem, pos, k.kind, |c| + LIST_HEADER, EntrySize(k.kind));
    }
  }

  /**
   A written list in its bytes: its kind, its own length, no header, the size of one signature, and then the
   content, with shim's GUID in front of a certificate as its owner.
   */
  lemma WrittenBytes(k: Key)
    requires KeyFits(k) && k.content.Some?
    ensures
      var e, c := Encode(k), k.content.value;
      && |e| == 28 + |c| + (if k.kind == X509 then 16 else 0) && e[..16] == k.kind
      && Get(e, 16, 4) == |e| && Get(e, 20, 4) == 0 && e[|e| - |c|..] == c
      && (k.kind == X509 ==> e[28..44] == SHIM_LOCK)
      && Get(e, 24, 4) == if k.kind == X509 then 16 + |c| else if k.kind == SHA224 then 44 else if k.kind == SHA256 then 48
                          else if k.kind == SHA384 then 64 else 80
  {
    hide Get, Header;
    KindsDiffer();
    var e := Encode(k);
    assert e[0..|e|] == e;
    ReadFields(e, 0, k);
  }

  /** A readable written list: the parsers' tests pass, and the node leads to its content. */
  lemma ReadList(mem: seq<byte>, pos: nat, k: Key)
    requires At(mem, pos, Encode(k)) && KeyOk(k) && k.content.Some? && pos + LIST_HEADER <= |mem|
    ensures Kind(mem, pos) == k.kind && ListSize(mem, pos) == |Encode(k)| && HeaderSize(mem, pos) == 0
    ensures SigSize(mem, pos) < ListSize(mem, pos) && ValidKind(k.kind, SigSize(mem, pos)) && SigSize(mem, pos) > OWNER
    ensures NodeFits(NodeAt(mem, pos), pos + |Encode(k)|) && NodeAt(mem, pos).mok.Some?
    ensures pos + |Encode(k)| <= |mem| && ViewNode(NodeAt(mem, pos), mem) == k
    ensures |Encode(k)| > LIST_HEADER + OWNER
  {
    hide Header, At, Get, ShaSize, Kind, ListSize, HeaderSize, SigSize;
    KindsDiffer();
    var c := k.content.value;
    ReadFields(mem, pos, k);
    if k.kind == X509 {
      var header := Header(X509, |c| + LIST_HEADER + OWNER, |c| + OWNER);
      AtSplit(mem, pos, header, SHIM_LOCK + c);
      AtSplit(mem, pos + LIST_HEADER, SHIM_LOCK, c);
      AtBound(mem, pos + LIST_HEADER + OWNER, c);
    } else {
      AtSplit(mem, pos, Header(k.kind, |c| + LIST_HEADER, EntrySize(k.kind)), c);
      AtBound(mem, pos + LIST_HEADER, c);
    }
  }

  /** Front-first form of the encoding. */
  lemma {:induction false} EncodeFront(keys: seq<Key>)
    requires keys != []
    ensures EncodeAll(keys) == Encode(keys[0]) + EncodeAll(keys[1..])
    ensures Live(keys) == (if keys[0].content.None? then [] else [keys[0]]) + Live(keys[1..])
    decreases |keys|
  {
    hide Encode, EncodeAll, Live;
    var n := |keys|;
    EncodeLast(keys);
    if n == 1 {
      assert keys[..0] == [] && keys[1..] == [];
    } else {
      var rest := keys[1..];
      assert keys[..n - 1][0] == keys[0];
      EncodeFront(keys[..n - 1]);
      assert keys[..n - 1][1..] == rest[..n - 2] && rest[n - 2] == keys[n - 1];
      EncodeLast(rest);
      Regroup(Encode(keys[0]), EncodeAll(rest[..n - 2]), Encode(keys[n - 1]));
    }
  }

  lemma EncodeLast(keys: seq<Key>)
    requires keys != []
    ensures EncodeAll(keys) == EncodeAll(keys[..|keys| - 1]) + Encode(keys[|keys| - 1])
    ensures Live(keys) == Live(keys[..|keys| - 1]) + if keys[|keys| - 1].content.None? then [] else [keys[|keys| - 1]]
    ensures EncodeAll([]) == [] && Live([]) == []
  {
    hide Encode;
  }

  /** Both parsers step over one written list. */
  lemma ParseList(mem: seq<byte>, pos: nat, k: Key, size: nat)
    requires At(mem, pos, Encode(k)) && KeyOk(k) && k.content.Some?
    requires pos + |Encode(k)| <= size && size + LIST_HEADER <= |mem|
    ensures Count(mem, pos, size) ==
      match Count(mem, pos + |Encode(k)|, size) case None => None case Some(n) => Some(n + 1)
    ensures pos + LIST_HEADER <= |mem| && Nodes(mem, pos, size) ==
      match Nodes(mem, pos + |Encode(k)|, size) case None => None case Some(rest) => Some([NodeAt(mem, pos)] + rest)
    ensures NodeFits(NodeAt(mem, pos), |mem|) && ViewNode(NodeAt(mem, pos), mem) == k
  {
    hide Encode, NodeAt, ViewNode, At, Nodes, Count, Kind, Get, KeyOk;
    ReadList(mem, pos, k);
    NodesStep(mem, pos, size);
    CountMore(mem, pos, size);
  }

  /**
   Reparsing: a written database is counted and parsed, and its nodes view exactly the live keys in
   order, wherever it lies in memory and whatever follows it.
   */
  lemma {:induction false} Reparse(mem: seq<byte>, pos: nat, keys: seq<Key>) returns (nodes: seq<Node>)
    requires AllOk(keys) && At(mem, pos, EncodeAll(keys)) && pos + |EncodeAll(keys)| + LIST_HEADER <= |mem|
    ensures Count(mem, pos, pos + |EncodeAll(keys)|) == Some(|Live(keys)|)
    ensures Nodes(mem, pos, pos + |EncodeAll(keys)|) == Some(nodes)
    ensures |nodes| == |Live(keys)|
    ensures forall i :: 0 <= i < |nodes| ==> NodeFits(nodes[i], |mem|) && ViewNode(nodes[i], mem) == Live(keys)[i]
    decreases |keys|
  {
    hide *;
    if keys == [] {
      EmptyDatabase(mem, pos);
      nodes := [];
    } else {
      var k, rest := keys[0], keys[1..];
      AllOkRest(keys);
      EncodeFront(keys);
      AtSplit(mem, pos, Encode(k), EncodeAll(rest));
      nodes := Reparse(mem, pos + |Encode(k)|, rest);
      if k.content.Some? {
        var tail := nodes;
        ParseList(mem, pos, k, pos + |EncodeAll(keys)|);
        nodes := [NodeAt(mem, pos)] + tail;
      } else {
        EncodeNone(k);
        assert [] + Live(rest) == Live(rest);
      }
    }
  }

  /** A written database is accepted again exactly when every live list is longer than its signature size. */
  lemma {:induction false} ReparseIff(mem: seq<byte>, pos: nat, keys: seq<Key>)
    requires AllKeysFit(keys) && At(mem, pos, EncodeAll(keys)) && pos + |EncodeAll(keys)| + LIST_HEADER <= |mem|
    ensures Count(mem, pos, pos + |EncodeAll(keys)|).Some? <==> AllOk(keys)
    decreases |keys|
  {
    hide *;
    if keys == [] {
      EmptyDatabase(mem, pos);
      NoneOk();
    } else {
      var k, rest := keys[0], keys[1..];
      FitRest(keys);
      EncodeFront(keys);
      AtSplit(mem, pos, Encode(k), EncodeAll(rest));
      ReparseIff(mem, pos + |Encode(k)|, rest);
      if k.content.None? {
        EncodeNone(k);
      } else if KeyOk(k) {
        ParseList(mem, pos, k, pos + |EncodeAll(keys)|);
      } else {
        UnreadList(mem, pos, k, pos + |EncodeAll(keys)|);
      }
    }
  }

  lemma NoneOk()
    ensures AllOk([])
  {
  }

  lemma FitRest(keys: seq<Key>)
    requires AllKeysFit(keys) && keys != []
    ensures KeyFits(keys[0]) && AllKeysFit(keys[1..]) && keys == [keys[0]] + keys[1..]
    ensures AllOk(keys) <==> KeyOk(keys[0]) && AllOk(keys[1..])
    ensures keys[0].content.None? ==> KeyOk(keys[0])
  {
    var rest := keys[1..];
    assert forall i :: 0 <= i < |rest| ==> rest[i] == keys[i + 1];
    if KeyOk(keys[0]) && AllOk(rest) {
      forall i | 0 <= i < |keys| ensures KeyOk(keys[i]) { if i > 0 { assert keys[i] == rest[i - 1]; } }
    }
  }

  lemma UnreadList(mem: seq<byte>, pos: nat, k: Key, size: nat)
    requires At(mem, pos, Encode(k)) && KeyFits(k) && !KeyOk(k) && k.content.Some? && pos + |Encode(k)| <= size && size + LIST_HEADER <= |mem|
    ensures Count(mem, pos, size).None?
  {
    hide At, Get, Header, KeyFits;
    ReadFields(mem, pos, k);
  }

  lemma EmptyDatabase(mem: seq<byte>, pos: nat)
    requires pos + LIST_HEADER <= |mem|
    ensures EncodeAll([]) == [] && Live([]) == [] && Count(mem, pos, pos) == Some(0) && Nodes(mem, pos, pos) == Some([])
  {
  }

  lemma AllOkRest(keys: seq<Key>)
    requires AllOk(keys) && keys != []
    ensures KeyOk(keys[0]) && AllOk(keys[1..]) && keys == [keys[0]] + keys[1..]
  {
    var rest := keys[1..];
    assert forall i :: 0 <= i < |rest| ==> rest[i] == keys[i + 1];
  }

  lemma EncodeNone(k: Key)
    requires k.content.None?
    ensures Encode(k) == []
  {
  }

  lemma CountMore(mem: seq<byte>, pos: nat, size: nat)
    requires size + LIST_HEADER <= |mem| && pos + LIST_HEADER <= size && pos + ListSize(mem, pos) <= size
    requires ListSize(mem, pos) > SigSize(mem, pos) && ValidKind(Kind(mem, pos), SigSize(mem, pos))
    ensures Count(mem, pos, size) ==
      match Count(mem, pos + ListSize(mem, pos), size) case None => None case Some(n) => Some(n + 1)
  {
  }

  // ---------------------------------------------------------------- lookup

  function EntriesOf(k: Key): seq<Entry> {
    if k.content.None? || EntrySize(k.kind) == 0 then [] else Entries(k.content.value, EntrySize(k.kind))
  }

  predicate HasDigest(es: seq<Entry>, h: seq<byte>) { exists j :: 0 <= j < |es| && Digest(es[j]) == h }

  /** Some list of this kind holds the digest. */
  predicate Listed(keys: seq<Key>, kind: Guid, h: seq<byte>) {
    exists i :: 0 <= i < |keys| && keys[i].kind == kind && HasDigest(EntriesOf(keys[i]), h)
  }

  /** What the lookup needs of the database: no list headers, entry sizes nonzero and right for the kind sought. */
  predicate Readable(mem: seq<byte>, pos: nat, size: nat, kind: Guid, h: seq<byte>)
    requires size + LIST_HEADER <= |mem|
    decreases size - pos
  {
    More(mem, pos, size) ==>
      && pos + LIST_HEADER <= size && ListSize(mem, pos) > 0 && SigSize(mem, pos) > 0
      && (Kind(mem, pos) == kind ==>
            HeaderSize(mem, pos) == 0 && SigSize(mem, pos) == OWNER + |h| && ListSize(mem, pos) >= LIST_HEADER)
      && Readable(mem, pos + ListSize(mem, pos), size, kind, h)
  }

  function Body(mem: seq<byte>, pos: nat): seq<byte>
    requires pos + LIST_HEADER <= |mem|
  {
    if LIST_HEADER <= ListSize(mem, pos) <= |mem| - pos then mem[pos + LIST_HEADER..pos + ListSize(mem, pos)] else []
  }

  predicate FoundFrom(mem: seq<byte>, pos: nat, size: nat, kind: Guid, h: seq<byte>)
    requires size + LIST_HEADER <= |mem|
    decreases size - pos
  {
    && More(mem, pos, size) && ListSize(mem, pos) > 0
    && (|| (Kind(mem, pos) == kind && HasDigest(Entries(Body(mem, pos), OWNER + |h|), h))
        || FoundFrom(mem, pos + ListSize(mem, pos), size, kind, h))
  }

  /** check_db_hash_in_ram. */
  method CheckDbHashInRam(mem: seq<byte>, size: nat, h: seq<byte>, kind: Guid) returns (found: bool)
    requires size + LIST_HEADER <= |mem| && Readable(mem, 0, size, kind, h)
    ensures found == FoundFrom(mem, 0, size, kind, h)
    ensures found <==> HoldsFrom(mem, 0, size, kind, h)
  {
    hide Entries, Get, HasDigest, Body, HoldsFrom;
    FoundIff(mem, 0, size, kind, h);
    var pos, dbsize := 0, size;
    found := false;
    while dbsize > 0 && dbsize >= ListSize(mem, pos)
      invariant pos + dbsize == size && Readable(mem, pos, size, kind, h) && !found
      invariant FoundFrom(mem, 0, size, kind, h) == FoundFrom(mem, pos, size, kind, h)
      decreases dbsize
    {
      if Kind(mem, pos) == kind {
        found := SearchList(mem, pos, h);
        if found { return; }
      }
      dbsize := dbsize - ListSize(mem, pos);
      pos := pos + ListSize(mem, pos);
    }
  }

  /** The inner loop over one list's signatures. */
  method SearchList(mem: seq<byte>, pos: nat, h: seq<byte>) returns (found: bool)
    requires pos + LIST_HEADER <= |mem| && LIST_HEADER <= ListSize(mem, pos) <= |mem| - pos
    requires HeaderSize(mem, pos) == 0 && SigSize(mem, pos) == OWNER + |h|
    ensures found == HasDigest(Entries(Body(mem, pos), OWNER + |h|), h)
  {
    hide Entries, Left, Concat, AllSized, Digest, Get;
    var sz := SigSize(mem, pos);
    ghost var body := Body(mem, pos);
    ghost var es, left := Entries(body, sz), Left(body, sz);
    EntriesCover(body, sz);
    EntriesNumber(body, sz);
    var count := (ListSize(mem, pos) - LIST_HEADER - HeaderSize(mem, pos)) / sz;
    var cert, index := pos + LIST_HEADER + HeaderSize(mem, pos), 0;
    ghost var off: nat := 0;
    NextMultiple(0, sz);
    while index < count
      invariant index <= count == |es| && off == index * sz && cert == pos + LIST_HEADER + off
      invariant forall j :: 0 <= j < index ==> Digest(es[j]) != h
    {
      DigestAt(mem, pos + LIST_HEADER, es, left, sz, index, off);
      if mem[cert + OWNER..cert + OWNER + |h|] == h { return true; }
      NextMultiple(index, sz);
      cert := cert + sz;
      off, index := off + sz, index + 1;
    }
    return false;
  }

  // ---------------------------------------------------------------- the lookup in offsets and bytes

  /** Offsets of lists that follow each other from pos, each inside the variable. */
  predicate ListsFollow(mem: seq<byte>, pos: nat, size: nat, offs: seq<nat>)
    requires size + 28 <= |mem|
  {
    && offs != [] && offs[0] == pos
    && (forall k :: 0 <= k < |offs| ==> offs[k] < size && offs[k] + Get(mem, offs[k] + 16, 4) <= size)
    && forall k :: 0 <= k < |offs| - 1 ==> Follows(mem, offs[k], offs[k + 1])
  }

  /** The list at next begins where the one at off ends. */
  predicate Follows(mem: seq<byte>, off: nat, next: nat) { off + 20 <= |mem| && next == off + Get(mem, off + 16, 4) }

  /** Signature j of the list at off is whole and its digest is h. */
  predicate DigestIs(mem: seq<byte>, off: nat, j: nat, h: seq<byte>)
    requires off + 28 <= |mem|
  {
    var at := off + 28 + j * (16 + |h|) + 16;
    at + |h| <= off + Get(mem, off + 16, 4) && at + |h| <= |mem| && mem[at..at + |h|] == h
  }

  /** The list at off is of this kind and holds the digest. */
  ghost predicate ListHolds(mem: seq<byte>, off: nat, kind: Guid, h: seq<byte>)
    requires off + 28 <= |mem|
  {
    mem[off..off + 16] == kind && exists j: nat :: DigestIs(mem, off, j, h)
  }

  /** Some list of this kind, reached list by list from pos, holds the digest. */
  ghost predicate HoldsFrom(mem: seq<byte>, pos: nat, size: nat, kind: Guid, h: seq<byte>)
    requires size + 28 <= |mem|
  {
    exists offs: seq<nat> :: ListsFollow(mem, pos, size, offs) && ListHolds(mem, offs[|offs| - 1], kind, h)
  }

  lemma DigestsIff(mem: seq<byte>, off: nat, h: seq<byte>)
    requires off + LIST_HEADER <= |mem| && LIST_HEADER <= ListSize(mem, off) <= |mem| - off
    ensures HasDigest(Entries(Body(mem, off), OWNER + |h|), h) <==> exists j: nat :: DigestIs(mem, off, j, h)
  {
    hide Entries, Get, Digest, DigestIs;
    var sz, body := OWNER + |h|, Body(mem, off);
    var es := Entries(body, sz);
    EntriesNumber(body, sz);
    if HasDigest(es, h) {
      var j: nat :| j < |es| && Digest(es[j]) == h;
      EntryDigest(mem, off, h, j);
    }
    forall j: nat | DigestIs(mem, off, j, h) ensures HasDigest(es, h) {
      DigestBound(mem, off, j, h);
      EntryDigest(mem, off, h, j);
      assert Digest(es[j]) == h;
    }
  }

  lemma DigestBound(mem: seq<byte>, off: nat, j: nat, h: seq<byte>)
    requires off + LIST_HEADER <= |mem| && LIST_HEADER <= ListSize(mem, off) <= |mem| - off && DigestIs(mem, off, j, h)
    ensures j < |Body(mem, off)| / (OWNER + |h|)
  {
    hide Get;
    WholeEntry(j, OWNER + |h|, |Body(mem, off)|);
  }

  /** Entry j's digest is h exactly when the bytes say so. */
  lemma EntryDigest(mem: seq<byte>, off: nat, h: seq<byte>, j: nat)
    requires off + LIST_HEADER <= |mem| && LIST_HEADER <= ListSize(mem, off) <= |mem| - off
    requires j < |Entries(Body(mem, off), OWNER + |h|)|
    ensures Digest(Entries(Body(mem, off), OWNER + |h|)[j]) == h <==> DigestIs(mem, off, j, h)
  {
    hide Entries, Left, Concat, Get, Digest;
    var sz, body := OWNER + |h|, Body(mem, off);
    var es, left := Entries(body, sz), Left(body, sz);
    EntriesCover(body, sz);
    EntriesNumber(body, sz);
    DigestAt(mem, off + LIST_HEADER, es, left, sz, j, j * sz);
    InsideList(j, |es|, sz, |body|);
  }

  lemma InsideList(j: nat, n: nat, sz: nat, len: nat)
    requires j < n && sz > 0 && n == len / sz
    ensures j * sz + sz <= len
  {
    assert n * sz <= len;
    if j + 1 < n { MulGap(n, j + 1, sz); }
    assert (j + 1) * sz == j * sz + sz;
  }

  lemma WholeEntry(j: nat, sz: nat, len: nat)
    requires sz > 0 && j * sz + sz <= len
    ensures j < len / sz
  {
    var n := len / sz;
    assert len < n * sz + sz;
    if n <= j && n < j { MulGap(j, n, sz); }
  }

  /** One list further. */
  lemma HoldsStep(mem: seq<byte>, pos: nat, size: nat, kind: Guid, h: seq<byte>)
    requires size + 28 <= |mem| && pos < size && Get(mem, pos + 16, 4) <= size - pos
    ensures HoldsFrom(mem, pos, size, kind, h) <==>
      ListHolds(mem, pos, kind, h) || HoldsFrom(mem, pos + Get(mem, pos + 16, 4), size, kind, h)
  {
    hide ListHolds, Get;
    var next := pos + Get(mem, pos + 16, 4);
    if HoldsFrom(mem, pos, size, kind, h) {
      var offs: seq<nat> :| ListsFollow(mem, pos, size, offs) && ListHolds(mem, offs[|offs| - 1], kind, h);
      if |offs| > 1 {
        var rest := offs[1..];
        assert forall k :: 0 <= k < |rest| ==> rest[k] == offs[k + 1];
        assert ListsFollow(mem, next, size, rest);
      }
    }
    if ListHolds(mem, pos, kind, h) {
      var one: seq<nat> := [pos];
      assert ListsFollow(mem, pos, size, one) && one[|one| - 1] == pos;
    }
    if HoldsFrom(mem, next, size, kind, h) {
      var rest: seq<nat> :| ListsFollow(mem, next, size, rest) && ListHolds(mem, rest[|rest| - 1], kind, h);
      var offs := [pos] + rest;
      assert forall k :: 0 < k < |offs| ==> offs[k] == rest[k - 1];
      assert ListsFollow(mem, pos, size, offs) && offs[|offs| - 1] == rest[|rest| - 1];
    }
  }

  lemma NoLists(mem: seq<byte>, pos: nat, size: nat, kind: Guid, h: seq<byte>)
    requires size + 28 <= |mem| && !(pos < size && Get(mem, pos + 16, 4) <= size - pos)
    ensures !HoldsFrom(mem, pos, size, kind, h)
  {
    hide ListHolds, Get;
  }

  /**
   In any database the walk can cross, and for a digest of any kind, the lookup says yes exactly when the
   bytes hold it: list by list from the start to one of this kind with the digest at a whole signature.
   */
  lemma {:induction false} FoundIff(mem: seq<byte>, pos: nat, size: nat, kind: Guid, h: seq<byte>)
    requires size + LIST_HEADER <= |mem| && Readable(mem, pos, size, kind, h)
    ensures FoundFrom(mem, pos, size, kind, h) <==> HoldsFrom(mem, pos, size, kind, h)
    decreases size - pos
  {
    hide HasDigest, Entries, ListHolds, HoldsFrom, Get, Body;
    if !More(mem, pos, size) {
      NoLists(mem, pos, size, kind, h);
    } else {
      HoldsStep(mem, pos, size, kind, h);
      KindBytes(mem, pos, kind, h);
      if Kind(mem, pos) == kind { DigestsIff(mem, pos, h); }
      FoundIff(mem, pos + ListSize(mem, pos), size, kind, h);
    }
  }

  lemma KindBytes(mem: seq<byte>, pos: nat, kind: Guid, h: seq<byte>)
    requires pos + LIST_HEADER <= |mem|
    ensures ListHolds(mem, pos, kind, h) <==> Kind(mem, pos) == kind && exists j: nat :: DigestIs(mem, pos, j, h)
  {
  }

  lemma HasDigestCons(k: Key, rest: seq<Key>, keys: seq<Key>, kind: Guid, h: seq<byte>)
    requires keys == [k] + rest
    ensures Listed(keys, kind, h) <==> (k.kind == kind && HasDigest(EntriesOf(k), h)) || Listed(rest, kind, h)
  {
    hide HasDigest, EntriesOf;
    assert keys[0] == k;
    assert forall i :: 0 <= i < |rest| ==> keys[i + 1] == rest[i];
    if Listed(keys, kind, h) {
      var i :| 0 <= i < |keys| && keys[i].kind == kind && HasDigest(EntriesOf(keys[i]), h);
      if i > 0 { assert rest[i - 1] == keys[i]; }
    }
  }

  /** Looking a SHA-2 hash up in a written database finds it exactly when a live list holds it. */
  lemma {:induction false} LookupWritten(mem: seq<byte>, pos: nat, keys: seq<Key>, kind: Guid, h: seq<byte>)
    requires AllKeysFit(keys) && At(mem, pos, EncodeAll(keys)) && pos + |EncodeAll(keys)| + LIST_HEADER <= |mem|
    requires IsSha2(kind) && |h| == ShaSize(kind)
    ensures Readable(mem, pos, pos + |EncodeAll(keys)|, kind, h)
    ensures FoundFrom(mem, pos, pos + |EncodeAll(keys)|, kind, h) == Listed(keys, kind, h)
    decreases |keys|
  {
    hide *;
    if keys == [] {
      EmptyLookup(mem, pos, kind, h);
    } else {
      var k, rest := keys[0], keys[1..];
      FitRest(keys);
      EncodeFront(keys);
      AtSplit(mem, pos, Encode(k), EncodeAll(rest));
      LookupWritten(mem, pos + |Encode(k)|, rest, kind, h);
      HasDigestCons(k, rest, keys, kind, h);
      if k.content.Some? {
        LookupList(mem, pos, k, pos + |EncodeAll(keys)|, kind, h);
      } else {
        EncodeNone(k);
        NothingListed(k, h);
      }
    }
  }

  lemma EmptyLookup(mem: seq<byte>, pos: nat, kind: Guid, h: seq<byte>)
    requires pos + LIST_HEADER <= |mem|
    ensures EncodeAll([]) == [] && Readable(mem, pos, pos, kind, h) && !FoundFrom(mem, pos, pos, kind, h) && !Listed([], kind, h)
  {
  }

  /** The lookup steps over one written list. */
  lemma LookupList(mem: seq<byte>, pos: nat, k: Key, size: nat, kind: Guid, h: seq<byte>)
    requires At(mem, pos, Encode(k)) && KeyFits(k) && k.content.Some? && IsSha2(kind) && |h| == ShaSize(kind)
    requires pos + |Encode(k)| <= size && size + LIST_HEADER <= |mem|
    ensures Readable(mem, pos, size, kind, h) == Readable(mem, pos + |Encode(k)|, size, kind, h)
    ensures FoundFrom(mem, pos, size, kind, h) ==
      ((k.kind == kind && HasDigest(EntriesOf(k), h)) || FoundFrom(mem, pos + |Encode(k)|, size, kind, h))
  {
    hide Encode, At, Kind, Get, KeyFits, HasDigest, Entries;
    KindsDiffer();
    ReadFields(mem, pos, k);
    if k.kind == kind { BodyIs(mem, pos, k); }
  }

  lemma NothingListed(k: Key, h: seq<byte>)
    requires k.content.None?
    ensures !HasDigest(EntriesOf(k), h)
  {
  }

  lemma BodyIs(mem: seq<byte>, pos: nat, k: Key)
    requires At(mem, pos, Encode(k)) && k.content.Some? && IsSha2(k.kind) && pos + LIST_HEADER <= |mem|
    requires ListSize(mem, pos) == |Encode(k)|
    ensures Body(mem, pos) == k.content.value
  {
    hide Header, At, Get;
    KindsDiffer();
    AtSplit(mem, pos, Header(k.kind, |k.content.value| + LIST_HEADER, EntrySize(k.kind)), k.content.value);
    AtBound(mem, pos + LIST_HEADER, k.content.value);
  }
}
