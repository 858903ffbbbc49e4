/** Deleting keys end to end: which certificates and hashes a later boot still finds. */
module MokLaws {
  import opened Bytes
  import opened SigList
  import opened HashPurge
  import opened HashList
  import opened MokDelete
  import opened MokCodec
  import opened MokLookup

  // ---------------------------------------------------------------- databases without list headers

  /** SignatureHeaderSize is zero in every list, as it is for every kind these databases hold. */
  predicate ZeroHeaders(mem: seq<byte>, pos: nat, size: nat)
    requires size + LIST_HEADER <= |mem|
    decreases size - pos
  {
    More(mem, pos, size) && ListSize(mem, pos) > 0 ==>
      HeaderSize(mem, pos) == 0 && ZeroHeaders(mem, pos + ListSize(mem, pos), size)
  }

  lemma WordBound(mem: seq<byte>, at: nat)
    requires at + 4 <= |mem|
    ensures Get(mem, at, 4) < 0x1_0000_0000
  {
    Powers();
    FromLEBound(mem[at..at + 4]);
  }

  /** One list of an accepted database: where its content lies. */
  lemma ListFacts(mem: seq<byte>, pos: nat, size: nat)
    requires size + LIST_HEADER <= |mem| && size < 0xffff_ff00 && More(mem, pos, size)
    requires Count(mem, pos, size).Some? && Nodes(mem, pos, size).Some? && HeaderSize(mem, pos) == 0
    ensures ListSize(mem, pos) > 0 && pos + LIST_HEADER <= size
    ensures
      var n := NodeAt(mem, pos);
      && n.mok.Some? && NodeFits(n, size) && pos + LIST_HEADER <= n.mok.value && n.size > 0
      && n.mok.value + n.size < pos + ListSize(mem, pos) + LIST_HEADER
      && KeyOk(ViewNode(n, mem)) && ViewNode(n, mem).kind == Kind(mem, pos)
      && (Kind(mem, pos) != X509 ==>
            && IsSha2(Kind(mem, pos)) && SigSize(mem, pos) == EntrySize(Kind(mem, pos))
            && ListSize(mem, pos) >= LIST_HEADER && ViewNode(n, mem).content == Some(Body(mem, pos)))
  {
    hide Get, ShaSize, Nodes, Kind;
    WordBound(mem, pos + 16);
    WordBound(mem, pos + 24);
    KindsDiffer();
    NodesStep(mem, pos, size);
  }

  /** All nodes lie in order, apart from each other. */
  lemma {:induction false} NodesLaid(mem: seq<byte>, pos: nat, size: nat)
    requires size + LIST_HEADER <= |mem| && size < 0xffff_ff00
    requires Count(mem, pos, size).Some? && Nodes(mem, pos, size).Some? && ZeroHeaders(mem, pos, size)
    ensures
      var nodes := Nodes(mem, pos, size).value;
      && Laid(nodes, size)
      && (forall i :: 0 <= i < |nodes| ==> nodes[i].mok.Some? && pos + LIST_HEADER <= nodes[i].mok.value && nodes[i].size > 0)
    decreases size - pos
  {
    hide NodeAt, KeyOk, ViewNode, Get, Body, Kind;
    if More(mem, pos, size) {
      ListFactsZero(mem, pos, size);
      ListFacts(mem, pos, size);
      CountStep(mem, pos, size);
      NodesStep(mem, pos, size);
      NodesLaid(mem, pos + ListSize(mem, pos), size);
      var node, rest := NodeAt(mem, pos), Nodes(mem, pos + ListSize(mem, pos), size).value;
      LaidCons(node, rest, size);
    } else {
      NodesDone(mem, pos, size);
    }
  }

  lemma ListFactsZero(mem: seq<byte>, pos: nat, size: nat)
    requires size + LIST_HEADER <= |mem| && More(mem, pos, size) && Count(mem, pos, size).Some? && ZeroHeaders(mem, pos, size)
    ensures HeaderSize(mem, pos) == 0 && ZeroHeaders(mem, pos + ListSize(mem, pos), size)
  {
  }

  lemma LaidCons(node: Node, rest: seq<Node>, len: nat)
    requires NodeFits(node, len) && Laid(rest, len) && node.mok.Some?
    requires forall i :: 0 <= i < |rest| ==> rest[i].mok.Some? && node.mok.value + node.size <= rest[i].mok.value
    ensures Laid([node] + rest, len)
  {
    var all := [node] + rest;
    forall i, j | 0 <= i < j < |all| ensures Apart(all[i], all[j]) {
      if i > 0 { assert Apart(rest[i - 1], rest[j - 1]); } else { assert all[j] == rest[j - 1]; }
    }
  }

  lemma LaidWider(nodes: seq<Node>, len: nat, len': nat)
    requires Laid(nodes, len) && len <= len'
    ensures Laid(nodes, len')
  {
  }

  /** The database as kinds and contents. */
  function Keys(mem: seq<byte>, size: nat): (keys: seq<Key>)
    requires size + LIST_HEADER <= |mem| && size < 0xffff_ff00
    requires Count(mem, 0, size).Some? && Nodes(mem, 0, size).Some? && ZeroHeaders(mem, 0, size)
  {
    NodesLaid(mem, 0, size);
    LaidWider(Nodes(mem, 0, size).value, size, |mem|);
    View(Nodes(mem, 0, size).value, mem)
  }

  /** Every list of an accepted database can be written back, and lookup sees what its keys hold. */
  lemma {:induction false} LookupParsed(mem: seq<byte>, pos: nat, size: nat, keys: seq<Key>, kind: Guid, h: seq<byte>)
    requires size + LIST_HEADER <= |mem| && size < 0xffff_ff00
    requires Count(mem, pos, size).Some? && Nodes(mem, pos, size).Some? && ZeroHeaders(mem, pos, size)
    requires |keys| == |Nodes(mem, pos, size).value|
    requires forall i :: 0 <= i < |keys| ==>
      NodeFits(Nodes(mem, pos, size).value[i], |mem|) && keys[i] == ViewNode(Nodes(mem, pos, size).value[i], mem)
    requires IsSha2(kind) && |h| == ShaSize(kind)
    ensures AllOk(keys)
    ensures forall i :: 0 <= i < |keys| ==> keys[i].content.Some?
    ensures Readable(mem, pos, size, kind, h) && FoundFrom(mem, pos, size, kind, h) == Listed(keys, kind, h)
    decreases size - pos
  {
    hide NodeAt, KeyOk, ViewNode, Get, Body, Kind, HasDigest, Entries, Listed, ValidKind;
    if More(mem, pos, size) {
      ListFactsZero(mem, pos, size);
      ListFacts(mem, pos, size);
      CountStep(mem, pos, size);
      NodesStep(mem, pos, size);
      var k, rest := keys[0], keys[1..];
      assert k == ViewNode(NodeAt(mem, pos), mem);
      var all, tail := Nodes(mem, pos, size).value, Nodes(mem, pos + ListSize(mem, pos), size).value;
      forall i | 0 <= i < |rest| ensures NodeFits(tail[i], |mem|) && rest[i] == ViewNode(tail[i], mem) {
        assert all[i + 1] == tail[i] && rest[i] == keys[i + 1];
      }
      assert keys == [k] + rest;
      LookupParsed(mem, pos + ListSize(mem, pos), size, rest, kind, h);
      HasDigestCons(k, rest, keys, kind, h);
      NodeSome(NodeAt(mem, pos), mem);
      OneListLookup(mem, pos, size, k, kind, h);
    } else {
      NodesDone(mem, pos, size);
      NothingIn(kind, h);
    }
  }

  lemma NodeSome(n: Node, mem: seq<byte>)
    requires n.mok.Some? && NodeFits(n, |mem|)
    ensures ViewNode(n, mem).content.Some?
  {
  }

  lemma NothingIn(kind: Guid, h: seq<byte>)
    ensures !Listed([], kind, h)
  {
  }

  lemma OneListLookup(mem: seq<byte>, pos: nat, size: nat, k: Key, kind: Guid, h: seq<byte>)
    requires size + LIST_HEADER <= |mem| && size < 0xffff_ff00 && More(mem, pos, size)
    requires Count(mem, pos, size).Some? && Nodes(mem, pos, size).Some? && HeaderSize(mem, pos) == 0
    requires k == ViewNode(NodeAt(mem, pos), mem) && IsSha2(kind) && |h| == ShaSize(kind)
    requires NodeFits(NodeAt(mem, pos), |mem|)
    ensures ListSize(mem, pos) > 0
    ensures Readable(mem, pos, size, kind, h) == Readable(mem, pos + ListSize(mem, pos), size, kind, h)
    ensures FoundFrom(mem, pos, size, kind, h) ==
      ((k.kind == kind && HasDigest(EntriesOf(k), h)) || FoundFrom(mem, pos + ListSize(mem, pos), size, kind, h))
  {
    hide NodeAt, KeyOk, ViewNode, Get, Body, Kind, HasDigest, Entries;
    ListFacts(mem, pos, size);
    KindsDiffer();
    CountStep2(mem, pos, size);
  }

  lemma CountStep2(mem: seq<byte>, pos: nat, size: nat)
    requires size + LIST_HEADER <= |mem| && Count(mem, pos, size).Some? && More(mem, pos, size)
    ensures SigSize(mem, pos) > 0
  {
    KindsDiffer();
  }

  // ---------------------------------------------------------------- many deletions from one list

  function FilterAll(es: seq<Entry>, hs: seq<seq<byte>>): seq<Entry>
    decreases |hs|
  {
    if hs == [] then es else FilterAll(Filter(es, hs[0]), hs[1..])
  }

  lemma {:induction false} FilterAllKeeps(es: seq<Entry>, hs: seq<seq<byte>>)
    ensures forall e: Entry :: e in FilterAll(es, hs) <==> e in es && Digest(e) !in hs
    decreases |hs|
  {
    hide Filter, Digest;
    if hs != [] {
      FilterFewer(es, hs[0], hs[0]);
      FilterAllKeeps(Filter(es, hs[0]), hs[1..]);
      assert forall g: seq<byte> :: g in hs <==> g == hs[0] || g in hs[1..];
    }
  }

  lemma {:induction false} FilterAllAppend(es: seq<Entry>, a: seq<seq<byte>>, b: seq<seq<byte>>)
    ensures FilterAll(es, a + b) == FilterAll(FilterAll(es, a), b)
    decreases |a|
  {
    if a == [] { assert a + b == b; } else {
      assert (a + b)[1..] == a[1..] + b;
      FilterAllAppend(Filter(es, a[0]), a[1..], b);
    }
  }

  function Digests(es: seq<Entry>): (hs: seq<seq<byte>>)
    ensures |hs| == |es| && forall i :: 0 <= i < |es| ==> hs[i] == Digest(es[i])
  {
    seq(|es|, i requires 0 <= i < |es| => Digest(es[i]))
  }

  /** The hashes of one kind that a request asks to delete, in order. */
  function Requested(dels: seq<Key>, kind: Guid): seq<seq<byte>>
    decreases |dels|
  {
    if dels == [] then []
    else (if dels[0].kind == kind then Digests(EntriesOf(dels[0])) else []) + Requested(dels[1..], kind)
  }

  /** Bytes of a hash list behind its last whole entry. */
  function Tail(k: Key): seq<byte> {
    if k.content.None? || EntrySize(k.kind) == 0 then [] else Left(k.content.value, EntrySize(k.kind))
  }

  /** Each of these digests is listed at most once behind leading copies. */
  predicate ClearsAll(es: seq<Entry>, hs: seq<seq<byte>>) { forall h :: h in hs ==> Clears(es, h) }

  lemma ClearsRest(es: seq<Entry>, g: seq<byte>, hs: seq<seq<byte>>)
    requires ClearsAll(es, hs)
    ensures ClearsAll(Filter(es, g), hs)
  {
    hide Occurrences, Strip, Filter;
    forall h | h in hs ensures Clears(Filter(es, g), h) { StripFiltered(es, g, h); }
  }

  lemma {:induction false} ClearsBehind(es: seq<Entry>, gs: seq<seq<byte>>, hs: seq<seq<byte>>)
    requires ClearsAll(es, hs)
    ensures ClearsAll(FilterAll(es, gs), hs)
    decreases |gs|
  {
    hide Filter, ClearsAll;
    if gs != [] {
      ClearsRest(es, gs[0], hs);
      ClearsBehind(Filter(es, gs[0]), gs[1..], hs);
    }
  }

  /** A list holds something or is gone. */
  predicate Solid(k: Key) { k.content.Some? ==> k.content.value != [] }

  /** k' is k with its entries reduced to es: the tail stays, and the list goes only when nothing is left. */
  predicate ReducedTo(k: Key, k': Key, es: seq<Entry>) {
    && k'.kind == k.kind && Solid(k') && EntriesOf(k') == es
    && (k'.content.Some? ==> k.content.Some? && |k'.content.value| <= |k.content.value| && Tail(k') == Tail(k))
    && (k'.content.None? && k.content.Some? ==> es == [] && Tail(k) == [])
  }

  lemma ReducedTwice(k: Key, k1: Key, es1: seq<Entry>, k2: Key, es2: seq<Entry>)
    requires ReducedTo(k, k1, es1) && ReducedTo(k1, k2, es2)
    ensures ReducedTo(k, k2, es2)
  {
  }

  lemma ReducedNot(k: Key)
    requires Solid(k)
    ensures ReducedTo(k, k, EntriesOf(k))
  {
  }

  /** A list's bytes are its entries and its tail. */
  lemma ListBytes(k: Key)
    requires k.content.Some? && EntrySize(k.kind) > 0
    ensures k.content.value == Concat(EntriesOf(k)) + Tail(k)
    ensures |Concat(EntriesOf(k))| == |EntriesOf(k)| * EntrySize(k.kind)
    ensures |k.content.value| < EntrySize(k.kind) ==> EntriesOf(k) == []
  {
    hide Concat, Left;
    EntriesCover(k.content.value, EntrySize(k.kind));
    ConcatLength(EntriesOf(k), EntrySize(k.kind));
  }

  lemma HashReduces(k: Key, kind: Guid, h: seq<byte>)
    requires IsSha2(kind) && k.kind == kind && Solid(k) && Clears(EntriesOf(k), h)
    ensures ReducedTo(k, WithoutHash(k, kind, h), Filter(EntriesOf(k), h))
  {
    hide Filter, Entries, Left, Purged, Clears, IsSha2, ShaSize;
    SizePositive(kind);
    FilterEmpty(h);
    if k.content.Some? {
      var data, sz := k.content.value, EntrySize(kind);
      ListBytes(k);
      if |data| >= sz {
        PurgedOnce(data, h, sz);
        PurgedShorter(data, h, sz);
      }
    }
  }

  lemma FilterEmpty(h: seq<byte>)
    ensures Filter([], h) == []
  {
  }

  lemma SizePositive(kind: Guid)
    ensures EntrySize(kind) > 0
  {
  }

  lemma PurgedShorter(data: seq<byte>, h: seq<byte>, sz: nat)
    requires sz > 0 && Clears(Entries(data, sz), h)
    ensures Purged(data, h, sz).Some? ==> 0 < |Purged(data, h, sz).value| <= |data|
  {
    hide Occurrences, Strip, Purge, Filter;
    var es := Entries(data, sz);
    PurgeIsFilterIff(es, h);
    PurgeSized(es, h, 0, sz);
    ConcatLength(Filter(es, h), sz);
    ConcatLength(es, sz);
    EntriesCover(data, sz);
    FilterShorter(es, h);
    if |Filter(es, h)| < |es| { MulGap(|es|, |Filter(es, h)|, sz); }
  }

  lemma {:induction false} HashesReduce(k: Key, kind: Guid, es: seq<Entry>)
    requires IsSha2(kind) && k.kind == kind && Solid(k) && ClearsAll(EntriesOf(k), Digests(es))
    ensures ReducedTo(k, WithoutHashes(k, kind, es), FilterAll(EntriesOf(k), Digests(es)))
    decreases |es|
  {
    hide WithoutHash, Clears, Filter, IsSha2, Entries, Left, Digest;
    if es == [] {
      ReducedNot(k);
    } else {
      var k1 := WithoutHash(k, kind, Digest(es[0]));
      assert Digests(es)[0] in Digests(es) && Digests(es)[0] == Digest(es[0]);
      HashReduces(k, kind, Digest(es[0]));
      ClearsRest(EntriesOf(k), Digest(es[0]), Digests(es));
      assert forall h :: h in Digests(es)[1..] ==> h in Digests(es);
      HashesReduce(k1, kind, es[1..]);
      assert Digests(es)[1..] == Digests(es[1..]);
      ReducedTwice(k, k1, EntriesOf(k1), WithoutHashes(k, kind, es), FilterAll(EntriesOf(k), Digests(es)));
    }
  }

  lemma {:induction false} HashesElsewhere(k: Key, kind: Guid, es: seq<Entry>)
    requires k.kind != kind
    ensures WithoutHashes(k, kind, es) == k
    decreases |es|
  {
    if es != [] { HashesElsewhere(k, kind, es[1..]); }
  }

  lemma DelEntries(del: Key)
    requires IsSha2(del.kind) && del.content.Some?
    ensures EntriesOf(del) == Entries(del.content.value, EntrySize(del.kind))
  {
  }

  /** A hash list keeps exactly the entries whose digests are not requested, in order, and its tail. */
  lemma {:induction false} KeysReduce(k: Key, dels: seq<Key>)
    requires IsSha2(k.kind) && Solid(k) && ClearsAll(EntriesOf(k), Requested(dels, k.kind))
    ensures ReducedTo(k, WithoutKeys(k, dels), FilterAll(EntriesOf(k), Requested(dels, k.kind)))
    decreases |dels|
  {
    hide WithoutHashes, EntriesOf, Clears, FilterAll, IsSha2, Digests, Tail;
    KindsDifferHere(k.kind);
    FilterAllNone(EntriesOf(k));
    ReducedNot(k);
    if dels != [] {
      var del, mine := dels[0], if dels[0].kind == k.kind then Digests(EntriesOf(dels[0])) else [];
      var k1 := WithoutKey(k, del);
      RequestedParts(dels, k.kind, mine);
      if del.kind == k.kind {
        if del.content.Some? {
          DelEntries(del);
          HashesReduce(k, k.kind, EntriesOf(del));
        } else {
          NoEntries(del);
        }
      } else if del.content.Some? && IsSha2(del.kind) {
        HashesElsewhere(k, del.kind, Entries(del.content.value, EntrySize(del.kind)));
      }
      ClearsBehind(EntriesOf(k), mine, Requested(dels[1..], k.kind));
      KeysReduce(k1, dels[1..]);
      FilterAllAppend(EntriesOf(k), mine, Requested(dels[1..], k.kind));
      ReducedTwice(k, k1, EntriesOf(k1), WithoutKeys(k, dels), FilterAll(EntriesOf(k), Requested(dels, k.kind)));
    }
  }

  lemma RequestedParts(dels: seq<Key>, kind: Guid, mine: seq<seq<byte>>)
    requires dels != [] && mine == if dels[0].kind == kind then Digests(EntriesOf(dels[0])) else []
    ensures Requested(dels, kind) == mine + Requested(dels[1..], kind)
    ensures forall h :: h in Requested(dels, kind) <==> h in mine || h in Requested(dels[1..], kind)
  {
    hide Digests, EntriesOf;
  }

  lemma NoEntries(k: Key)
    requires k.content.None?
    ensures EntriesOf(k) == [] && Digests([]) == []
  {
  }

  lemma FilterAllNone(es: seq<Entry>)
    ensures FilterAll(es, []) == es
  {
  }

  lemma KindsDifferHere(kind: Guid)
    requires IsSha2(kind)
    ensures kind != X509
  {
    KindsDiffer();
  }

  /** A certificate goes exactly when the request lists its bytes. */
  lemma {:induction false} CertsReduce(k: Key, dels: seq<Key>)
    requires k.kind == X509 && k.content.Some?
    ensures WithoutKeys(k, dels) == Key(X509, if k in dels then None else k.content)
    decreases |dels|
  {
    hide WithoutHashes, Entries;
    KindsDiffer();
    if dels != [] {
      var rest := dels[1..];
      assert k in dels <==> k == dels[0] || k in rest;
      if dels[0].content.Some? && IsSha2(dels[0].kind) {
        HashesElsewhere(k, dels[0].kind, Entries(dels[0].content.value, EntrySize(dels[0].kind)));
      }
      if WithoutKey(k, dels[0]) == k {
        CertsReduce(k, rest);
      } else {
        GoneStaysGone(X509, rest);
      }
    }
  }

  lemma {:induction false} GoneStaysGone(kind: Guid, dels: seq<Key>)
    ensures WithoutKeys(Key(kind, None), dels) == Key(kind, None)
    decreases |dels|
  {
    hide Entries;
    if dels != [] {
      if dels[0].content.Some? && IsSha2(dels[0].kind) {
        NoneReduces(kind, dels[0].kind, Entries(dels[0].content.value, EntrySize(dels[0].kind)));
      }
      GoneStaysGone(kind, dels[1..]);
    }
  }

  lemma {:induction false} NoneReduces(kind: Guid, other: Guid, es: seq<Entry>)
    ensures WithoutHashes(Key(kind, None), other, es) == Key(kind, None)
    decreases |es|
  {
    if es != [] { NoneReduces(kind, other, es[1..]); }
  }

  // ---------------------------------------------------------------- the law

  function Deleted(keys: seq<Key>, dels: seq<Key>): (r: seq<Key>)
    ensures |r| == |keys| && forall i :: 0 <= i < |keys| ==> r[i] == WithoutKeys(keys[i], dels)
  {
    seq(|keys|, i requires 0 <= i < |keys| => WithoutKeys(keys[i], dels))
  }

  /** An accepted database in which no hash list lists a requested digest twice behind leading copies. */
  predicate Tidy(keys: seq<Key>, dels: seq<Key>) {
    forall i :: 0 <= i < |keys| ==> keys[i].content.Some? && KeyOk(keys[i]) && ClearsRequest(keys[i], dels)
  }

  predicate ClearsRequest(k: Key, dels: seq<Key>) { IsSha2(k.kind) ==> ClearsAll(EntriesOf(k), Requested(dels, k.kind)) }

  /**
   What is left of a hash list can be read again: it keeps an entry, or nothing is left of it, or its
   tail is longer than a signature without a list header.
   */
  predicate Survives(k: Key, dels: seq<Key>) {
    IsSha2(k.kind) ==>
      || FilterAll(EntriesOf(k), Requested(dels, k.kind)) != []
      || Tail(k) == []
      || |Tail(k)| + LIST_HEADER > EntrySize(k.kind)
  }

  predicate AllSurvive(keys: seq<Key>, dels: seq<Key>) { forall i :: 0 <= i < |keys| ==> Survives(keys[i], dels) }

  lemma OkIsSolid(k: Key)
    requires KeyOk(k)
    ensures Solid(k) && KeyFits(k) && Reads(k)
  {
  }

  lemma KeyAfter(k: Key, dels: seq<Key>)
    requires KeyOk(k) && k.content.Some? && ClearsRequest(k, dels)
    ensures KeyFits(WithoutKeys(k, dels)) && WithoutKeys(k, dels).kind == k.kind
    ensures KeyOk(WithoutKeys(k, dels)) <==> Survives(k, dels)
  {
    hide ClearsAll, WithoutKeys, EntriesOf, Tail, FilterAll, Requested;
    KindsDiffer();
    if k.kind == X509 {
      CertsReduce(k, dels);
    } else {
      KeysReduce(k, dels);
      var k' := WithoutKeys(k, dels);
      SizePositive(k.kind);
      if k'.content.Some? {
        ListBytes(k');
        if EntriesOf(k') != [] { MulAtLeast(|EntriesOf(k')|, EntrySize(k.kind)); } else { NoConcat(); }
      }
    }
  }

  lemma NoConcat()
    ensures Concat([]) == []
  {
  }

  lemma DigestKept(k: Key, dels: seq<Key>, h: seq<byte>)
    requires IsSha2(k.kind) && Solid(k) && ClearsRequest(k, dels)
    ensures HasDigest(EntriesOf(WithoutKeys(k, dels)), h) <==> HasDigest(EntriesOf(k), h) && h !in Requested(dels, k.kind)
  {
    hide ClearsAll, WithoutKeys, Requested, FilterAll, EntriesOf, IsSha2, Tail;
    KeysReduce(k, dels);
    var es, hs := EntriesOf(k), Requested(dels, k.kind);
    var es' := FilterAll(es, hs);
    FilterAllKeeps(es, hs);
    if HasDigest(es', h) {
      var j :| 0 <= j < |es'| && Digest(es'[j]) == h;
      assert es'[j] in es';
      assert es'[j] in es;
    }
    if HasDigest(es, h) && h !in hs {
      var j :| 0 <= j < |es| && Digest(es[j]) == h;
      assert es[j] in es;
      assert es[j] in es';
    }
  }

  /**
   After deletion a hash is listed exactly when it was listed before and not requested.  What is left can
   be written; it can be read again exactly when every hash list survives.
   */
  lemma DeletionListed(keys: seq<Key>, dels: seq<Key>, kind: Guid, h: seq<byte>)
    requires Tidy(keys, dels) && IsSha2(kind)
    ensures AllKeysFit(Deleted(keys, dels))
    ensures AllOk(Deleted(keys, dels)) <==> AllSurvive(keys, dels)
    ensures Listed(Deleted(keys, dels), kind, h) <==> Listed(keys, kind, h) && h !in Requested(dels, kind)
  {
    hide ClearsRequest, WithoutKeys, Requested, EntriesOf, IsSha2, KeyOk, KeyFits, HasDigest, Survives;
    var keys' := Deleted(keys, dels);
    forall i | 0 <= i < |keys|
      ensures KeyFits(keys'[i]) && keys'[i].kind == keys[i].kind && (KeyOk(keys'[i]) <==> Survives(keys[i], dels))
      ensures keys[i].kind == kind ==>
        (HasDigest(EntriesOf(keys'[i]), h) <==> HasDigest(EntriesOf(keys[i]), h) && h !in Requested(dels, kind))
    {
      KeyAfter(keys[i], dels);
      OkIsSolid(keys[i]);
      if keys[i].kind == kind { DigestKept(keys[i], dels, h); }
    }
    OkAsSurvive(keys, keys', dels);
  }

  lemma OkAsSurvive(keys: seq<Key>, keys': seq<Key>, dels: seq<Key>)
    requires |keys'| == |keys| && forall i :: 0 <= i < |keys| ==> (KeyOk(keys'[i]) <==> Survives(keys[i], dels))
    ensures AllOk(keys') <==> AllSurvive(keys, dels)
  {
    hide KeyOk, Survives;
  }

  /**
   Deleting keys and writing back, on a zero-header database that lists no requested
   digest twice behind leading copies: a boot-time lookup
   in the new variable finds a SHA-2 hash exactly when the old one held it and the request did not name
   it, and MokManager accepts the new variable exactly when every hash list survives.
   */
  lemma DeleteWriteLookup(mem: seq<byte>, size: nat, dels: seq<Key>, slack: seq<byte>, kind: Guid, h: seq<byte>)
    requires size + LIST_HEADER <= |mem| && size < 0xffff_ff00 && |slack| >= LIST_HEADER
    requires Count(mem, 0, size).Some? && Nodes(mem, 0, size).Some? && ZeroHeaders(mem, 0, size)
    requires Tidy(Keys(mem, size), dels) && IsSha2(kind) && |h| == ShaSize(kind)
    ensures
      var keys := Keys(mem, size);
      var written, size' := EncodeAll(Deleted(keys, dels)) + slack, |EncodeAll(Deleted(keys, dels))|;
      && Readable(written, 0, size', kind, h) && Readable(mem, 0, size, kind, h)
      && (FoundFrom(written, 0, size', kind, h) <==>
            FoundFrom(mem, 0, size, kind, h) && h !in Requested(dels, kind))
      && (Count(written, 0, size').Some? <==> AllSurvive(keys, dels))
  {
    hide Tidy, Nodes, Count, ZeroHeaders, EncodeAll, Readable, FoundFrom, Listed, Deleted, ViewNode, AllOk, AllKeysFit, AllSurvive;
    var keys := Keys(mem, size);
    var keys' := Deleted(keys, dels);
    var written := EncodeAll(keys') + slack;
    NodesLaid(mem, 0, size);
    LookupParsed(mem, 0, size, keys, kind, h);
    DeletionListed(keys, dels, kind, h);
    assert At(written, 0, EncodeAll(keys'));
    ReparseIff(written, 0, keys');
    LookupWritten(written, 0, keys', kind, h);
  }

  /** When every hash list survives, the new variable parses to exactly the surviving lists, in order. */
  lemma DeleteWriteReparse(mem: seq<byte>, size: nat, dels: seq<Key>, slack: seq<byte>) returns (nodes: seq<Node>)
    requires size + LIST_HEADER <= |mem| && size < 0xffff_ff00 && |slack| >= LIST_HEADER
    requires Count(mem, 0, size).Some? && Nodes(mem, 0, size).Some? && ZeroHeaders(mem, 0, size)
    requires Tidy(Keys(mem, size), dels) && AllSurvive(Keys(mem, size), dels)
    ensures
      var keys' := Deleted(Keys(mem, size), dels);
      var written, size' := EncodeAll(keys') + slack, |EncodeAll(keys')|;
      && Nodes(written, 0, size') == Some(nodes) && Count(written, 0, size') == Some(|nodes|)
      && |nodes| == |Live(keys')|
      && (forall i :: 0 <= i < |nodes| ==> NodeFits(nodes[i], |written|) && ViewNode(nodes[i], written) == Live(keys')[i])
  {
    hide Tidy, Nodes, Count, ZeroHeaders, EncodeAll, Live, Deleted, ViewNode, AllOk, AllKeysFit, AllSurvive, Listed;
    var keys' := Deleted(Keys(mem, size), dels);
    var written := EncodeAll(keys') + slack;
    KindsDiffer();
    DeletionListed(Keys(mem, size), dels, SHA256, []);
    assert At(written, 0, EncodeAll(keys'));
    nodes := Reparse(written, 0, keys');
  }

  /**
   A database of one SHA-256 list with one hash and five bytes behind it is accepted; once that hash is
   deleted, what is written back is not.
   */
  lemma TailUnreadable(entry: Entry, tail: seq<byte>, slack: seq<byte>) returns (nodes: seq<Node>)
    requires |entry| == 48 && |tail| == 5 && |slack| >= LIST_HEADER
    ensures
      var k, del := Key(SHA256, Some(entry + tail)), Key(SHA256, Some(entry));
      var mem, size := EncodeAll([k]) + slack, |EncodeAll([k])|;
      var after := EncodeAll([WithoutKeys(k, [del])]);
      && Count(mem, 0, size) == Some(1) && Nodes(mem, 0, size) == Some(nodes) && |nodes| == 1
      && WithoutKeys(k, [del]) == Key(SHA256, Some(tail))
      && Count(after + slack, 0, |after|).None?
  {
    hide EncodeAll, Count, Nodes, Live, ViewNode, At, WithoutHash, WithoutHashes, ShaSize, Entries;
    var k, del := Key(SHA256, Some(entry + tail)), Key(SHA256, Some(entry));
    KindsDiffer();
    assert EncodeAll([k]) <= EncodeAll([k]) + slack;
    StartsAt(EncodeAll([k]), slack);
    nodes := Reparse(EncodeAll([k]) + slack, 0, [k]);
    OneLive(k);
    var dels: seq<Key> := [del];
    assert dels[1..] == [];
    OnlyEntryGoes(entry, tail);
    var k' := Key(SHA256, Some(tail));
    ShaSizes();
    assert WithoutKey(k, del) == k';
    assert WithoutKeys(k', dels[1..]) == k';
    assert WithoutKeys(k, dels) == k';
    StartsAt(EncodeAll([k']), slack);
    assert AllKeysFit([k']);
    ReparseIff(EncodeAll([k']) + slack, 0, [k']);
    assert !KeyOk([k'][0]);
  }

  lemma StartsAt(s: seq<byte>, slack: seq<byte>)
    ensures At(s + slack, 0, s)
  {
  }

  lemma ShaSizes()
    ensures IsSha2(SHA256) && EntrySize(SHA256) == 48 && SHA256 != X509
  {
    KindsDiffer();
    assert SHA256[0] == 0x26 && SHA1[0] == 0x12 && SHA224[0] == 0x33;
  }

  lemma OneLive(k: Key)
    requires k.content.Some?
    ensures Live([k]) == [k]
  {
    var one: seq<Key> := [k];
    assert one[..0] == [] && Live([]) == [];
  }

  lemma OnlyEntryGoes(entry: Entry, tail: seq<byte>)
    requires |entry| == 48 && |tail| == 5
    ensures Entries(entry, 48) == [entry]
    ensures WithoutHashes(Key(SHA256, Some(entry + tail)), SHA256, [entry]) == Key(SHA256, Some(tail))
  {
    hide Digest;
    ShaSizes();
    var one: seq<Entry> := [entry];
    assert one[1..] == [];
    var data := entry + tail;
    assert data[..48] == entry && data[48..] == tail && entry[..48] == entry && entry[48..] == [];
    assert Left(tail, 48) == tail && Entries(tail, 48) == [];
    EntriesStep(data, 48);
    assert Entries(data, 48) == [entry] && Left(data, 48) == tail;
    assert FirstFrom(one, Digest(entry), 0, 1) == Some(0);
    assert Without(one, 0) == [];
    assert Purge([], Digest(entry), 0) == [];
    assert Concat([]) + tail == tail;
  }

  // ---------------------------------------------------------------- delete_keys

  /** How delete_keys ends once the request is authenticated. */
  datatype Outcome = NothingToDo | DatabaseErased | Aborted | Written(bytes: seq<byte>)

  /** Every node of an accepted request lies in it and holds something. */
  lemma {:induction false} NodesInside(mem: seq<byte>, pos: nat, size: nat)
    requires size + LIST_HEADER <= |mem| && size < 0xffff_ff00
    requires Count(mem, pos, size).Some? && Nodes(mem, pos, size).Some?
    ensures
      var nodes := Nodes(mem, pos, size).value;
      forall i :: 0 <= i < |nodes| ==> NodeFits(nodes[i], size) && nodes[i].mok.Some? && nodes[i].size > 0
    decreases size - pos
  {
    hide Get, Kind;
    if More(mem, pos, size) {
      WordBound(mem, pos + 16);
      KindsDiffer();
      CountStep(mem, pos, size);
      NodesInside(mem, pos + ListSize(mem, pos), size);
    } else {
      NodesDone(mem, pos, size);
    }
  }

  /** The lists of a request. */
  function Request(mem: seq<byte>, size: nat): (dels: seq<Key>)
    requires size + LIST_HEADER <= |mem| && size < 0xffff_ff00
    requires Count(mem, 0, size).Some? && Nodes(mem, 0, size).Some?
    ensures forall i :: 0 <= i < |dels| ==> dels[i].content.Some? && dels[i].content.value != []
  {
    NodesInside(mem, 0, size);
    var nodes := Nodes(mem, 0, size).value;
    seq(|nodes|, i requires 0 <= i < |nodes| => ViewNode(nodes[i], mem))
  }

  predicate Accepted(mem: seq<byte>, size: nat)
    requires size + LIST_HEADER <= |mem|
  {
    Count(mem, 0, size).Some? && Count(mem, 0, size).value > 0 && Nodes(mem, 0, size).Some?
  }

  /** The whole of delete_keys behind its password check: only two accepted lists lead to a rewrite. */
  method DeleteFromDb(mok: array<byte>, size: nat, request: seq<byte>, delSize: nat) returns (r: Outcome)
    requires size + LIST_HEADER <= mok.Length && size < 0xffff_ff00 && ZeroHeaders(mok[..], 0, size)
    requires delSize + LIST_HEADER <= |request| && delSize < 0xffff_ff00
    modifies mok
    ensures r.Written? <==> size > 0 && Accepted(old(mok[..]), size) && Accepted(request, delSize)
    ensures r.Written? ==> r.bytes == EncodeAll(Deleted(Keys(old(mok[..]), size), Request(request, delSize)))
    ensures r.NothingToDo? <==> size == 0
    ensures r.DatabaseErased? <==> size > 0 && Count(old(mok[..]), 0, size) in {None, Some(0)}
  {
    hide Nodes, Count, ZeroHeaders, EncodeAll, WithoutKeys, ViewNode, Laid;
    ghost var before := mok[..];
    if size == 0 { return NothingToDo; }
    var num := CountKeys(mok[..], size);
    if num == 0 { return DatabaseErased; }
    var list := BuildMokList(num, mok[..], size);
    if list == null { return Aborted; }
    var delNum := CountKeys(request, delSize);
    if delNum == 0 { return Aborted; }
    var delList := BuildMokList(delNum, request, delSize);
    if delList == null { return Aborted; }
    var found := delList[..];
    NodesInside(request, 0, delSize);
    assert forall i :: 0 <= i < |found| ==> NodeFits(found[i], |request|);
    var todo: seq<Key> := seq(|found|, i requires 0 <= i < |found| => ViewNode(found[i], request));
    assert todo == Request(request, delSize);
    NodesLaid(mok[..], 0, size);
    LaidWider(list[..], size, mok.Length);
    DeleteKeys(todo, list, mok);
    ghost var after := View(list[..], mok[..]);
    assert after == Deleted(Keys(before, size), todo);
    var bytes := WriteBackMokList(list, mok);
    return Written(bytes);
  }
}
