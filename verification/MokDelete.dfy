/**
 MokManager.c: deleting certificates and hashes in place.  The node array describes pieces of one
 data buffer; deleting a hash moves the bytes behind it forward inside its piece.
 */
module MokDelete {
  import opened Bytes
  import opened SigList
  import opened HashPurge
  import opened HashList

  /** A list as its kind and content; no content once it is deleted. */
  datatype Key = Key(kind: Guid, content: Option<seq<byte>>)

  predicate NodeFits(n: Node, len: nat) {
    if n.mok.None? then n.size == 0 else n.mok.value + n.size <= len
  }

  function ViewNode(n: Node, data: seq<byte>): Key
    requires NodeFits(n, |data|)
  {
    Key(n.kind, if n.mok.None? then None else Some(data[n.mok.value..n.mok.value + n.size]))
  }

  predicate Apart(m: Node, n: Node) {
    m.mok.Some? && n.mok.Some? ==> m.mok.value + m.size <= n.mok.value || n.mok.value + n.size <= m.mok.value
  }

  /** Every piece lies in the buffer and no two pieces overlap. */
  predicate Laid(nodes: seq<Node>, len: nat) {
    && (forall i :: 0 <= i < |nodes| ==> NodeFits(nodes[i], len))
    && forall i, j :: 0 <= i < j < |nodes| ==> Apart(nodes[i], nodes[j])
  }

  function View(nodes: seq<Node>, data: seq<byte>): (v: seq<Key>)
    requires Laid(nodes, |data|)
    ensures |v| == |nodes| && forall i :: 0 <= i < |nodes| ==> v[i] == ViewNode(nodes[i], data)
  {
    seq(|nodes|, i requires 0 <= i < |nodes| => ViewNode(nodes[i], data))
  }

  // ---------------------------------------------------------------- what deletion means

  function WithoutCert(k: Key, cert: seq<byte>): Key {
    if k == Key(X509, Some(cert)) then Key(X509, None) else k
  }

  function WithoutHash(k: Key, kind: Guid, h: seq<byte>): Key {
    if k.kind == kind && k.content.Some? && |k.content.value| >= EntrySize(kind)
    then Key(kind, Purged(k.content.value, h, EntrySize(kind)))
    else k
  }

  function WithoutHashes(k: Key, kind: Guid, es: seq<Entry>): Key
    decreases |es|
  {
    if es == [] then k else WithoutHashes(WithoutHash(k, kind, Digest(es[0])), kind, es[1..])
  }

  /** The effect of one list of the deletion request. */
  function WithoutKey(k: Key, del: Key): Key {
    if del.content.None? then k
    else if del.kind == X509 then WithoutCert(k, del.content.value)
    else if IsSha2(del.kind) then WithoutHashes(k, del.kind, Entries(del.content.value, EntrySize(del.kind)))
    else k
  }

  function WithoutKeys(k: Key, dels: seq<Key>): Key
    decreases |dels|
  {
    if dels == [] then k else WithoutKeys(WithoutKey(k, dels[0]), dels[1..])
  }

  // ---------------------------------------------------------------- one list

  /** match_hash: compares from the first entry, numbers from `start`. */
  method MatchHash(hash: seq<byte>, start: nat, data: array<byte>, mok: nat, num: nat,
                   ghost es: seq<Entry>, ghost left: seq<byte>) returns (r: Option<nat>)
    requires num == |es| && start <= num && AllSized(es, |hash| + OWNER)
    requires mok + |Concat(es) + left| <= data.Length && data[mok..mok + |Concat(es) + left|] == Concat(es) + left
    ensures r == Match(es, hash, start)
  {
    hide Concat, AllSized, Match, FirstFrom, Digest;
    ghost var sz := |hash| + OWNER;
    var ptr, i := mok + OWNER, start;
    ghost var off: nat, j: nat, lim: nat := 0, 0, num - start;
    ghost var all := Concat(es) + left;
    MatchFrom(es, hash, start);
    assert data[..][mok..mok + |all|] == data[mok..mok + |all|];
    NextMultiple(0, sz);
    while i < num
      invariant i == start + j && j <= lim && ptr == mok + OWNER + off && off == j * sz
      invariant FirstFrom(es, hash, 0, lim) == FirstFrom(es, hash, j, lim)
    {
      DigestAt(data[..], mok, es, left, sz, j, off);
      FirstFromStep(es, hash, j, lim);
      assert data[ptr..ptr + |hash|] == data[..][ptr..ptr + |hash|];
      if data[ptr..ptr + |hash|] == hash { return Some(i); }
      ptr := ptr + |hash| + OWNER;
      NextMultiple(j, sz);
      off, j := off + sz, j + 1;
      i := i + 1;
    }
    FirstFromStep(es, hash, lim, lim);
    return None;
  }

  lemma NextMultiple(j: nat, sz: nat)
    ensures (j + 1) * sz == j * sz + sz && 0 * sz == 0
  {
  }

  lemma FirstFromStep(es: seq<Entry>, h: seq<byte>, j: nat, lim: nat)
    requires j <= lim <= |es|
    ensures FirstFrom(es, h, j, lim) ==
      if j == lim then None else if Digest(es[j]) == h then Some(j) else FirstFrom(es, h, j + 1, lim)
  {
  }

  /** Where the digest of entry j lies in the buffer. */
  lemma DigestAt(b: seq<byte>, mok: nat, es: seq<Entry>, left: seq<byte>, sz: nat, j: nat, off: nat)
    requires sz >= OWNER && j < |es| && AllSized(es, sz) && off == j * sz
    requires mok + |Concat(es) + left| <= |b| && b[mok..mok + |Concat(es) + left|] == Concat(es) + left
    ensures
      var p := mok + OWNER + off;
      p + (sz - OWNER) <= |b| && b[p..p + (sz - OWNER)] == Digest(es[j])
  {
    EntryAt(es, left, sz, j);
    assert |es[j]| == sz;
    hide *;
    DigestOf(es[j]);
    SliceOfSlice(b, mok, Concat(es) + left, off, es[j]);
  }

  lemma SliceOfSlice(b: seq<byte>, mok: nat, all: seq<byte>, k: nat, e: seq<byte>)
    requires mok + |all| <= |b| && b[mok..mok + |all|] == all
    requires k + |e| <= |all| && all[k..k + |e|] == e && |e| >= OWNER
    ensures b[mok + OWNER + k..mok + k + |e|] == e[OWNER..]
  {
    forall i | 0 <= i < |e| ensures b[mok + k + i] == e[i] {
      assert all[k..k + |e|][i] == all[k + i] == b[mok..mok + |all|][k + i];
    }
    assert b[mok + k..mok + k + |e|] == e;
    assert b[mok + OWNER + k..mok + k + |e|] == b[mok + k..mok + k + |e|][OWNER..];
  }

  lemma DigestOf(e: Entry)
    requires |e| >= OWNER
    ensures Digest(e) == e[OWNER..]
  {
  }

  lemma MatchFrom(es: seq<Entry>, h: seq<byte>, start: nat)
    requires start <= |es|
    ensures Match(es, h, start) ==
      match FirstFrom(es, h, 0, |es| - start) case None => None case Some(j) => Some(start + j)
  {
  }

  /** mem_move: an ascending byte copy.  Upwards over itself it copies bytes it has just written. */
  method MemMove(data: array<byte>, dest: nat, src: nat, size: nat)
    requires src + size <= data.Length && dest + size <= data.Length
    modifies data
    ensures forall k :: 0 <= k < data.Length && !(dest <= k < dest + size) ==> data[k] == old(data[k])
    ensures forall k :: dest <= k < dest + size ==>
      data[k] == if dest <= src || k - dest + src < dest then old(data[k - dest + src]) else data[k - dest + src]
  {
    for i := 0 to size
      invariant forall k :: 0 <= k < data.Length && !(dest <= k < dest + i) ==> data[k] == old(data[k])
      invariant forall k :: dest <= k < dest + i ==>
        data[k] == if dest <= src || k - dest + src < dest then old(data[k - dest + src]) else data[k - dest + src]
    {
      data[dest + i] := data[src + i];
    }
  }

  /** Cut entry d out of the piece at mok. */
  method RemoveEntry(data: array<byte>, mok: nat, size: nat, d: nat, sz: nat,
                     ghost es: seq<Entry>, ghost left: seq<byte>)
    requires d < |es| && AllSized(es, sz) && mok + size <= data.Length && data[mok..mok + size] == Concat(es) + left
    modifies data
    ensures sz <= size && |Concat(Without(es, d)) + left| == size - sz
    ensures data[mok..mok + size - sz] == Concat(Without(es, d)) + left && AllSized(Without(es, d), sz)
    ensures forall k :: 0 <= k < data.Length && !(mok <= k < mok + size) ==> data[k] == old(data[k])
  {
    hide Concat, AllSized, Without;
    EntryAt(es, left, sz, d);
    ghost var piece := data[mok..mok + size];
    var off := d * sz;
    ghost var before := data[..];
    assert |piece| == size && |piece[..off] + piece[off + sz..]| == size - sz;
    assert before[mok..mok + size] == piece;
    MemMove(data, mok + off, mok + off + sz, size - (off + sz));
    PieceCut(before, data[..], mok, size, off, sz);
  }

  /** The bytes of a piece once a stretch is cut out by moving what follows it down. */
  lemma PieceCut(before: seq<byte>, after: seq<byte>, mok: nat, size: nat, off: nat, sz: nat)
    requires |after| == |before| && mok + size <= |before| && off + sz <= size
    requires forall k :: mok <= k < mok + off ==> after[k] == before[k]
    requires forall k :: mok + off <= k < mok + size - sz ==> after[k] == before[k + sz]
    ensures after[mok..mok + size - sz] == before[mok..mok + size][..off] + before[mok..mok + size][off + sz..]
  {
    var piece := before[mok..mok + size];
    assert piece[..off] == before[mok..mok + off];
    assert piece[off + sz..] == before[mok + off + sz..mok + size];
    assert after[mok..mok + off] == before[mok..mok + off];
    assert after[mok + off..mok + size - sz] == before[mok + off + sz..mok + size];
  }

  lemma PurgeStep(es: seq<Entry>, h: seq<byte>, start: nat)
    requires start <= |es|
    ensures Purge(es, h, start) ==
      match Match(es, h, start) case None => es case Some(d) => Purge(Without(es, d), h, d)
  {
  }

  lemma MatchRange(es: seq<Entry>, h: seq<byte>, start: nat)
    requires start <= |es| && Match(es, h, start).Some?
    ensures Match(es, h, start).value < |es| && |Without(es, Match(es, h, start).value)| == |es| - 1
  {
  }

  lemma PurgedIs(data: seq<byte>, h: seq<byte>, sz: nat)
    requires sz > 0
    ensures
      var final := Purge(Entries(data, sz), h, 0);
      && (final == [] && Left(data, sz) == [] ==> Purged(data, h, sz) == None)
      && (Concat(final) + Left(data, sz) != [] ==> Purged(data, h, sz) == Some(Concat(final) + Left(data, sz)))
  {
  }

  lemma OnlyEntry(es: seq<Entry>, left: seq<byte>, sz: nat, h: seq<byte>, start: nat)
    requires start <= |es| && Match(es, h, start).Some? && AllSized(es, sz) && |Concat(es) + left| == sz > 0
    ensures Purge(es, h, start) == [] && left == []
  {
    ConcatLength(es, sz);
    MulAtLeast(|es|, sz);
    if |es| > 1 { MulGap(|es|, 1, sz); }
    assert Without(es, 0) == [];
  }

  /** delete_hash_in_list on one node: the loop that empties it of `hash`. */
  method PurgeNode(hash: seq<byte>, node: Node, data: array<byte>) returns (node': Node)
    requires NodeFits(node, data.Length) && node.mok.Some? && node.size >= |hash| + OWNER
    modifies data
    ensures node'.kind == node.kind && NodeFits(node', data.Length) && node'.size <= node.size
    ensures node'.mok == node.mok || node'.mok == None
    ensures ViewNode(node', data[..]).content == Purged(old(ViewNode(node, data[..])).content.value, hash, |hash| + OWNER)
    ensures forall k :: 0 <= k < data.Length && !(node.mok.value <= k < node.mok.value + node.size) ==> data[k] == old(data[k])
  {
    hide Concat, AllSized, Purge, Match, Entries, Left, Without;
    var sz, mok := |hash| + OWNER, node.mok.value;
    ghost var piece := data[mok..mok + node.size];
    ghost var es, left := Entries(piece, sz), Left(piece, sz);
    ghost var final := Purge(es, hash, 0);
    EntriesCover(piece, sz);
    EntriesNumber(piece, sz);
    assert data[..][mok..mok + node.size] == piece;
    var size, num := node.size, node.size / sz;
    var d := MatchHash(hash, 0, data, mok, num, es, left);
    ghost var from: nat := 0;
    while d.Some?
      invariant from <= |es| && d == Match(es, hash, from) && num == |es| && Purge(es, hash, from) == final
      invariant AllSized(es, sz) && 0 < size <= node.size
      invariant data[mok..mok + size] == Concat(es) + left
      invariant forall k :: 0 <= k < data.Length && !(mok <= k < mok + node.size) ==> data[k] == old(data[k])
      decreases |es|
    {
      PurgeStep(es, hash, from);
      MatchRange(es, hash, from);
      if sz == size {
        OnlyEntry(es, left, sz, hash, from);
        PurgedIs(piece, hash, sz);
        return Node(node.kind, None, 0);
      }
      RemoveEntry(data, mok, size, d.value, sz, es, left);
      size := size - sz;
      num := num - 1;
      es, from := Without(es, d.value), d.value;
      d := MatchHash(hash, d.value, data, mok, num, es, left);
    }
    PurgeStep(es, hash, from);
    PurgedIs(piece, hash, sz);
    assert data[..][mok..mok + size] == data[mok..mok + size];
    return Node(node.kind, Some(mok), size);
  }

  // ---------------------------------------------------------------- the whole key list

  predicate InPiece(n: Node, k: nat) { n.mok.Some? && n.mok.value <= k < n.mok.value + n.size }

  /** Shrinking one node and changing only its own piece changes only its own key. */
  lemma UpdateNode(nodes: seq<Node>, b: seq<byte>, b': seq<byte>, i: nat, n: Node)
    requires i < |nodes| && |b| == |b'| && Laid(nodes, |b|) && NodeFits(n, |b|)
    requires n.kind == nodes[i].kind && n.size <= nodes[i].size && (n.mok == nodes[i].mok || n.mok.None?)
    requires forall k :: 0 <= k < |b| && !InPiece(nodes[i], k) ==> b'[k] == b[k]
    ensures Laid(nodes[i := n], |b'|)
    ensures View(nodes[i := n], b') == View(nodes, b)[i := ViewNode(n, b')]
  {
    var nodes' := nodes[i := n];
    forall j | 0 <= j < |nodes| && j != i ensures ViewNode(nodes[j], b') == ViewNode(nodes[j], b) {
      assert Apart(nodes[if i < j then i else j], nodes[if i < j then j else i]);
      if nodes[j].mok.Some? {
        assert b'[nodes[j].mok.value..nodes[j].mok.value + nodes[j].size] == b[nodes[j].mok.value..nodes[j].mok.value + nodes[j].size];
      }
    }
    forall j, k | 0 <= j < k < |nodes| ensures Apart(nodes'[j], nodes'[k]) {
      assert Apart(nodes[j], nodes[k]);
    }
  }

  /** keys[..i] treated, the rest as before. */
  ghost predicate Treated(before: seq<Key>, now: seq<Key>, i: nat, f: Key -> Key) {
    && |now| == |before| && i <= |before|
    && (forall k :: 0 <= k < i ==> now[k] == f(before[k]))
    && forall k :: i <= k < |before| ==> now[k] == before[k]
  }

  /** delete_hash_in_list: one hash out of every list of its kind. */
  method DeleteHashInList(kind: Guid, hash: seq<byte>, mok: array<Node>, data: array<byte>)
    requires Laid(mok[..], data.Length) && |hash| + OWNER == EntrySize(kind)
    modifies mok, data
    ensures Laid(mok[..], data.Length)
    ensures Treated(old(View(mok[..], data[..])), View(mok[..], data[..]), mok.Length, k => WithoutHash(k, kind, hash))
  {
    hide Purged, EntrySize;
    ghost var before := View(mok[..], data[..]);
    ghost var f := (k: Key) => WithoutHash(k, kind, hash);
    var i := 0;
    while i < mok.Length
      invariant i <= mok.Length && Laid(mok[..], data.Length)
      invariant Treated(before, View(mok[..], data[..]), i, f)
    {
      ghost var nodes, b := mok[..], data[..];
      assert View(nodes, b)[i] == ViewNode(nodes[i], b) == before[i];
      if mok[i].kind == kind && mok[i].size >= |hash| + OWNER {
        assert NodeFits(nodes[i], |b|);
        var node := PurgeNode(hash, mok[i], data);
        UpdateNode(nodes, b, data[..], i, node);
        mok[i] := node;
        assert mok[..] == nodes[i := node];
        assert ViewNode(node, data[..]) == f(before[i]);
      } else {
        assert NodeFits(nodes[i], |b|);
        assert f(before[i]) == before[i];
      }
      i := i + 1;
    }
  }

  lemma TreatedThen(a: seq<Key>, b: seq<Key>, c: seq<Key>, f: Key -> Key, g: Key -> Key, h: Key -> Key)
    requires Treated(a, b, |a|, f) && Treated(b, c, |b|, g) && forall k: Key :: h(k) == g(f(k))
    ensures Treated(a, c, |a|, h)
  {
  }

  /** delete_hash_list: every hash of one list of the request. */
  method DeleteHashList(kind: Guid, hashList: seq<byte>, mok: array<Node>, data: array<byte>)
    requires Laid(mok[..], data.Length)
    modifies mok, data
    ensures Laid(mok[..], data.Length)
    ensures Treated(old(View(mok[..], data[..])), View(mok[..], data[..]), mok.Length,
                    k => WithoutHashes(k, kind, Entries(hashList, EntrySize(kind))))
  {
    hide WithoutHash, Entries, Concat, AllSized, Left, Laid, Digest;
    var sz, hs := EntrySize(kind), ShaSize(kind);
    ghost var before, es, left := View(mok[..], data[..]), Entries(hashList, sz), Left(hashList, sz);
    EntriesCover(hashList, sz);
    EntriesNumber(hashList, sz);
    if |hashList| < sz {
      ShortList(hashList, sz);
      return;
    }
    var num := |hashList| / sz;
    var hash, i := OWNER, 0;
    ghost var off: nat := 0;
    NextMultiple(0, sz);
    assert es[..0] == [];
    while i < num
      invariant i <= num == |es| && off == i * sz && hash == OWNER + off && Laid(mok[..], data.Length)
      invariant Treated(before, View(mok[..], data[..]), mok.Length, k => WithoutHashes(k, kind, es[..i]))
    {
      ghost var middle := View(mok[..], data[..]);
      WholeSlice(hashList, es, left);
      DigestAt(hashList, 0, es, left, sz, i, off);
      NextMultiple(i, sz);
      DeleteHashInList(kind, hashList[hash..hash + hs], mok, data);
      OneMoreHash(kind, es, i);
      TreatedThen(before, middle, View(mok[..], data[..]), k => WithoutHashes(k, kind, es[..i]),
                  k => WithoutHash(k, kind, Digest(es[i])), k => WithoutHashes(k, kind, es[..i + 1]));
      hash := hash + sz;
      off := off + sz;
      i := i + 1;
    }
    assert es[..num] == es;
  }

  lemma WholeSlice(data: seq<byte>, es: seq<Entry>, left: seq<byte>)
    requires data == Concat(es) + left
    ensures data[0..0 + |Concat(es) + left|] == Concat(es) + left
  {
  }

  lemma ShortList(data: seq<byte>, sz: nat)
    requires |data| < sz
    ensures Entries(data, sz) == []
  {
  }

  lemma {:induction false} HashesAppend(k: Key, kind: Guid, es: seq<Entry>, e: Entry)
    ensures WithoutHashes(k, kind, es + [e]) == WithoutHash(WithoutHashes(k, kind, es), kind, Digest(e))
    decreases |es|
  {
    hide WithoutHash;
    if es == [] {
      assert es + [e] == [e] && [e][1..] == [];
    } else {
      assert (es + [e])[1..] == es[1..] + [e];
      HashesAppend(WithoutHash(k, kind, Digest(es[0])), kind, es[1..], e);
    }
  }

  lemma OneMoreHash(kind: Guid, es: seq<Entry>, i: nat)
    requires i < |es|
    ensures forall k: Key :: WithoutHashes(k, kind, es[..i + 1]) == WithoutHash(WithoutHashes(k, kind, es[..i]), kind, Digest(es[i]))
  {
    hide WithoutHash, WithoutHashes;
    forall k: Key ensures WithoutHashes(k, kind, es[..i + 1]) == WithoutHash(WithoutHashes(k, kind, es[..i]), kind, Digest(es[i])) {
      HashesAppend(k, kind, es[..i], es[i]);
      assert es[..i] + [es[i]] == es[..i + 1];
    }
  }

  /** delete_cert: every certificate node with this content. */
  method DeleteCert(cert: seq<byte>, mok: array<Node>, data: array<byte>)
    requires Laid(mok[..], data.Length)
    modifies mok
    ensures Laid(mok[..], data.Length)
    ensures Treated(old(View(mok[..], data[..])), View(mok[..], data[..]), mok.Length, k => WithoutCert(k, cert))
  {
    ghost var before := View(mok[..], data[..]);
    ghost var f := (k: Key) => WithoutCert(k, cert);
    var i := 0;
    while i < mok.Length
      invariant i <= mok.Length && Laid(mok[..], data.Length)
      invariant Treated(before, View(mok[..], data[..]), i, f)
    {
      ghost var nodes, b := mok[..], data[..];
      assert View(nodes, b)[i] == ViewNode(nodes[i], b) == before[i];
      assert NodeFits(nodes[i], |b|);
      if mok[i].kind == X509 && mok[i].size == |cert| &&
         (mok[i].mok.None? || data[mok[i].mok.value..mok[i].mok.value + mok[i].size] == cert)
      {
        if mok[i].mok.Some? {
          assert b[mok[i].mok.value..mok[i].mok.value + mok[i].size] == cert;
        }
        ghost var node := Node(X509, None, 0);
        UpdateNode(nodes, b, b, i, node);
        mok[i] := Node(mok[i].kind, None, 0);
        assert mok[..] == nodes[i := node];
        assert ViewNode(node, b) == f(before[i]);
      } else {
        if mok[i].mok.Some? {
          assert b[mok[i].mok.value..mok[i].mok.value + mok[i].size] == data[mok[i].mok.value..mok[i].mok.value + mok[i].size];
        }
        assert f(before[i]) == before[i];
      }
      i := i + 1;
    }
  }

  lemma {:induction false} KeysAppend(k: Key, dels: seq<Key>, d: Key)
    ensures WithoutKeys(k, dels + [d]) == WithoutKey(WithoutKeys(k, dels), d)
    decreases |dels|
  {
    hide WithoutKey;
    if dels == [] {
      assert dels + [d] == [d] && [d][1..] == [];
    } else {
      assert (dels + [d])[1..] == dels[1..] + [d];
      KeysAppend(WithoutKey(k, dels[0]), dels[1..], d);
    }
  }

  lemma OneMoreKey(dels: seq<Key>, i: nat)
    requires i < |dels|
    ensures forall k: Key :: WithoutKeys(k, dels[..i + 1]) == WithoutKey(WithoutKeys(k, dels[..i]), dels[i])
  {
    hide WithoutKey, WithoutKeys;
    forall k: Key ensures WithoutKeys(k, dels[..i + 1]) == WithoutKey(WithoutKeys(k, dels[..i]), dels[i]) {
      KeysAppend(k, dels[..i], dels[i]);
      assert dels[..i] + [dels[i]] == dels[..i + 1];
    }
  }

  /** The "search and destroy" loop of delete_keys: every list of the request, in order. */
  method DeleteKeys(dels: seq<Key>, mok: array<Node>, data: array<byte>)
    requires Laid(mok[..], data.Length)
    requires forall i :: 0 <= i < |dels| ==> dels[i].content.Some?
    modifies mok, data
    ensures Laid(mok[..], data.Length)
    ensures Treated(old(View(mok[..], data[..])), View(mok[..], data[..]), mok.Length, k => WithoutKeys(k, dels))
  {
    hide WithoutHashes, WithoutCert, Laid, IsSha2;
    ghost var before := View(mok[..], data[..]);
    assert dels[..0] == [];
    for i := 0 to |dels|
      invariant Laid(mok[..], data.Length)
      invariant Treated(before, View(mok[..], data[..]), mok.Length, k => WithoutKeys(k, dels[..i]))
    {
      ghost var middle := View(mok[..], data[..]);
      var content := dels[i].content.value;
      if dels[i].kind == X509 {
        DeleteCert(content, mok, data);
      } else if IsSha2(dels[i].kind) {
        DeleteHashList(dels[i].kind, content, mok, data);
      }
      assert Treated(middle, View(mok[..], data[..]), mok.Length, k => WithoutKey(k, dels[i]));
      OneMoreKey(dels, i);
      TreatedThen(before, middle, View(mok[..], data[..]), k => WithoutKeys(k, dels[..i]),
                  k => WithoutKey(k, dels[i]), k => WithoutKeys(k, dels[..i + 1]));
    }
    assert dels[..|dels|] == dels;
  }
}
