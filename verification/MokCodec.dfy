/** MokManager.c: writing the key list back to its variable, and what reading that variable finds. */
module MokCodec {
  import opened Bytes
  import opened SigList
  import opened HashList
  import opened MokDelete

  function Header(kind: Guid, listSize: nat, sigSize: nat): (h: seq<byte>)
    ensures |h| == LIST_HEADER
  {
    kind + (ToLE(listSize, 4) + (ToLE(0, 4) + ToLE(sigSize, 4)))
  }

  /** One list as written back: certificates are given shim as their owner. */
  function Encode(k: Key): seq<byte> {
    if k.content.None? then []
    else
      var c := k.content.value;
      if k.kind == X509 then Header(X509, |c| + LIST_HEADER + OWNER, |c| + OWNER) + (SHIM_LOCK + c)
      else Header(k.kind, |c| + LIST_HEADER, EntrySize(k.kind)) + c
  }

  function EncodeAll(keys: seq<Key>): seq<byte> {
    if keys == [] then [] else EncodeAll(keys[..|keys| - 1]) + Encode(keys[|keys| - 1])
  }

  /** Store a byte string and move past it. */
  method Append(out: array<byte>, at: nat, s: seq<byte>) returns (next: nat)
    requires at + |s| <= out.Length
    modifies out
    ensures next == at + |s| && out[..next] == old(out[..at]) + s
    ensures forall k :: next <= k < out.Length ==> out[k] == old(out[k])
  {
    Store(out, at, s);
    next := at + |s|;
  }

  lemma EncodeSize(k: Key)
    ensures |Encode(k)| ==
      if k.content.None? then 0 else |k.content.value| + LIST_HEADER + if k.kind == X509 then OWNER else 0
  {
  }

  /** The sizing loop. */
  method MeasureMokList(list: array<Node>, data: array<byte>) returns (size: nat)
    requires Laid(list[..], data.Length)
    ensures size == |EncodeAll(View(list[..], data[..]))|
  {
    hide EncodeAll, Encode, ViewNode, Laid;
    ghost var keys := View(list[..], data[..]);
    size := 0;
    var i := 0;
    EncodeStep(keys, 0);
    while i < list.Length
      invariant i <= list.Length && size == |EncodeAll(keys[..i])|
    {
      EncodeStep(keys, i);
      NodeInside(list[..], data.Length, i);
      assert keys[i] == ViewNode(list[..][i], data[..]);
      NodeContent(list[i], data[..]);
      EncodeSize(keys[i]);
      if list[i].mok.Some? {
        size := size + LIST_HEADER;
        if list[i].kind == X509 { size := size + OWNER; }
        size := size + list[i].size;
      }
      i := i + 1;
    }
    assert keys[..list.Length] == keys;
  }

  /** Write one list at ptr; returns where the next one goes. */
  method StoreList(out: array<byte>, ptr: nat, kind: Guid, content: seq<byte>) returns (next: nat)
    requires ptr + |Encode(Key(kind, Some(content)))| <= out.Length
    modifies out
    ensures next == ptr + |Encode(Key(kind, Some(content)))| <= out.Length
    ensures out[..next] == old(out[..ptr]) + Encode(Key(kind, Some(content)))
  {
    hide Header;
    ghost var done := out[..ptr];
    var n := |content|;
    if kind == X509 {
      var header := Header(X509, n + LIST_HEADER + OWNER, n + OWNER);
      next := Append(out, ptr, header);
      next := Append(out, next, SHIM_LOCK);
      next := Append(out, next, content);
      Regroup3(done, header, SHIM_LOCK, content);
    } else {
      var header := Header(kind, n + LIST_HEADER, EntrySize(kind));
      next := Append(out, ptr, header);
      next := Append(out, next, content);
      Regroup(done, header, content);
    }
  }

  lemma Regroup3(a: seq<byte>, b: seq<byte>, c: seq<byte>, d: seq<byte>)
    ensures a + (b + (c + d)) == ((a + b) + c) + d
  {
  }

  /** write_back_mok_list: the bytes for SetVariable; none means the variable is deleted. */
  method WriteBackMokList(list: array<Node>, data: array<byte>) returns (bytes: seq<byte>)
    requires Laid(list[..], data.Length)
    ensures bytes == EncodeAll(View(list[..], data[..]))
  {
    hide ViewNode, Encode, EncodeAll, Laid;
    ghost var keys := View(list[..], data[..]);
    var size := MeasureMokList(list, data);
    if size == 0 { return []; }
    var out := new byte[size](_ => 0);
    var ptr, i := 0, 0;
    assert keys[..0] == [];
    EncodeStep(keys, 0);
    while i < list.Length
      invariant i <= list.Length && ptr == |EncodeAll(keys[..i])| <= size
      invariant out[..ptr] == EncodeAll(keys[..i])
      invariant Laid(list[..], data.Length) && keys == View(list[..], data[..])
    {
      EncodeStep(keys, i);
      EncodedSoFar(keys, i + 1);
      NodeInside(list[..], data.Length, i);
      assert keys[i] == ViewNode(list[..][i], data[..]);
      NodeContent(list[i], data[..]);
      if list[i].mok.Some? {
        var content := data[list[i].mok.value..list[i].mok.value + list[i].size];
        assert content == data[..][list[i].mok.value..list[i].mok.value + list[i].size];
        ptr := StoreList(out, ptr, list[i].kind, content);
      }
      i := i + 1;
    }
    assert keys[..list.Length] == keys;
    return out[..ptr];
  }

  lemma EncodeStep(keys: seq<Key>, i: nat)
    ensures EncodeAll([]) == []
    ensures i < |keys| ==> EncodeAll(keys[..i + 1]) == EncodeAll(keys[..i]) + Encode(keys[i])
    ensures i < |keys| && keys[i].content.None? ==> EncodeAll(keys[..i + 1]) == EncodeAll(keys[..i])
  {
    if i < |keys| { assert keys[..i + 1][..i] == keys[..i]; }
  }

  lemma NodeInside(nodes: seq<Node>, len: nat, i: nat)
    requires Laid(nodes, len) && i < |nodes|
    ensures NodeFits(nodes[i], len) && (nodes[i].mok.Some? ==> nodes[i].mok.value + nodes[i].size <= len)
  {
  }

  lemma NodeContent(n: Node, data: seq<byte>)
    requires NodeFits(n, |data|)
    ensures ViewNode(n, data) == Key(n.kind, if n.mok.None? then None else Some(data[n.mok.value..n.mok.value + n.size]))
  {
  }

  lemma {:induction false} EncodedSoFar(keys: seq<Key>, i: nat)
    requires i <= |keys|
    ensures |EncodeAll(keys[..i])| <= |EncodeAll(keys)|
    decreases |keys|
  {
    if i < |keys| {
      EncodedSoFar(keys[..|keys| - 1], i);
      assert keys[..|keys| - 1][..i] == keys[..i];
    } else {
      assert keys[..i] == keys;
    }
  }
}
