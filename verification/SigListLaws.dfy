/** What the parsers of a signature database accept and find, in offsets and bytes. */
module SigListLaws {
  import opened Bytes
  import opened SigList

  /** A certificate with some size, or a hash list whose signatures are an owner and a digest of its kind. */
  predicate KindAndSize(kind: Guid, sigSize: nat) {
    || (kind == X509 && sigSize != 0)
    || (kind == SHA224 && sigSize == 44) || (kind == SHA256 && sigSize == 48)
    || (kind == SHA384 && sigSize == 64) || (kind == SHA512 && sigSize == 80)
  }

  /** A list that ends inside the variable; the walk stops where there is none. */
  predicate Inside(mem: seq<byte>, off: nat, size: nat)
    requires size + 28 <= |mem|
  {
    off < size && off + Get(mem, off + 16, 4) <= size
  }

  /** The list at off is one count_keys takes, and the next one begins behind it. */
  predicate Counted(mem: seq<byte>, off: nat, size: nat, next: nat)
    requires size + 28 <= |mem|
  {
    && Inside(mem, off, size) && off + 28 <= size && Get(mem, off + 24, 4) < Get(mem, off + 16, 4)
    && KindAndSize(mem[off..off + 16], Get(mem, off + 24, 4)) && next == off + Get(mem, off + 16, 4)
  }

  /** The offsets of a whole database: lists that are taken, one behind the other, up to where the walk stops. */
  predicate Database(mem: seq<byte>, pos: nat, size: nat, offs: seq<nat>)
    requires size + 28 <= |mem|
  {
    && offs != [] && offs[0] == pos && !Inside(mem, offs[|offs| - 1], size)
    && forall k :: 0 <= k < |offs| - 1 ==> Counted(mem, offs[k], size, offs[k + 1])
  }

  lemma CountStepIff(mem: seq<byte>, pos: nat, size: nat)
    requires size + 28 <= |mem|
    ensures !Inside(mem, pos, size) ==> Count(mem, pos, size) == Some(0)
    ensures Inside(mem, pos, size) ==>
      var next := pos + Get(mem, pos + 16, 4);
      Count(mem, pos, size) ==
        if Counted(mem, pos, size, next) && Count(mem, next, size).Some? then Some(Count(mem, next, size).value + 1) else None
  {
    hide Get;
    if Inside(mem, pos, size) && pos + 28 <= size { KindIff(Kind(mem, pos), SigSize(mem, pos)); }
  }

  lemma KindIff(kind: Guid, sigSize: nat)
    ensures ValidKind(kind, sigSize) <==> KindAndSize(kind, sigSize)
  {
    assert SHA1[0] == 0x12 && SHA224[0] == 0x33 && SHA256[0] == 0x26 && SHA384[0] == 0x07 && SHA512[0] == 0xae;
  }

  lemma DatabaseCons(mem: seq<byte>, pos: nat, size: nat, rest: seq<nat>)
    requires size + 28 <= |mem| && rest != [] && Counted(mem, pos, size, rest[0]) && Database(mem, rest[0], size, rest)
    ensures Database(mem, pos, size, [pos] + rest)
  {
    hide Counted, Inside;
    var offs := [pos] + rest;
    assert offs[0] == pos && forall k :: 0 < k < |offs| ==> offs[k] == rest[k - 1];
    forall k | 0 <= k < |offs| - 1 ensures Counted(mem, offs[k], size, offs[k + 1]) {
      if k > 0 { assert Counted(mem, rest[k - 1], size, rest[k - 1 + 1]); }
    }
  }

  lemma DatabaseRest(mem: seq<byte>, pos: nat, size: nat, offs: seq<nat>)
    requires size + 28 <= |mem| && Database(mem, pos, size, offs)
    ensures Inside(mem, pos, size) ==> |offs| > 1 && Counted(mem, pos, size, offs[1]) && Database(mem, offs[1], size, offs[1..])
    ensures !Inside(mem, pos, size) ==> |offs| == 1
  {
    hide Inside;
    if |offs| > 1 {
      var rest := offs[1..];
      assert forall k :: 0 <= k < |rest| ==> rest[k] == offs[k + 1];
      assert Counted(mem, offs[0], size, offs[0 + 1]);
      forall k | 0 <= k < |rest| - 1 ensures Counted(mem, rest[k], size, rest[k + 1]) {
        assert Counted(mem, offs[k + 1], size, offs[k + 1 + 1]);
      }
    }
  }

  lemma {:induction false} CountOffsets(mem: seq<byte>, pos: nat, size: nat) returns (offs: seq<nat>)
    requires size + 28 <= |mem| && Count(mem, pos, size).Some?
    ensures Database(mem, pos, size, offs)
    decreases size - pos
  {
    hide Count, Database, Get;
    CountStepIff(mem, pos, size);
    if Inside(mem, pos, size) {
      var next := pos + Get(mem, pos + 16, 4);
      var rest := CountOffsets(mem, next, size);
      FirstIs(mem, next, size, rest);
      DatabaseCons(mem, pos, size, rest);
      offs := [pos] + rest;
    } else {
      offs := [pos];
      Alone(mem, pos, size);
    }
  }

  lemma FirstIs(mem: seq<byte>, pos: nat, size: nat, offs: seq<nat>)
    requires size + 28 <= |mem| && Database(mem, pos, size, offs)
    ensures offs != [] && offs[0] == pos
  {
  }

  lemma Alone(mem: seq<byte>, pos: nat, size: nat)
    requires size + 28 <= |mem| && !Inside(mem, pos, size)
    ensures Database(mem, pos, size, [pos])
  {
  }

  lemma {:induction false} OffsetsCount(mem: seq<byte>, pos: nat, size: nat, offs: seq<nat>)
    requires size + 28 <= |mem| && Database(mem, pos, size, offs)
    ensures offs != [] && Count(mem, pos, size) == Some(|offs| - 1)
    decreases |offs|
  {
    hide Count, Database, Get;
    CountStepIff(mem, pos, size);
    FirstIs(mem, pos, size, offs);
    DatabaseRest(mem, pos, size, offs);
    if Inside(mem, pos, size) { OffsetsCount(mem, offs[1], size, offs[1..]); }
  }

  /** count_keys accepts a database exactly when its bytes are lists of these kinds, and counts them. */
  lemma CountIff(mem: seq<byte>, size: nat, n: nat)
    requires size + 28 <= |mem|
    ensures Count(mem, 0, size) == Some(n) <==> exists offs: seq<nat> :: |offs| == n + 1 && Database(mem, 0, size, offs)
  {
    hide Count, Database;
    if Count(mem, 0, size) == Some(n) {
      var offs := CountOffsets(mem, 0, size);
      OffsetsCount(mem, 0, size, offs);
    }
    forall offs: seq<nat> | |offs| == n + 1 && Database(mem, 0, size, offs) ensures Count(mem, 0, size) == Some(n) {
      OffsetsCount(mem, 0, size, offs);
    }
  }

  // ---------------------------------------------------------------- the list of nodes

  /** The node of a list: its kind, and its certificate behind the first owner or else all of its signatures. */
  predicate NodeIs(node: Node, mem: seq<byte>, off: nat)
    requires off + 28 <= |mem|
  {
    var body := off + 28 + Get(mem, off + 20, 4);
    && node.kind == mem[off..off + 16]
    && if node.kind == X509 then node.mok == Some(body + 16) && node.size + 16 == Get(mem, off + 24, 4)
       else node.mok == Some(body) && node.size + 28 == Get(mem, off + 16, 4)
  }

  /** build_mok_list can use the list: a first owner with one byte behind it, and a content inside the variable. */
  predicate Usable(mem: seq<byte>, off: nat, size: nat)
    requires size + 28 <= |mem| && off <= size
  {
    && Get(mem, off + 24, 4) > 16 && off + 28 + Get(mem, off + 20, 4) + 17 <= size
    && off + Get(mem, off + 20, 4) + (if mem[off..off + 16] == X509 then 28 + Get(mem, off + 24, 4) else Get(mem, off + 16, 4)) <= size
  }

  lemma NodesStepIff(mem: seq<byte>, off: nat, size: nat, next: nat)
    requires size + 28 <= |mem| && Counted(mem, off, size, next)
    ensures Usable(mem, off, size) ==> NodeIs(NodeAt(mem, off), mem, off)
    ensures Nodes(mem, off, size) ==
      if Usable(mem, off, size) && Nodes(mem, next, size).Some? then Some([NodeAt(mem, off)] + Nodes(mem, next, size).value)
      else None
  {
    hide Get, Nodes;
    LengthOfCounted(mem, off, size, next);
    NodesStep(mem, off, size);
  }

  /** A list's size fits its field, and one that is not a certificate list holds a signature. */
  lemma LengthOfCounted(mem: seq<byte>, off: nat, size: nat, next: nat)
    requires size + 28 <= |mem| && Counted(mem, off, size, next)
    ensures Get(mem, off + 16, 4) < 0x1_0000_0000
    ensures mem[off..off + 16] != X509 ==> Get(mem, off + 16, 4) > 28
  {
    hide FromLE;
    Powers();
    FromLEBound(mem[off + 16..off + 20]);
  }

  predicate AllUsable(mem: seq<byte>, offs: seq<nat>, size: nat)
    requires size + 28 <= |mem|
  {
    forall k :: 0 <= k < |offs| - 1 ==> offs[k] <= size && Usable(mem, offs[k], size)
  }

  predicate NodesOf(nodes: seq<Node>, mem: seq<byte>, offs: seq<nat>) {
    |nodes| + 1 == |offs| && forall k :: 0 <= k < |nodes| ==> offs[k] + 28 <= |mem| && NodeIs(nodes[k], mem, offs[k])
  }

  /** build_mok_list takes a counted database exactly when each list is usable, and its nodes are the lists'. */
  lemma {:induction false} NodesIff(mem: seq<byte>, pos: nat, size: nat, offs: seq<nat>)
    requires size + 28 <= |mem| && Database(mem, pos, size, offs)
    ensures Nodes(mem, pos, size).Some? <==> AllUsable(mem, offs, size)
    ensures Nodes(mem, pos, size).Some? ==> NodesOf(Nodes(mem, pos, size).value, mem, offs)
    decreases |offs|
  {
    hide Nodes, Database, Get, Usable, NodeIs, AllUsable, NodesOf;
    FirstIs(mem, pos, size, offs);
    DatabaseRest(mem, pos, size, offs);
    if Inside(mem, pos, size) {
      NodesIff(mem, offs[1], size, offs[1..]);
      NodesStepIff(mem, pos, size, offs[1]);
      UsableCons(mem, offs, size);
      if Usable(mem, pos, size) && Nodes(mem, offs[1], size).Some? {
        NodesCons(NodeAt(mem, pos), Nodes(mem, offs[1], size).value, mem, offs);
      }
    } else {
      NodesDone(mem, pos, size);
      NoNodes(mem, offs, size);
    }
  }

  lemma UsableCons(mem: seq<byte>, offs: seq<nat>, size: nat)
    requires size + 28 <= |mem| && |offs| > 1 && offs[0] <= size
    ensures AllUsable(mem, offs, size) <==> Usable(mem, offs[0], size) && AllUsable(mem, offs[1..], size)
  {
    hide Usable;
    var rest := offs[1..];
    assert forall k :: 0 <= k < |rest| ==> rest[k] == offs[k + 1];
    if Usable(mem, offs[0], size) && AllUsable(mem, rest, size) {
      forall k | 0 <= k < |offs| - 1 ensures offs[k] <= size && Usable(mem, offs[k], size) {
        if k > 0 { assert rest[k - 1] == offs[k]; }
      }
    }
  }

  lemma NodesCons(node: Node, nodes: seq<Node>, mem: seq<byte>, offs: seq<nat>)
    requires offs != [] && offs[0] + 28 <= |mem| && NodeIs(node, mem, offs[0]) && NodesOf(nodes, mem, offs[1..])
    ensures NodesOf([node] + nodes, mem, offs)
  {
    hide NodeIs;
    var all := [node] + nodes;
    forall k | 0 <= k < |all| ensures offs[k] + 28 <= |mem| && NodeIs(all[k], mem, offs[k]) {
      if k > 0 { assert offs[1..][k - 1] == offs[k] && all[k] == nodes[k - 1]; }
    }
  }

  lemma NoNodes(mem: seq<byte>, offs: seq<nat>, size: nat)
    requires size + 28 <= |mem| && |offs| == 1
    ensures AllUsable(mem, offs, size) && NodesOf([], mem, offs)
  {
  }
}
