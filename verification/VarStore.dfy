/** mock-variables.c on its circular doubly linked list (include/list.h). */
module VarStore {
  import opened Bytes
  import opened SigList
  import opened VarSpec

  class Node {
    var next: Node?
    var prev: Node?
    var key: Key
    var attrs: Attrs
    var data: seq<byte>

    constructor (key: Key, attrs: Attrs, data: seq<byte>)
      ensures this.key == key && this.attrs == attrs && this.data == data
    {
      this.key, this.attrs, this.data := key, attrs, data;
      next, prev := null, null;
    }

    function Value(): Var
      reads this
    {
      Var(key, Cell(attrs, data))
    }
  }

  /** __list_add: put a node between two neighbours, which are the same node when the list is empty. */
  method ListAddBetween(fresh_: Node, prev: Node, next: Node)
    requires fresh_ != prev && fresh_ != next
    modifies fresh_`next, fresh_`prev, prev`next, next`prev
    ensures prev.next == fresh_ && fresh_.next == next && fresh_.prev == prev && next.prev == fresh_
    ensures prev != next ==> next.next == old(next.next) && prev.prev == old(prev.prev)
  {
    next.prev := fresh_;
    fresh_.next := next;
    fresh_.prev := prev;
    prev.next := fresh_;
  }

  /** list_del. */
  method ListDel(entry: Node, ghost prev: Node, ghost next: Node)
    requires entry.prev == prev && entry.next == next && entry != prev && entry != next
    modifies entry`next, entry`prev, prev`next, next`prev
    ensures prev.next == next && next.prev == prev && entry.next == null && entry.prev == null
  {
    entry.next.prev := entry.prev;
    entry.prev.next := entry.next;
    entry.next := null;
    entry.prev := null;
  }

  /** The nodes are distinct and linked both ways into a circle through the head. */
  ghost predicate WellFormed(head: Node, nodes: seq<Node>)
    reads head, nodes
  {
    && Apart(head, nodes)
    && (forall i :: 0 <= i < |nodes| ==> LinkedAt(head, nodes, i))
    && head.next == (if nodes == [] then head else nodes[0])
    && head.prev == (if nodes == [] then head else nodes[|nodes| - 1])
  }

  ghost predicate LinkedAt(head: Node, nodes: seq<Node>, i: nat)
    requires i < |nodes|
    reads nodes
  {
    nodes[i].next == After(head, nodes, i) && nodes[i].prev == Before(head, nodes, i)
  }

  /** The same once v is spliced in at p. */
  ghost predicate SplicedLink(head: Node, nodes: seq<Node>, p: nat, v: Node, i: nat)
    requires i < |nodes|
    reads nodes
  {
    && nodes[i].next == (if i + 1 == p then v else After(head, nodes, i))
    && nodes[i].prev == (if i == p then v else Before(head, nodes, i))
  }

  predicate Apart(head: Node, nodes: seq<Node>) {
    && (forall i, j :: 0 <= i < j < |nodes| ==> nodes[i] != nodes[j])
    && (forall i :: 0 <= i < |nodes| ==> nodes[i] != head)
  }

  function After(head: Node, nodes: seq<Node>, i: nat): Node { if i + 1 < |nodes| then nodes[i + 1] else head }

  function Before(head: Node, nodes: seq<Node>, i: nat): Node
    requires i <= |nodes|
  {
    if i > 0 then nodes[i - 1] else head
  }

  function Spliced(nodes: seq<Node>, p: nat, v: Node): seq<Node>
    requires p <= |nodes|
  {
    nodes[..p] + [v] + nodes[p..]
  }

  lemma SplicedAt(nodes: seq<Node>, p: nat, v: Node, all: seq<Node>)
    requires p <= |nodes| && all == Spliced(nodes, p, v)
    ensures |all| == |nodes| + 1 && all[p] == v
    ensures forall i :: 0 <= i < p ==> all[i] == nodes[i]
    ensures forall i :: p < i < |all| ==> all[i] == nodes[i - 1]
  {
  }

  /** Once the four pointers around a new node are set and the others untouched, the circle is whole. */
  lemma SplicedWellFormed(head: Node, nodes: seq<Node>, p: nat, v: Node)
    requires p <= |nodes| && Apart(head, nodes) && v != head && v !in nodes
    requires forall i :: 0 <= i < |nodes| ==> SplicedLink(head, nodes, p, v, i)
    requires head.next == if p == 0 then v else nodes[0]
    requires head.prev == if p == |nodes| then v else nodes[|nodes| - 1]
    requires v.next == (if p < |nodes| then nodes[p] else head) && v.prev == Before(head, nodes, p)
    ensures WellFormed(head, Spliced(nodes, p, v))
  {
    hide Spliced;
    var all := Spliced(nodes, p, v);
    SplicedAt(nodes, p, v, all);
    SplicedApart(head, nodes, p, v);
    forall i | 0 <= i < |all| ensures LinkedAt(head, all, i) {
      if i < p { assert SplicedLink(head, nodes, p, v, i); }
      if i > p { assert SplicedLink(head, nodes, p, v, i - 1); }
    }
  }

  lemma SplicedApart(head: Node, nodes: seq<Node>, p: nat, v: Node)
    requires p <= |nodes| && Apart(head, nodes) && v != head && v !in nodes
    ensures Apart(head, Spliced(nodes, p, v))
  {
    hide Spliced;
    var all := Spliced(nodes, p, v);
    SplicedAt(nodes, p, v, all);
    forall i, j | 0 <= i < j < |all| ensures all[i] != all[j] {
      if i != p && j != p {
        var i', j' := if i < p then i else i - 1, if j < p then j else j - 1;
        assert all[i] == nodes[i'] && all[j] == nodes[j'];
      }
    }
  }

  lemma InsertedVars(was: seq<Var>, p: nat, v: Var, now: seq<Var>)
    requires p <= |was| && |now| == |was| + 1 && now[p] == v
    requires forall i :: 0 <= i < p ==> now[i] == was[i]
    requires forall i :: p < i < |now| ==> now[i] == was[i - 1]
    ensures now == Inserted(was, p, v)
  {
  }

  lemma RemovedVars(was: seq<Var>, p: nat, now: seq<Var>)
    requires p < |was| && |now| == |was| - 1
    requires forall i :: 0 <= i < p ==> now[i] == was[i]
    requires forall i :: p <= i < |now| ==> now[i] == was[i + 1]
    ensures now == Removed(was, p)
  {
  }

  function Cut(nodes: seq<Node>, p: nat): seq<Node>
    requires p < |nodes|
  {
    nodes[..p] + nodes[p + 1..]
  }

  lemma CutAt(nodes: seq<Node>, p: nat, all: seq<Node>)
    requires p < |nodes| && all == Cut(nodes, p)
    ensures |all| == |nodes| - 1
    ensures forall i :: 0 <= i < p ==> all[i] == nodes[i]
    ensures forall i :: p <= i < |all| ==> all[i] == nodes[i + 1]
  {
  }

  /** The links of the other nodes once node p is unlinked. */
  ghost predicate CutLink(head: Node, nodes: seq<Node>, p: nat, i: nat)
    requires i < |nodes| && p < |nodes|
    reads nodes
  {
    && nodes[i].next == (if i + 1 == p then After(head, nodes, p) else After(head, nodes, i))
    && nodes[i].prev == (if i == p + 1 then Before(head, nodes, p) else Before(head, nodes, i))
  }

  lemma CutWellFormed(head: Node, nodes: seq<Node>, p: nat)
    requires p < |nodes| && Apart(head, nodes)
    requires forall i :: 0 <= i < |nodes| && i != p ==> CutLink(head, nodes, p, i)
    requires head.next == if p == 0 then After(head, nodes, 0) else nodes[0]
    requires head.prev == if p == |nodes| - 1 then Before(head, nodes, p) else nodes[|nodes| - 1]
    ensures WellFormed(head, Cut(nodes, p))
  {
    hide Cut;
    var all := Cut(nodes, p);
    CutAt(nodes, p, all);
    CutApart(head, nodes, p);
    forall i | 0 <= i < |all| ensures LinkedAt(head, all, i) {
      if i < p { assert CutLink(head, nodes, p, i); } else { assert CutLink(head, nodes, p, i + 1); }
    }
  }

  lemma CutApart(head: Node, nodes: seq<Node>, p: nat)
    requires p < |nodes| && Apart(head, nodes)
    ensures Apart(head, Cut(nodes, p))
  {
    hide Cut;
    var all := Cut(nodes, p);
    CutAt(nodes, p, all);
    forall i, j | 0 <= i < j < |all| ensures all[i] != all[j] {
      var i', j' := if i < p then i else i + 1, if j < p then j else j + 1;
      assert all[i] == nodes[i'] && all[j] == nodes[j'];
    }
  }

  class Store {
    const head: Node
    const cmp: Comparison
    const policy: Policy
    const del: DeletePolicy
    ghost var nodes: seq<Node>

    ghost predicate Valid()
      reads this, head, nodes
    {
      WellFormed(head, nodes)
    }

    /** The variables in list order. */
    ghost function Vars(): (vars: seq<Var>)
      reads this, nodes
      ensures |vars| == |nodes| && forall i :: 0 <= i < |vars| ==> vars[i] == nodes[i].Value()
    {
      seq(|nodes|, i requires 0 <= i < |nodes| reads this, nodes => nodes[i].Value())
    }

    constructor (cmp: Comparison, policy: Policy, del: DeletePolicy)
      ensures Valid() && Vars() == [] && fresh(head)
      ensures this.cmp == cmp && this.policy == policy && this.del == del
    {
      var h := new Node(Key(X509, ""), NO_ATTRS, []);
      this.cmp, this.policy, this.del := cmp, policy, del;
      head, nodes := h, [];
      new;
      h.next, h.prev := h, h;
    }

    /** The list position after i entries. */
    ghost function At(i: nat): Node
      reads this
      requires i <= |nodes|
    {
      if i < |nodes| then nodes[i] else head
    }

    /** Link a new variable in before position p; `pos` is the node there. */
    method Insert(v: Node, pos: Node, ghost p: nat)
      requires Valid() && p <= |nodes| && pos == At(p) && v != head && v !in nodes
      modifies this`nodes, head, nodes, v`next, v`prev
      ensures Valid() && nodes == Spliced(old(nodes), p, v)
      ensures Vars() == old(Inserted(Vars(), p, v.Value()))
    {
      ghost var before, was := nodes, Vars();
      ghost var prev := Before(head, before, p);
      if p < |before| { assert LinkedAt(head, before, p); }
      if p > 0 { assert LinkedAt(head, before, p - 1); }
      assert pos.prev == prev && prev.next == pos;
      assert forall i :: 0 <= i < |before| ==> LinkedAt(head, before, i);
      ListAddBetween(v, pos.prev, pos);
      forall i | 0 <= i < |before| ensures SplicedLink(head, before, p, v, i) {
        assert old(LinkedAt(head, before, i));
      }
      SplicedWellFormed(head, before, p, v);
      nodes := Spliced(before, p, v);
      SplicedAt(before, p, v, nodes);
      InsertedVars(was, p, v.Value(), Vars());
    }

    /** free_var: unlink the variable at position p. */
    method Remove(v: Node, ghost p: nat)
      requires Valid() && p < |nodes| && v == nodes[p]
      modifies this`nodes, head, nodes
      ensures Valid() && nodes == Cut(old(nodes), p)
      ensures Vars() == Removed(old(Vars()), p)
    {
      ghost var before, was := nodes, Vars();
      ghost var prev, next := Before(head, before, p), After(head, before, p);
      assert LinkedAt(head, before, p);
      if p + 1 < |before| { assert LinkedAt(head, before, p + 1); }
      if p > 0 { assert LinkedAt(head, before, p - 1); }
      assert forall i :: 0 <= i < |before| ==> LinkedAt(head, before, i);
      ListDel(v, prev, next);
      forall i | 0 <= i < |before| && i != p ensures CutLink(head, before, p, i) {
        assert old(LinkedAt(head, before, i));
      }
      CutWellFormed(head, before, p);
      nodes := Cut(before, p);
      CutAt(before, p, nodes);
      RemovedVars(was, p, Vars());
    }

    /** The search loop of mock_set_variable: where it stops, and its last comparison's sign. */
    method Search(key: Key) returns (pos: Node, c: int, ghost p: nat)
      requires Valid()
      ensures p == Find(Vars(), 0, policy, key, cmp)
      ensures
        var q := Find(Vars(), 0, policy, key, cmp);
        && pos == At(q) && (pos != head <==> q < |nodes|)
        && (if q < |nodes| then c == 0 <==> cmp(key, Vars()[q].key) == 0 else c != 0)
    {
      ghost var vars := Vars();
      p := 0;
      c := -1;
      pos := head.next;
      while pos != head
        invariant p <= |nodes| && pos == At(p) && c != 0
        invariant Find(vars, 0, policy, key, cmp) == Find(vars, p, policy, key, cmp)
        decreases |nodes| - p
      {
        assert LinkedAt(head, nodes, p) && vars[p] == nodes[p].Value();
        c := Sign(cmp(key, pos.key));
        var found := match policy case Descending => c >= 0 case Ascending => c <= 0 case _ => c == 0;
        if found { return; }
        pos := pos.next;
        p := p + 1;
      }
      assert p == |nodes|;
    }

    /** mock_set_variable; `room` is whether the quota allows the change asked for. */
    method SetVariable(key: Key, attrs: Attrs, data: seq<byte>, room: bool) returns (status: Status)
      requires Valid()
      modifies this`nodes, head, nodes
      ensures Valid()
      ensures (status, Vars()) == SetSpec(old(Vars()), Call(key, attrs, data, room), policy, del, cmp)
    {
      hide WellFormed, Inserted, Removed, Find, AttrsMatch;
      if key.name == "" || (attrs.runtime && !attrs.bootService) { return InvalidParameter; }
      var pos, c, p := Search(key);
      if c != 0 {
        if data == [] { return InvalidParameter; }
        var v := new Node(key, attrs, data);
        if policy.Prepend? {
          pos := First(pos, p);
          Insert(v, pos, 0);
        } else {
          Insert(v, pos, p);
        }
        return Success;
      }
      status := Change(pos, p, attrs, data, room);
    }

    /** list_add: right behind the head, whichever node is there. */
    method First(pos: Node, ghost p: nat) returns (first: Node)
      requires Valid() && p <= |nodes| && pos == At(p) && pos == head
      ensures first == At(0)
    {
      first := pos.next;
    }

    /** The rest of mock_set_variable, for a variable that is there. */
    method Change(v: Node, ghost p: nat, attrs: Attrs, data: seq<byte>, room: bool) returns (status: Status)
      requires Valid() && p < |nodes| && v == nodes[p]
      modifies this`nodes, head, nodes
      ensures Valid()
      ensures
        var before := old(Vars());
        match ChangeOf(before[p].cell, attrs, data, room, del)
        case Keep(s) => status == s && Vars() == before
        case Store(cell) => status == Success && Vars() == before[p := Var(before[p].key, cell)]
        case Delete => status == Success && Vars() == Removed(before, p)
    {
      if !AttrsMatch(v.attrs, attrs) {
        status := InvalidParameter;
        if data == [] && !attrs.append {
          if del.allowZero && attrs == NO_ATTRS {
            status := Success;
          } else if del.allowMismatch {
            status := Success;
          }
        }
        if status != Success { return; }
      }
      if attrs.append {
        status := Extend(v, p, data, room);
        return;
      }
      if data == [] {
        if attrs.timeAuth || attrs.enhancedAuth { return InvalidParameter; }
        if !room { return OutOfResources; }
        Remove(v, p);
        return Success;
      }
      if !room { return OutOfResources; }
      StoreData(v, p, data);
      return Success;
    }

    method Extend(v: Node, ghost p: nat, data: seq<byte>, room: bool) returns (status: Status)
      requires Valid() && p < |nodes| && v == nodes[p]
      modifies v`data
      ensures Valid() && nodes == old(nodes)
      ensures status == if data == [] || room then Success else OutOfResources
      ensures Vars() == if data != [] && room then old(Vars())[p := Var(v.key, Cell(v.attrs, old(v.data) + data))] else old(Vars())
    {
      if data == [] { return Success; }
      if !room { return OutOfResources; }
      StoreData(v, p, v.data + data);
      return Success;
    }

    method StoreData(v: Node, ghost p: nat, data: seq<byte>)
      requires Valid() && p < |nodes| && v == nodes[p]
      modifies v`data
      ensures Valid() && nodes == old(nodes)
      ensures Vars() == old(Vars())[p := Var(v.key, Cell(v.attrs, data))]
    {
      ghost var was := Vars();
      v.data := data;
      forall i | 0 <= i < |nodes| ensures LinkedAt(head, nodes, i) {
        assert old(LinkedAt(head, nodes, i));
      }
      assert Vars() == was[p := Var(v.key, Cell(v.attrs, data))];
    }

    lemma Walk(p: nat)
      requires Valid() && p <= |nodes|
      ensures head.next == At(0) && (At(p) == head <==> p == |nodes|)
      ensures p < |nodes| ==> At(p).next == At(p + 1) && Vars()[p] == nodes[p].Value()
    {
      if p < |nodes| { assert LinkedAt(head, nodes, p); }
    }

    /** mock_get_variable. */
    method GetVariable(key: Key, size: nat, hasBuffer: bool) returns (a: Answer)
      requires Valid() && Unique(Vars()) && Equates(cmp)
      ensures a == GetSpec(Contents(Vars()), key, size, hasBuffer)
    {
      hide Contents, Unique;
      ghost var vars := Vars();
      ghost var p := 0;
      var pos := head.next;
      while pos != head
        invariant p <= |nodes| && pos == At(p)
        invariant forall i :: 0 <= i < p ==> vars[i].key != key
        decreases |nodes| - p
      {
        assert LinkedAt(head, nodes, p) && vars[p] == nodes[p].Value();
        if cmp(key, pos.key) == 0 {
          ContentsAt(vars, p);
          if |pos.data| > size { return Answer(BufferTooSmall, Some(pos.attrs), |pos.data|, []); }
          if !hasBuffer { return Answer(InvalidParameter, Some(pos.attrs), size, []); }
          return Answer(Success, Some(pos.attrs), |pos.data|, pos.data);
        }
        pos := pos.next;
        p := p + 1;
      }
      if key in Contents(vars) {
        var i := IndexOf(vars, key);
        assert false;
      }
      return Answer(NotFound, None, size, []);
    }

    /** The search of mock_get_next_variable_name: the variable it settles on, and whether it ended or never began. */
    method NextVariable(guid: Guid, name: Name) returns (result: Node?, found: bool)
      requires Valid() && Equates(cmp) && Named(Vars())
      ensures
        match NextSpec(Vars(), guid, name, cmp)
        case Found(i) => result == nodes[i]
        case Ended => result == null && found == (name != "")
        case Unknown => result == null && !found
    {
      hide Scan, NextSpec, WellFormed, Apart, Equates, Named, Vars;
      ghost var vars := Vars();
      ghost var p: nat := 0;
      result, found := null, false;
      Walk(0);
      ScanIs(vars, guid, name, cmp);
      var pos := head.next;
      while pos != head
        invariant p <= |nodes| && pos == At(p) && result == null && (name == "" ==> !found)
        invariant NextSpec(vars, guid, name, cmp) == Scan(vars, p, found, guid, name, cmp)
        decreases |nodes| - p
      {
        Walk(p);
        Walk(p + 1);
        ScanStep(vars, p, found, guid, name, cmp);
        if name == "" {
          if pos.key.guid == guid {
            return pos, true;
          }
        } else if found {
          if pos.key.guid == guid {
            return pos, true;
          }
        } else if cmp(Key(guid, name), pos.key) == 0 {
          found := true;
        }
        pos := pos.next;
        p := p + 1;
      }
      Walk(p);
      ScanStep(vars, p, found, guid, name, cmp);
    }

    /** mock_get_next_variable_name: `size` counts the buffer; the name must end inside it. */
    method GetNextVariableName(size: nat, name: Name, guid: Guid) returns (status: Status, size': nat, next: Name)
      requires Valid() && Equates(cmp) && Named(Vars())
      ensures |name| >= size ==> status == InvalidParameter
      ensures |name| < size ==>
        match NextSpec(Vars(), guid, name, cmp)
        case Found(i) =>
          var n := |Vars()[i].key.name| + 1;
          if size < 2 * n then status == BufferTooSmall && size' == 2 * n
          else status == Success && size' == n && next == Vars()[i].key.name
        case Ended => status == NotFound
        case Unknown => status == InvalidParameter
    {
      size', next := size, name;
      if |name| >= size { return InvalidParameter, size', next; }
      var result, found := NextVariable(guid, name);
      if result == null {
        return if !found && name != "" then InvalidParameter else NotFound, size', next;
      }
      var n := |result.key.name| + 1;
      if size < 2 * n { return BufferTooSmall, 2 * n, next; }
      return Success, n, result.key.name;
    }
  }

  /** The loop of mock_get_next_variable_name from position p on. */
  function Scan(vars: seq<Var>, p: nat, found: bool, guid: Guid, name: Name, cmp: Comparison): (r: Next)
    requires p <= |vars|
    ensures r.Found? ==> r.index < |vars|
    decreases |vars| - p
  {
    if p == |vars| then if found || name == "" then Ended else Unknown
    else if (name == "" || found) && vars[p].key.guid == guid then VarSpec.Found(p)
    else Scan(vars, p + 1, found || (name != "" && cmp(Key(guid, name), vars[p].key) == 0), guid, name, cmp)
  }

  lemma ScanStep(vars: seq<Var>, p: nat, found: bool, guid: Guid, name: Name, cmp: Comparison)
    requires p <= |vars|
    ensures Scan(vars, p, found, guid, name, cmp) ==
      if p == |vars| then if found || name == "" then Ended else Unknown
      else if (name == "" || found) && vars[p].key.guid == guid then VarSpec.Found(p)
      else Scan(vars, p + 1, found || (name != "" && cmp(Key(guid, name), vars[p].key) == 0), guid, name, cmp)
  {
  }

  lemma {:induction false} ScanFirst(vars: seq<Var>, p: nat, found: bool, guid: Guid, name: Name, cmp: Comparison)
    requires p <= |vars| && (found || name == "")
    ensures Scan(vars, p, found, guid, name, cmp) ==
      var i := FirstOf(vars, guid, p); if i == |vars| then Ended else VarSpec.Found(i)
    decreases |vars| - p
  {
    if p < |vars| { ScanFirst(vars, p + 1, found, guid, name, cmp); }
  }

  /** Behind the variable named, the loop looks for the vendor's next one. */
  function NextBehind(vars: seq<Var>, guid: Guid, q: nat): Next
    requires q <= |vars|
  {
    if q == |vars| then Unknown
    else var i := FirstOf(vars, guid, q + 1); if i == |vars| then Ended else VarSpec.Found(i)
  }

  lemma {:induction false} ScanNamed(vars: seq<Var>, p: nat, guid: Guid, name: Name, cmp: Comparison)
    requires p <= |vars| && name != ""
    ensures Scan(vars, p, false, guid, name, cmp) == NextBehind(vars, guid, Find(vars, p, Append, Key(guid, name), cmp))
    decreases |vars| - p
  {
    hide FirstOf, Scan;
    ScanStep(vars, p, false, guid, name, cmp);
    if p < |vars| {
      if cmp(Key(guid, name), vars[p].key) == 0 {
        ScanFirst(vars, p + 1, true, guid, name, cmp);
      } else {
        ScanNamed(vars, p + 1, guid, name, cmp);
      }
    }
  }

  lemma ScanIs(vars: seq<Var>, guid: Guid, name: Name, cmp: Comparison)
    ensures Scan(vars, 0, false, guid, name, cmp) == NextSpec(vars, guid, name, cmp)
  {
    hide FirstOf, Scan, Find;
    if name == "" { ScanFirst(vars, 0, false, guid, name, cmp); } else { ScanNamed(vars, 0, guid, name, cmp); }
  }

  function Sign(c: int): (s: int)
    ensures (s == 0 <==> c == 0) && (s < 0 <==> c < 0) && (s > 0 <==> c > 0)
  {
    if c < 0 then -1 else if c > 0 then 1 else 0
  }
}
