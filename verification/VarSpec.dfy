/**
 mock-variables.c on values: one SetVariable call, GetVariable and GetNextVariableName, on the sequence of
 variables the linked list holds.
 */
module VarSpec {
  import opened Bytes
  import opened SigList

  /** A name as the code sees it: the characters before its NUL. */
  type Name = s: string | '\0' !in s witness ""

  datatype Key = Key(guid: Guid, name: Name)

  /** The attribute bits the code looks at, and the rest. */
  datatype Attrs = Attrs(append: bool, runtime: bool, bootService: bool, timeAuth: bool, enhancedAuth: bool, others: nat)

  const NO_ATTRS := Attrs(false, false, false, false, false, 0)

  datatype Cell = Cell(attrs: Attrs, data: seq<byte>)

  datatype Var = Var(key: Key, cell: Cell)

  datatype Policy = Append | Prepend | Ascending | Descending

  /** Which attributes a deletion may come with besides the variable's own. */
  datatype DeletePolicy = DeletePolicy(allowZero: bool, allowMismatch: bool)

  datatype Status = Success | InvalidParameter | NotFound | BufferTooSmall | OutOfResources

  type Comparison = (Key, Key) -> int

  ghost predicate Equates(cmp: Comparison) { forall a, b :: cmp(a, b) == 0 <==> a == b }

  ghost predicate Orders(cmp: Comparison) {
    && Equates(cmp)
    && (forall a, b :: cmp(a, b) < 0 <==> cmp(b, a) > 0)
    && forall a, b, c :: cmp(a, b) < 0 && cmp(b, c) < 0 ==> cmp(a, c) < 0
  }

  /** A policy that sorts needs a total order; the others only need equality. */
  ghost predicate Suits(cmp: Comparison, policy: Policy) {
    Equates(cmp) && (policy.Ascending? || policy.Descending? ==> Orders(cmp))
  }

  predicate Unique(vars: seq<Var>) { forall i, j :: 0 <= i < j < |vars| ==> vars[i].key != vars[j].key }

  predicate Sorted(vars: seq<Var>, policy: Policy, cmp: Comparison) {
    match policy
    case Ascending => forall i, j :: 0 <= i < j < |vars| ==> cmp(vars[i].key, vars[j].key) < 0
    case Descending => forall i, j :: 0 <= i < j < |vars| ==> cmp(vars[i].key, vars[j].key) > 0
    case _ => true
  }

  /** The list as a map from names to contents. */
  function Contents(vars: seq<Var>): (m: map<Key, Cell>)
    requires Unique(vars)
  {
    map i | 0 <= i < |vars| :: vars[i].key := vars[i].cell
  }

  lemma ContentsAt(vars: seq<Var>, i: nat)
    requires Unique(vars) && i < |vars|
    ensures vars[i].key in Contents(vars) && Contents(vars)[vars[i].key] == vars[i].cell
  {
  }

  lemma IndexOf(vars: seq<Var>, k: Key) returns (i: nat)
    requires Unique(vars) && k in Contents(vars)
    ensures i < |vars| && vars[i].key == k
  {
    i :| 0 <= i < |vars| && vars[i].key == k;
  }

  /** A list whose entries are those of a map holds that map. */
  lemma SameContents(vars: seq<Var>, m: map<Key, Cell>)
    requires Unique(vars) && forall i :: 0 <= i < |vars| ==> vars[i].key in m && m[vars[i].key] == vars[i].cell
    requires forall k :: k in m ==> HasKey(vars, k)
    ensures Contents(vars) == m
  {
    hide Contents, Unique;
    var n := Contents(vars);
    forall k | k in n ensures k in m && m[k] == n[k] {
      var i := IndexOf(vars, k);
      ContentsAt(vars, i);
    }
    forall k | k in m ensures k in n {
      var i :| 0 <= i < |vars| && vars[i].key == k;
      ContentsAt(vars, i);
    }
  }

  predicate HasKey(vars: seq<Var>, k: Key) { exists i :: 0 <= i < |vars| && vars[i].key == k }

  // ---------------------------------------------------------------- SetVariable

  /** Where the search stops: at the variable itself, or under a sorting policy where it would belong. */
  predicate Stops(policy: Policy, c: int) {
    match policy case Descending => c >= 0 case Ascending => c <= 0 case _ => c == 0
  }

  function Find(vars: seq<Var>, from: nat, policy: Policy, key: Key, cmp: Comparison): (p: nat)
    requires from <= |vars|
    ensures from <= p <= |vars|
    ensures forall i :: from <= i < p ==> !Stops(policy, cmp(key, vars[i].key))
    ensures p < |vars| ==> Stops(policy, cmp(key, vars[p].key))
    decreases |vars| - from
  {
    if from == |vars| || Stops(policy, cmp(key, vars[from].key)) then from else Find(vars, from + 1, policy, key, cmp)
  }

  function Inserted(vars: seq<Var>, p: nat, v: Var): seq<Var>
    requires p <= |vars|
  {
    vars[..p] + [v] + vars[p..]
  }

  function Removed(vars: seq<Var>, p: nat): seq<Var>
    requires p < |vars|
  {
    vars[..p] + vars[p + 1..]
  }

  /** What to do with a variable that is there: its new contents, or nothing to delete it. */
  datatype Change = Keep(status: Status) | Store(cell: Cell) | Delete

  predicate AttrsMatch(a: Attrs, b: Attrs) { a.(append := false) == b.(append := false) }

  /** `room` is whether the quota allows the change. */
  function ChangeOf(old_: Cell, attrs: Attrs, data: seq<byte>, room: bool, del: DeletePolicy): Change {
    if !AttrsMatch(old_.attrs, attrs) &&
       !(data == [] && !attrs.append && ((del.allowZero && attrs == NO_ATTRS) || del.allowMismatch))
    then Keep(InvalidParameter)
    else if attrs.append then
      if data == [] then Keep(Success) else if room then Store(Cell(old_.attrs, old_.data + data)) else Keep(OutOfResources)
    else if data == [] then
      if attrs.timeAuth || attrs.enhancedAuth then Keep(InvalidParameter) else if room then Delete else Keep(OutOfResources)
    else if room then Store(Cell(old_.attrs, data)) else Keep(OutOfResources)
  }

  predicate BadCall(key: Key, attrs: Attrs) { key.name == "" || (attrs.runtime && !attrs.bootService) }

  function InsertAt(vars: seq<Var>, p: nat, policy: Policy): (q: nat)
    requires p <= |vars|
    ensures q <= |vars|
  {
    if policy.Prepend? then 0 else p
  }

  datatype Call = Call(key: Key, attrs: Attrs, data: seq<byte>, room: bool)

  function SetSpec(vars: seq<Var>, c: Call, policy: Policy, del: DeletePolicy, cmp: Comparison): (Status, seq<Var>) {
    if BadCall(c.key, c.attrs) then (InvalidParameter, vars)
    else
      var p := Find(vars, 0, policy, c.key, cmp);
      if p < |vars| && cmp(c.key, vars[p].key) == 0 then
        match ChangeOf(vars[p].cell, c.attrs, c.data, c.room, del)
        case Keep(status) => (status, vars)
        case Store(cell) => (Success, vars[p := Var(vars[p].key, cell)])
        case Delete => (Success, Removed(vars, p))
      else if c.data == [] then (InvalidParameter, vars)
      else (Success, Inserted(vars, InsertAt(vars, p, policy), Var(c.key, Cell(c.attrs, c.data))))
  }

  /** The same call on a plain map. */
  function MapSet(m: map<Key, Cell>, c: Call, del: DeletePolicy): (Status, map<Key, Cell>) {
    if BadCall(c.key, c.attrs) then (InvalidParameter, m)
    else if c.key in m then
      match ChangeOf(m[c.key], c.attrs, c.data, c.room, del)
      case Keep(status) => (status, m)
      case Store(cell) => (Success, m[c.key := cell])
      case Delete => (Success, m - {c.key})
    else if c.data == [] then (InvalidParameter, m)
    else (Success, m[c.key := Cell(c.attrs, c.data)])
  }

  // ---------------------------------------------------------------- the laws of SetVariable

  ghost predicate Ordered(vars: seq<Var>, policy: Policy, cmp: Comparison) { Unique(vars) && Sorted(vars, policy, cmp) }

  /** The search finds the variable exactly when the map holds it. */
  lemma FindsKey(vars: seq<Var>, policy: Policy, key: Key, cmp: Comparison)
    requires Ordered(vars, policy, cmp) && Suits(cmp, policy)
    ensures
      var p := Find(vars, 0, policy, key, cmp);
      (p < |vars| && cmp(key, vars[p].key) == 0) <==> key in Contents(vars)
  {
    hide Contents;
    var p := Find(vars, 0, policy, key, cmp);
    if key in Contents(vars) {
      var j := IndexOf(vars, key);
      assert cmp(key, vars[j].key) == 0;
      assert p <= j;
      Earlier(vars, j, policy, cmp);
    }
    if p < |vars| && cmp(key, vars[p].key) == 0 { ContentsAt(vars, p); }
  }

  /** The order between an entry of a sorted list and those before it. */
  lemma Earlier(vars: seq<Var>, j: nat, policy: Policy, cmp: Comparison)
    requires Sorted(vars, policy, cmp) && Suits(cmp, policy) && j < |vars|
    ensures policy.Ascending? ==> forall i :: 0 <= i < j ==> cmp(vars[j].key, vars[i].key) > 0
    ensures policy.Descending? ==> forall i :: 0 <= i < j ==> cmp(vars[j].key, vars[i].key) < 0
  {
  }

  lemma InsertKeeps(vars: seq<Var>, policy: Policy, v: Var, cmp: Comparison)
    requires Ordered(vars, policy, cmp) && Suits(cmp, policy) && v.key !in Contents(vars)
    ensures
      var p := InsertAt(vars, Find(vars, 0, policy, v.key, cmp), policy);
      Ordered(Inserted(vars, p, v), policy, cmp)
      && Contents(Inserted(vars, p, v)) == Contents(vars)[v.key := v.cell]
  {
    hide Contents, Find, Orders, Equates;
    var p := InsertAt(vars, Find(vars, 0, policy, v.key, cmp), policy);
    forall i | 0 <= i < |vars| ensures vars[i].key != v.key { ContentsAt(vars, i); }
    SidesOrdered(vars, policy, v, cmp);
    InsertOrdered(vars, p, v, policy, cmp);
    InsertContents(vars, p, v);
  }

  lemma InsertedAt(vars: seq<Var>, p: nat, v: Var)
    requires p <= |vars|
    ensures
      var all := Inserted(vars, p, v);
      && |all| == |vars| + 1 && all[p] == v
      && (forall i :: 0 <= i < p ==> all[i] == vars[i])
      && (forall i :: p < i < |all| ==> all[i] == vars[i - 1])
      && forall i :: p <= i < |vars| ==> vars[i] == all[i + 1]
  {
  }

  /** An entry that belongs between its neighbours keeps the list ordered. */
  lemma InsertOrdered(vars: seq<Var>, p: nat, v: Var, policy: Policy, cmp: Comparison)
    requires Ordered(vars, policy, cmp) && p <= |vars| && forall i :: 0 <= i < |vars| ==> vars[i].key != v.key
    requires policy.Ascending? ==> forall i :: 0 <= i < |vars| ==>
      if i < p then cmp(vars[i].key, v.key) < 0 else cmp(v.key, vars[i].key) < 0
    requires policy.Descending? ==> forall i :: 0 <= i < |vars| ==>
      if i < p then cmp(vars[i].key, v.key) > 0 else cmp(v.key, vars[i].key) > 0
    ensures Ordered(Inserted(vars, p, v), policy, cmp)
  {
    hide Inserted;
    InsertedAt(vars, p, v);
    var all := Inserted(vars, p, v);
    forall i, j | 0 <= i < j < |all|
      ensures all[i].key != all[j].key
      ensures policy.Ascending? ==> cmp(all[i].key, all[j].key) < 0
      ensures policy.Descending? ==> cmp(all[i].key, all[j].key) > 0
    {
      var i', j' := if i < p then i else i - 1, if j < p then j else j - 1;
      assert i != p ==> all[i] == vars[i'];
      assert j != p ==> all[j] == vars[j'];
    }
  }

  /** Everything before the search's stop is on one side of the new name, everything from it on the other. */
  lemma SidesOrdered(vars: seq<Var>, policy: Policy, v: Var, cmp: Comparison)
    requires Ordered(vars, policy, cmp) && Suits(cmp, policy) && forall i :: 0 <= i < |vars| ==> vars[i].key != v.key
    ensures
      var p := Find(vars, 0, policy, v.key, cmp);
      && (policy.Ascending? ==> forall i :: 0 <= i < |vars| ==>
            if i < p then cmp(vars[i].key, v.key) < 0 else cmp(v.key, vars[i].key) < 0)
      && (policy.Descending? ==> forall i :: 0 <= i < |vars| ==>
            if i < p then cmp(vars[i].key, v.key) > 0 else cmp(v.key, vars[i].key) > 0)
  {
    hide Orders, Equates;
    var p := Find(vars, 0, policy, v.key, cmp);
    if policy.Ascending? || policy.Descending? {
      forall i | 0 <= i < |vars|
        ensures policy.Ascending? ==> if i < p then cmp(vars[i].key, v.key) < 0 else cmp(v.key, vars[i].key) < 0
        ensures policy.Descending? ==> if i < p then cmp(vars[i].key, v.key) > 0 else cmp(v.key, vars[i].key) > 0
      {
        Sides(v.key, vars[i].key, if i > p then vars[p].key else vars[i].key, cmp);
        assert i > p ==> (policy.Ascending? ==> cmp(vars[p].key, vars[i].key) < 0) && (policy.Descending? ==> cmp(vars[p].key, vars[i].key) > 0);
      }
    }
  }

  /** What a total order gives for three names, the first different from the others. */
  lemma Sides(a: Key, b: Key, c: Key, cmp: Comparison)
    requires Orders(cmp) && a != b && a != c
    ensures cmp(a, b) != 0 && cmp(a, c) != 0 && (cmp(a, b) < 0 <==> cmp(b, a) > 0) && (cmp(a, b) > 0 <==> cmp(b, a) < 0)
    ensures cmp(a, c) < 0 && cmp(c, b) < 0 ==> cmp(a, b) < 0
    ensures cmp(a, c) > 0 && cmp(c, b) > 0 ==> cmp(a, b) > 0
  {
    assert cmp(b, a) == 0 <==> b == a;
    if cmp(a, c) > 0 && cmp(c, b) > 0 {
      assert cmp(b, c) < 0 && cmp(c, a) < 0;
      assert cmp(b, a) < 0;
    }
  }

  lemma InsertContents(vars: seq<Var>, p: nat, v: Var)
    requires p <= |vars| && Unique(vars) && Unique(Inserted(vars, p, v)) && v.key !in Contents(vars)
    ensures Contents(Inserted(vars, p, v)) == Contents(vars)[v.key := v.cell]
  {
    hide Contents, Inserted, Unique;
    InsertedAt(vars, p, v);
    var all := Inserted(vars, p, v);
    var n := Contents(vars)[v.key := v.cell];
    forall i | 0 <= i < |all| ensures all[i].key in n && n[all[i].key] == all[i].cell {
      if i != p { ContentsAt(vars, if i < p then i else i - 1); }
    }
    forall k | k in n ensures HasKey(all, k) {
      if k == v.key {
        assert all[p].key == k;
      } else {
        var i := IndexOf(vars, k);
        assert all[if i < p then i else i + 1].key == k;
      }
    }
    SameContents(all, n);
  }

  lemma ReplaceKeeps(vars: seq<Var>, p: nat, cell: Cell, policy: Policy, cmp: Comparison)
    requires Ordered(vars, policy, cmp) && p < |vars|
    ensures
      var all := vars[p := Var(vars[p].key, cell)];
      Ordered(all, policy, cmp) && Contents(all) == Contents(vars)[vars[p].key := cell]
  {
    hide Contents;
    var all := vars[p := Var(vars[p].key, cell)];
    var n := Contents(vars)[vars[p].key := cell];
    assert forall i :: 0 <= i < |vars| ==> all[i].key == vars[i].key;
    assert Ordered(all, policy, cmp);
    forall i | 0 <= i < |all| ensures all[i].key in n && n[all[i].key] == all[i].cell {
      ContentsAt(vars, i);
    }
    forall k | k in n ensures HasKey(all, k) {
      ContentsAt(vars, p);
      var i := IndexOf(vars, k);
      assert all[i].key == k;
    }
    SameContents(all, n);
  }

  lemma RemoveKeeps(vars: seq<Var>, p: nat, policy: Policy, cmp: Comparison)
    requires Ordered(vars, policy, cmp) && p < |vars|
    ensures Ordered(Removed(vars, p), policy, cmp) && Contents(Removed(vars, p)) == Contents(vars) - {vars[p].key}
  {
    hide Contents;
    var all := Removed(vars, p);
    var n := Contents(vars) - {vars[p].key};
    assert forall i :: 0 <= i < |all| ==> all[i] == vars[if i < p then i else i + 1];
    assert Ordered(all, policy, cmp);
    forall i | 0 <= i < |all| ensures all[i].key in n && n[all[i].key] == all[i].cell {
      ContentsAt(vars, if i < p then i else i + 1);
    }
    forall k | k in n ensures HasKey(all, k) {
      var i := IndexOf(vars, k);
      assert all[if i < p then i else i - 1].key == k;
    }
    SameContents(all, n);
  }

  /** One call: names stay unique, a sorting policy stays sorted, and the list behaves as the plain map. */
  lemma SetAgrees(vars: seq<Var>, c: Call, policy: Policy, del: DeletePolicy, cmp: Comparison)
    requires Ordered(vars, policy, cmp) && Suits(cmp, policy)
    ensures
      var (status, after) := SetSpec(vars, c, policy, del, cmp);
      Ordered(after, policy, cmp) && (status, Contents(after)) == MapSet(Contents(vars), c, del)
  {
    hide ChangeOf, Contents, Find, Sorted, Unique, Inserted, Removed;
    if !BadCall(c.key, c.attrs) {
      var p := Find(vars, 0, policy, c.key, cmp);
      FindsKey(vars, policy, c.key, cmp);
      if p < |vars| && cmp(c.key, vars[p].key) == 0 {
        assert vars[p].key == c.key;
        RemoveKeeps(vars, p, policy, cmp);
        ContentsAt(vars, p);
        match ChangeOf(vars[p].cell, c.attrs, c.data, c.room, del)
        case Store(cell) => ReplaceKeeps(vars, p, cell, policy, cmp);
        case _ =>
      } else {
        InsertKeeps(vars, policy, Var(c.key, Cell(c.attrs, c.data)), cmp);
      }
    }
  }

  function RunSpec(vars: seq<Var>, calls: seq<Call>, policy: Policy, del: DeletePolicy, cmp: Comparison): seq<Var>
    decreases |calls|
  {
    if calls == [] then vars else RunSpec(SetSpec(vars, calls[0], policy, del, cmp).1, calls[1..], policy, del, cmp)
  }

  function RunMap(m: map<Key, Cell>, calls: seq<Call>, del: DeletePolicy): map<Key, Cell>
    decreases |calls|
  {
    if calls == [] then m else RunMap(MapSet(m, calls[0], del).1, calls[1..], del)
  }

  /** Any sequence of calls: all four policies hold the same variables, and each keeps its order. */
  lemma {:induction false} RunAgrees(vars: seq<Var>, calls: seq<Call>, policy: Policy, del: DeletePolicy, cmp: Comparison)
    requires Ordered(vars, policy, cmp) && Suits(cmp, policy)
    ensures Ordered(RunSpec(vars, calls, policy, del, cmp), policy, cmp)
    ensures Contents(RunSpec(vars, calls, policy, del, cmp)) == RunMap(Contents(vars), calls, del)
    decreases |calls|
  {
    hide SetSpec, MapSet, Contents;
    if calls != [] {
      SetAgrees(vars, calls[0], policy, del, cmp);
      RunAgrees(SetSpec(vars, calls[0], policy, del, cmp).1, calls[1..], policy, del, cmp);
    }
  }

  // ---------------------------------------------------------------- GetVariable and GetNextVariableName

  /** What GetVariable answers: the status, and the attributes, size and data it hands out. */
  datatype Answer = Answer(status: Status, attrs: Option<Attrs>, size: nat, data: seq<byte>)

  function GetSpec(m: map<Key, Cell>, key: Key, size: nat, hasBuffer: bool): Answer {
    if key !in m then Answer(NotFound, None, size, [])
    else
      var cell := m[key];
      if |cell.data| > size then Answer(BufferTooSmall, Some(cell.attrs), |cell.data|, [])
      else if !hasBuffer then Answer(InvalidParameter, Some(cell.attrs), size, [])
      else Answer(Success, Some(cell.attrs), |cell.data|, cell.data)
  }

  /** Two sets of attributes, append bit aside. */
  predicate SameButAppend(a: Attrs, b: Attrs) {
    && a.runtime == b.runtime && a.bootService == b.bootService && a.timeAuth == b.timeAuth
    && a.enhancedAuth == b.enhancedAuth && a.others == b.others
  }

  predicate NoBits(a: Attrs) {
    !a.append && !a.runtime && !a.bootService && !a.timeAuth && !a.enhancedAuth && a.others == 0
  }

  /** A call with no data and without the append bit deletes. */
  predicate Deletes(c: Call) { c.data == [] && !c.attrs.append }

  /**
   Which calls succeed.  A new variable needs data.  An old one needs its own attributes, unless the call
   deletes and the policy lets the attributes differ; room, unless nothing is appended; and a deletion
   cannot be authenticated.
   */
  lemma SucceedsIff(vars: seq<Var>, c: Call, policy: Policy, del: DeletePolicy, cmp: Comparison)
    requires Ordered(vars, policy, cmp) && Suits(cmp, policy)
    ensures
      SetSpec(vars, c, policy, del, cmp).0 == Success <==>
        && c.key.name != "" && (c.attrs.runtime ==> c.attrs.bootService)
        && (c.key !in Contents(vars) ==> c.data != [])
        && (c.key in Contents(vars) ==>
              && (SameButAppend(Contents(vars)[c.key].attrs, c.attrs)
                  || (Deletes(c) && (del.allowMismatch || (del.allowZero && NoBits(c.attrs)))))
              && (c.room || (c.data == [] && c.attrs.append))
              && (Deletes(c) ==> !c.attrs.timeAuth && !c.attrs.enhancedAuth))
  {
    hide SetSpec, Contents, Ordered, Suits;
    SetAgrees(vars, c, policy, del, cmp);
  }

  /** What the variables hold for a reader: nothing, or the attributes and the data. */
  ghost predicate Reads(vars: seq<Var>, k: Key, cell: Option<Cell>)
    requires Unique(vars)
  {
    forall size: nat, hasBuffer: bool ::
      GetSpec(Contents(vars), k, size, hasBuffer) ==
        if cell.None? then Answer(NotFound, None, size, [])
        else if size < |cell.value.data| then Answer(BufferTooSmall, Some(cell.value.attrs), |cell.value.data|, [])
        else if hasBuffer then Answer(Success, Some(cell.value.attrs), |cell.value.data|, cell.value.data)
        else Answer(InvalidParameter, Some(cell.value.attrs), size, [])
  }

  function Held(vars: seq<Var>, k: Key): Option<Cell>
    requires Unique(vars)
  {
    if k in Contents(vars) then Some(Contents(vars)[k]) else None
  }

  /**
   What GetVariable reads behind a SetVariable call: behind a refused one what it read before; behind an
   accepted one the new data under the variable's first attributes, the old data with the new behind it, or
   nothing; and what it read before of every other variable.
   */
  lemma GetAfterSet(vars: seq<Var>, c: Call, policy: Policy, del: DeletePolicy, cmp: Comparison, k: Key)
    requires Ordered(vars, policy, cmp) && Suits(cmp, policy)
    ensures
      var (status, after) := SetSpec(vars, c, policy, del, cmp);
      var was := Held(vars, k);
      && Unique(after) && Reads(vars, k, was)
      && Reads(after, k,
           if status != Success || k != c.key then was
           else if was.None? then Some(Cell(c.attrs, c.data))
           else if c.attrs.append then Some(Cell(was.value.attrs, was.value.data + c.data))
           else if c.data == [] then None
           else Some(Cell(was.value.attrs, c.data)))
  {
    hide SetSpec, Contents, Suits, Sorted, Unique;
    SetAgrees(vars, c, policy, del, cmp);
    var after := SetSpec(vars, c, policy, del, cmp).1;
  }

  /** The same names, place by place. */
  predicate SameNames(a: seq<Var>, b: seq<Var>) { |a| == |b| && forall i :: 0 <= i < |a| ==> a[i].key == b[i].key }

  /**
   Where the lists of the four policies take a change: a new variable goes in front under Prepend, to the end
   under Append, and to its place when sorted; a variable written again keeps its place, a deleted one leaves.
   */
  lemma PlaceAfterSet(vars: seq<Var>, c: Call, policy: Policy, del: DeletePolicy, cmp: Comparison) returns (p: nat)
    requires Ordered(vars, policy, cmp) && Suits(cmp, policy) && SetSpec(vars, c, policy, del, cmp).0 == Success
    ensures p <= |vars|
    ensures
      var after := SetSpec(vars, c, policy, del, cmp).1;
      if c.key !in Contents(vars) then
        && after == vars[..p] + [Var(c.key, Cell(c.attrs, c.data))] + vars[p..]
        && (policy.Prepend? ==> p == 0) && (policy.Append? ==> p == |vars|)
      else if Deletes(c) then p < |vars| && vars[p].key == c.key && after == vars[..p] + vars[p + 1..]
      else SameNames(after, vars)
  {
    hide Contents, Suits, Sorted, Unique;
    FindsKey(vars, policy, c.key, cmp);
    p := Find(vars, 0, policy, c.key, cmp);
    if c.key in Contents(vars) {
      SuitsEquates(cmp, policy, c.key, vars[p].key);
    } else {
      if policy.Append? { NotStopped(vars, c.key, cmp); }
      p := InsertAt(vars, p, policy);
    }
  }

  lemma SuitsEquates(cmp: Comparison, policy: Policy, a: Key, b: Key)
    requires Suits(cmp, policy)
    ensures cmp(a, b) == 0 <==> a == b
  {
  }

  /** Without the variable the search in list order goes to the end. */
  lemma NotStopped(vars: seq<Var>, key: Key, cmp: Comparison)
    requires !(Find(vars, 0, Append, key, cmp) < |vars| && cmp(key, vars[Find(vars, 0, Append, key, cmp)].key) == 0)
    ensures Find(vars, 0, Append, key, cmp) == |vars|
  {
  }

  /** First variable of a vendor at or behind a position. */
  function FirstOf(vars: seq<Var>, guid: Guid, from: nat): (r: nat)
    requires from <= |vars|
    ensures from <= r <= |vars| && (r < |vars| ==> vars[r].key.guid == guid)
    ensures forall i :: from <= i < r ==> vars[i].key.guid != guid
    decreases |vars| - from
  {
    if from == |vars| || vars[from].key.guid == guid then from else FirstOf(vars, guid, from + 1)
  }

  datatype Next = Found(index: nat) | Ended | Unknown

  /** The variable GetNextVariableName selects: the vendor's first, or its next one behind the name given. */
  function NextSpec(vars: seq<Var>, guid: Guid, name: Name, cmp: Comparison): (r: Next)
    ensures r.Found? ==> r.index < |vars|
  {
    var p := if name == "" then 0 else Find(vars, 0, Append, Key(guid, name), cmp);
    if name != "" && p == |vars| then Unknown
    else
      var i := FirstOf(vars, guid, if name == "" then 0 else p + 1);
      if i == |vars| then Ended else Found(i)
  }

  /** Where a vendor's variables are, from a position on. */
  function Places(vars: seq<Var>, guid: Guid, from: nat): (ps: seq<nat>)
    requires from <= |vars|
    decreases |vars| - from
  {
    if from == |vars| then []
    else (if vars[from].key.guid == guid then [from] else []) + Places(vars, guid, from + 1)
  }

  /** Exactly the vendor's positions from `from` on, in order. */
  predicate AllPlaces(vars: seq<Var>, guid: Guid, from: nat, ps: seq<nat>) {
    && (forall k :: 0 <= k < |ps| ==> from <= ps[k] < |vars| && vars[ps[k]].key.guid == guid)
    && (forall j, k :: 0 <= j < k < |ps| ==> ps[j] < ps[k])
    && (forall i :: from <= i < |vars| && vars[i].key.guid == guid ==> i in ps)
  }

  lemma AllPlacesCons(vars: seq<Var>, guid: Guid, from: nat, rest: seq<nat>)
    requires from < |vars| && AllPlaces(vars, guid, from + 1, rest)
    ensures vars[from].key.guid == guid ==> AllPlaces(vars, guid, from, [from] + rest)
    ensures vars[from].key.guid != guid ==> AllPlaces(vars, guid, from, rest)
  {
    if vars[from].key.guid == guid {
      var ps := [from] + rest;
      assert ps[0] == from && forall k :: 0 < k < |ps| ==> ps[k] == rest[k - 1];
      forall i | from <= i < |vars| && vars[i].key.guid == guid ensures i in ps {
        if i > from { assert i in rest; }
      }
    }
  }

  lemma {:induction false} PlacesAre(vars: seq<Var>, guid: Guid, from: nat)
    requires from <= |vars|
    ensures AllPlaces(vars, guid, from, Places(vars, guid, from))
    ensures FirstOf(vars, guid, from) == if Places(vars, guid, from) == [] then |vars| else Places(vars, guid, from)[0]
    decreases |vars| - from
  {
    hide AllPlaces, Places, FirstOf;
    PlacesStep(vars, guid, from);
    if from < |vars| {
      PlacesAre(vars, guid, from + 1);
      AllPlacesCons(vars, guid, from, Places(vars, guid, from + 1));
    } else {
      NoPlaces(vars, guid);
    }
  }

  lemma PlacesStep(vars: seq<Var>, guid: Guid, from: nat)
    requires from <= |vars|
    ensures Places(vars, guid, from) ==
      if from == |vars| then []
      else if vars[from].key.guid == guid then [from] + Places(vars, guid, from + 1)
      else Places(vars, guid, from + 1)
    ensures FirstOf(vars, guid, from) ==
      if from == |vars| || vars[from].key.guid == guid then from else FirstOf(vars, guid, from + 1)
  {
  }

  lemma NoPlaces(vars: seq<Var>, guid: Guid)
    ensures AllPlaces(vars, guid, |vars|, [])
  {
  }

  lemma {:induction false} PlacesBehind(vars: seq<Var>, guid: Guid, from: nat, k: nat)
    requires from <= |vars| && k < |Places(vars, guid, from)|
    ensures
      var ps := Places(vars, guid, from);
      ps[k] < |vars| && Places(vars, guid, ps[k] + 1) == ps[k + 1..]
    decreases |vars| - from
  {
    var ps, rest := Places(vars, guid, from), Places(vars, guid, from + 1);
    if vars[from].key.guid == guid {
      assert ps[0] == from && ps[1..] == rest;
      if k > 0 {
        PlacesBehind(vars, guid, from + 1, k - 1);
        assert ps[k] == rest[k - 1] && rest[k..] == ps[k + 1..];
      }
    } else {
      assert ps == rest;
      PlacesBehind(vars, guid, from + 1, k);
    }
  }

  predicate Named(vars: seq<Var>) { forall i :: 0 <= i < |vars| ==> vars[i].key.name != "" }

  /** Behind the k-th variable of the vendor comes the next one, and behind the last one nothing. */
  predicate Follows(vars: seq<Var>, guid: Guid, cmp: Comparison, ps: seq<nat>, k: nat)
    requires k < |ps|
  {
    ps[k] < |vars| && NextSpec(vars, guid, vars[ps[k]].key.name, cmp) == if k + 1 < |ps| then Found(ps[k + 1]) else Ended
  }

  lemma NextOfPlace(vars: seq<Var>, guid: Guid, cmp: Comparison, k: nat)
    requires Unique(vars) && Named(vars) && Equates(cmp) && k < |Places(vars, guid, 0)|
    ensures Follows(vars, guid, cmp, Places(vars, guid, 0), k)
  {
    hide Places, FirstOf, AllPlaces;
    var ps := Places(vars, guid, 0);
    var at := ps[k];
    PlacesAre(vars, guid, 0);
    PlaceIs(vars, guid, 0, ps, k);
    FindsIt(vars, at, cmp);
    PlacesBehind(vars, guid, 0, k);
    PlacesAre(vars, guid, at + 1);
    if k + 1 < |ps| { PlaceIs(vars, guid, 0, ps, k + 1); }
  }

  lemma PlaceIs(vars: seq<Var>, guid: Guid, from: nat, ps: seq<nat>, k: nat)
    requires AllPlaces(vars, guid, from, ps) && k < |ps|
    ensures from <= ps[k] < |vars| && vars[ps[k]].key == Key(guid, vars[ps[k]].key.name)
  {
  }

  lemma FindsIt(vars: seq<Var>, at: nat, cmp: Comparison)
    requires Unique(vars) && Equates(cmp) && at < |vars|
    ensures Find(vars, 0, Append, vars[at].key, cmp) == at
  {
    var p := Find(vars, 0, Append, vars[at].key, cmp);
    assert cmp(vars[at].key, vars[at].key) == 0;
  }

  /**
   Asking for the next name from the empty one on visits each variable of the vendor exactly once, in
   list order, then ends; a name the vendor does not have is refused.
   */
  lemma EnumerationVisitsAll(vars: seq<Var>, guid: Guid, cmp: Comparison)
    requires Unique(vars) && Named(vars) && Equates(cmp)
    ensures
      var ps := Places(vars, guid, 0);
      && AllPlaces(vars, guid, 0, ps)
      && NextSpec(vars, guid, "", cmp) == (if ps == [] then Ended else Found(ps[0]))
      && (forall k :: 0 <= k < |ps| ==> Follows(vars, guid, cmp, ps, k))
      && forall name: Name :: name != "" && !HasKey(vars, Key(guid, name)) ==> NextSpec(vars, guid, name, cmp) == Unknown
  {
    hide Places, FirstOf, AllPlaces;
    PlacesAre(vars, guid, 0);
    if Places(vars, guid, 0) != [] { PlaceIs(vars, guid, 0, Places(vars, guid, 0), 0); }
    forall k | 0 <= k < |Places(vars, guid, 0)| ensures Follows(vars, guid, cmp, Places(vars, guid, 0), k) {
      NextOfPlace(vars, guid, cmp, k);
    }
    forall name: Name | name != "" && !HasKey(vars, Key(guid, name)) ensures NextSpec(vars, guid, name, cmp) == Unknown {
      assert forall i :: 0 <= i < |vars| ==> vars[i].key != Key(guid, name);
      assert forall i :: 0 <= i < |vars| ==> cmp(Key(guid, name), vars[i].key) != 0;
    }
  }

  /** Calls never store an empty name. */
  lemma SetNamed(vars: seq<Var>, c: Call, policy: Policy, del: DeletePolicy, cmp: Comparison)
    requires Named(vars)
    ensures Named(SetSpec(vars, c, policy, del, cmp).1)
  {
  }
}
