/** A hash list's bytes as entries of one size, and what removing an entry does to the bytes. */
module HashList {
  import opened Bytes
  import opened HashPurge

  predicate AllSized(es: seq<Entry>, sz: nat) { forall k :: 0 <= k < |es| ==> |es[k]| == sz }

  function Concat(es: seq<Entry>): seq<byte> {
    if es == [] then [] else es[0] + Concat(es[1..])
  }

  /** The whole entries at the front of the data. */
  function Entries(data: seq<byte>, sz: nat): (es: seq<Entry>)
    requires sz > 0
    ensures AllSized(es, sz)
    decreases |data|
  {
    if |data| < sz then [] else [data[..sz]] + Entries(data[sz..], sz)
  }

  /** Bytes behind the last whole entry. */
  function Left(data: seq<byte>, sz: nat): (r: seq<byte>)
    requires sz > 0
    ensures |r| < sz
    decreases |data|
  {
    if |data| < sz then data else Left(data[sz..], sz)
  }

  lemma EntriesStep(data: seq<byte>, sz: nat)
    requires 0 < sz <= |data|
    ensures Entries(data, sz) == [data[..sz]] + Entries(data[sz..], sz) && Left(data, sz) == Left(data[sz..], sz)
    ensures Concat(Entries(data, sz)) == data[..sz] + Concat(Entries(data[sz..], sz))
  {
    assert Entries(data, sz)[1..] == Entries(data[sz..], sz);
  }

  lemma Regroup(a: seq<byte>, b: seq<byte>, c: seq<byte>)
    ensures a + (b + c) == (a + b) + c
  {
  }

  lemma {:induction false} EntriesCover(data: seq<byte>, sz: nat)
    requires sz > 0
    ensures data == Concat(Entries(data, sz)) + Left(data, sz)
    decreases |data|
  {
    if |data| >= sz {
      hide Entries, Left, Concat;
      EntriesStep(data, sz);
      EntriesCover(data[sz..], sz);
      Regroup(data[..sz], Concat(Entries(data[sz..], sz)), Left(data[sz..], sz));
      assert data == data[..sz] + data[sz..];
    }
  }

  lemma {:induction false} EntriesNumber(data: seq<byte>, sz: nat)
    requires sz > 0
    ensures |Entries(data, sz)| == |data| / sz
    decreases |data|
  {
    if |data| < sz {
      ModUnique(|data|, sz, 0, |data|);
    } else {
      EntriesNumber(data[sz..], sz);
      var n := |data[sz..]|;
      assert n == (n / sz) * sz + n % sz;
      assert (n / sz + 1) * sz == (n / sz) * sz + sz;
      ModUnique(|data|, sz, n / sz + 1, n % sz);
    }
  }

  lemma {:induction false} ConcatAppend(a: seq<Entry>, b: seq<Entry>)
    ensures Concat(a + b) == Concat(a) + Concat(b)
  {
    if a == [] { assert a + b == b; } else {
      assert (a + b)[1..] == a[1..] + b;
      ConcatAppend(a[1..], b);
      assert a[0] + (Concat(a[1..]) + Concat(b)) == (a[0] + Concat(a[1..])) + Concat(b);
    }
  }

  lemma {:induction false} ConcatLength(es: seq<Entry>, sz: nat)
    requires AllSized(es, sz)
    ensures |Concat(es)| == |es| * sz
  {
    if es != [] {
      assert AllSized(es[1..], sz);
      ConcatLength(es[1..], sz);
      assert |es| * sz == (|es| - 1) * sz + sz;
    }
  }

  /** Where entry d lies in the bytes, and that cutting it out leaves the list without it. */
  lemma EntryAt(es: seq<Entry>, left: seq<byte>, sz: nat, d: nat)
    requires AllSized(es, sz) && d < |es|
    ensures
      var data := Concat(es) + left;
      && d * sz + sz <= |data|
      && data[d * sz..d * sz + sz] == es[d]
      && data[..d * sz] + data[d * sz + sz..] == Concat(Without(es, d)) + left
      && AllSized(Without(es, d), sz)
  {
    hide *;
    SizesAround(es, sz, d);
    Around(es, d);
    ConcatLength(es[..d], sz);
    CutMiddle(Concat(es[..d]), es[d], Concat(es[d + 1..]), left);
  }

  lemma SizesAround(es: seq<Entry>, sz: nat, d: nat)
    requires AllSized(es, sz) && d < |es|
    ensures AllSized(Without(es, d), sz) && AllSized(es[..d], sz) && |es[d]| == sz
  {
    var rest := Without(es, d);
    assert forall k :: 0 <= k < |rest| ==> rest[k] == es[if k < d then k else k + 1];
  }

  lemma CutMiddle(a: seq<byte>, b: seq<byte>, c: seq<byte>, left: seq<byte>)
    ensures
      var data := a + b + c + left;
      && data[|a|..|a| + |b|] == b && data[..|a|] + data[|a| + |b|..] == a + c + left
  {
    var data := a + b + c + left;
    assert data[..|a|] == a && data[|a| + |b|..] == c + left;
  }

  lemma ConcatOne(e: Entry)
    ensures Concat([e]) == e
  {
    var one: seq<Entry> := [e];
    assert one[1..] == [];
  }

  lemma Around(es: seq<Entry>, d: nat)
    requires d < |es|
    ensures Concat(es) == Concat(es[..d]) + es[d] + Concat(es[d + 1..])
    ensures Concat(Without(es, d)) == Concat(es[..d]) + Concat(es[d + 1..])
  {
    hide Concat;
    var front, back := es[..d], es[d + 1..];
    Rejoined(es, d);
    AroundParts(front, es[d], back);
  }

  lemma Rejoined(es: seq<Entry>, d: nat)
    requires d < |es|
    ensures es == es[..d] + [es[d]] + es[d + 1..] && Without(es, d) == es[..d] + es[d + 1..]
  {
  }

  lemma AroundParts(a: seq<Entry>, e: Entry, b: seq<Entry>)
    ensures Concat(a + [e] + b) == Concat(a) + e + Concat(b) && Concat(a + b) == Concat(a) + Concat(b)
  {
    hide Concat;
    ConcatOne(e);
    ConcatAppend(a + [e], b);
    ConcatAppend(a, [e]);
    ConcatAppend(a, b);
  }

  /** Entries of a concatenation are its parts. */
  lemma {:induction false} EntriesOfConcat(es: seq<Entry>, left: seq<byte>, sz: nat)
    requires AllSized(es, sz) && |left| < sz
    ensures Entries(Concat(es) + left, sz) == es && Left(Concat(es) + left, sz) == left
  {
    var data := Concat(es) + left;
    if es == [] {
      assert data == left;
    } else {
      assert AllSized(es[1..], sz);
      EntriesOfConcat(es[1..], left, sz);
      assert data[..sz] == es[0] && data[sz..] == Concat(es[1..]) + left;
    }
  }

  /** The bytes left of a list after its entries with digest h are purged; nothing when it is emptied. */
  function Purged(data: seq<byte>, h: seq<byte>, sz: nat): Option<seq<byte>>
    requires sz > 0
  {
    var r := Concat(Purge(Entries(data, sz), h, 0)) + Left(data, sz);
    if r == [] then None else Some(r)
  }

  lemma {:induction false} PurgeSized(es: seq<Entry>, h: seq<byte>, start: nat, sz: nat)
    requires AllSized(es, sz) && start <= |es|
    ensures AllSized(Purge(es, h, start), sz)
    decreases |es|
  {
    var m := Match(es, h, start);
    if m.Some? {
      assert AllSized(Without(es, m.value), sz);
      PurgeSized(Without(es, m.value), h, m.value, sz);
    }
  }

  /** With the digest listed at most once behind leading copies, purging is filtering, entry by entry. */
  lemma PurgedOnce(data: seq<byte>, h: seq<byte>, sz: nat)
    requires sz > 0 && Clears(Entries(data, sz), h)
    ensures
      var p := Purged(data, h, sz);
      && p.None? == (Filter(Entries(data, sz), h) == [] && Left(data, sz) == [])
      && (p.Some? ==> Entries(p.value, sz) == Filter(Entries(data, sz), h) && Left(p.value, sz) == Left(data, sz))
  {
    hide Occurrences, Strip, Purge, Filter;
    var es := Entries(data, sz);
    PurgeIsFilterIff(es, h);
    PurgeSized(es, h, 0, sz);
    EntriesOfConcat(Filter(es, h), Left(data, sz), sz);
    ConcatLength(Filter(es, h), sz);
    if Filter(es, h) != [] {
      MulAtLeast(|Filter(es, h)|, sz);
    }
  }
}
