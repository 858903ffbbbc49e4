/**
 MokManager.c: how match_hash and delete_hash_in_list empty one hash list, on the list's entries.
 match_hash numbers its matches from `start` but always compares from the first entry.
 */
module HashPurge {
  import opened Bytes

  /** One entry of a hash list: 16 bytes of owner, then the digest. */
  type Entry = seq<byte>

  function Digest(e: Entry): seq<byte> { if |e| < 16 then [] else e[16..] }

  /** First entry at or after j, before lim, whose digest is h. */
  function FirstFrom(es: seq<Entry>, h: seq<byte>, j: nat, lim: nat): (r: Option<nat>)
    requires j <= lim <= |es|
    ensures r.Some? ==> j <= r.value < lim && Digest(es[r.value]) == h
    ensures r.Some? ==> forall k :: j <= k < r.value ==> Digest(es[k]) != h
    ensures r.None? ==> forall k :: j <= k < lim ==> Digest(es[k]) != h
    decreases lim - j
  {
    if j == lim then None else if Digest(es[j]) == h then Some(j) else FirstFrom(es, h, j + 1, lim)
  }

  /** match_hash: the number it reports for the first match. */
  function Match(es: seq<Entry>, h: seq<byte>, start: nat): (r: Option<nat>)
    requires start <= |es|
    ensures r.Some? ==> start <= r.value < |es| && Digest(es[r.value - start]) == h
  {
    match FirstFrom(es, h, 0, |es| - start) case None => None case Some(j) => Some(start + j)
  }

  function Without(es: seq<Entry>, d: nat): (r: seq<Entry>)
    requires d < |es|
    ensures |r| == |es| - 1
  {
    es[..d] + es[d + 1..]
  }

  /** The deletion loop: remove the entry match_hash names, search again from its number. */
  function Purge(es: seq<Entry>, h: seq<byte>, start: nat): seq<Entry>
    requires start <= |es|
    decreases |es|
  {
    match Match(es, h, start)
    case None => es
    case Some(d) => Purge(Without(es, d), h, d)
  }

  // ---------------------------------------------------------------- when it is a filter

  /** What deletion is for: the list without the entries whose digest is h. */
  function Filter(es: seq<Entry>, h: seq<byte>): seq<Entry> {
    if es == [] then []
    else (if Digest(es[0]) == h then [] else [es[0]]) + Filter(es[1..], h)
  }

  function Occurrences(es: seq<Entry>, h: seq<byte>): nat {
    if es == [] then 0 else (if Digest(es[0]) == h then 1 else 0) + Occurrences(es[1..], h)
  }

  /** The list from its first entry with another digest on. */
  function Strip(es: seq<Entry>, h: seq<byte>): seq<Entry> {
    if es != [] && Digest(es[0]) == h then Strip(es[1..], h) else es
  }

  lemma {:induction false} OccurrencesAppend(a: seq<Entry>, b: seq<Entry>, h: seq<byte>)
    ensures Occurrences(a + b, h) == Occurrences(a, h) + Occurrences(b, h)
  {
    if a == [] { assert a + b == b; } else {
      assert (a + b)[1..] == a[1..] + b;
      OccurrencesAppend(a[1..], b, h);
    }
  }

  lemma {:induction false} FilterAppend(a: seq<Entry>, b: seq<Entry>, h: seq<byte>)
    ensures Filter(a + b, h) == Filter(a, h) + Filter(b, h)
  {
    if a == [] { assert a + b == b; } else {
      assert (a + b)[1..] == a[1..] + b;
      FilterAppend(a[1..], b, h);
      assert (if Digest(a[0]) == h then [] else [a[0]]) + (Filter(a[1..], h) + Filter(b, h)) ==
             ((if Digest(a[0]) == h then [] else [a[0]]) + Filter(a[1..], h)) + Filter(b, h);
    }
  }

  lemma OneEntry(e: Entry, h: seq<byte>)
    ensures Occurrences([e], h) == (if Digest(e) == h then 1 else 0)
    ensures Filter([e], h) == (if Digest(e) == h then [] else [e])
  {
    var one: seq<Entry> := [e];
    assert one[1..] == [];
  }

  lemma SplitAt(es: seq<Entry>, d: nat, h: seq<byte>)
    requires d < |es|
    ensures Occurrences(Without(es, d), h) == Occurrences(es, h) - if Digest(es[d]) == h then 1 else 0
    ensures Digest(es[d]) == h ==> Filter(Without(es, d), h) == Filter(es, h)
  {
    hide Occurrences, Filter;
    var one: seq<Entry> := [es[d]];
    assert es == es[..d] + (one + es[d + 1..]);
    OneEntry(es[d], h);
    OccurrencesAppend(es[..d], one + es[d + 1..], h);
    OccurrencesAppend(one, es[d + 1..], h);
    OccurrencesAppend(es[..d], es[d + 1..], h);
    FilterAppend(es[..d], one + es[d + 1..], h);
    FilterAppend(one, es[d + 1..], h);
    FilterAppend(es[..d], es[d + 1..], h);
  }

  lemma FilterStep(es: seq<Entry>, h: seq<byte>)
    ensures es == [] ==> Filter(es, h) == [] && Occurrences(es, h) == 0
    ensures es != [] && Digest(es[0]) == h ==>
      Filter(es, h) == Filter(es[1..], h) && Occurrences(es, h) == Occurrences(es[1..], h) + 1
    ensures es != [] && Digest(es[0]) != h ==>
      Filter(es, h) == [es[0]] + Filter(es[1..], h) && Occurrences(es, h) == Occurrences(es[1..], h)
  {
  }

  lemma {:induction false} NoneLeft(es: seq<Entry>, h: seq<byte>)
    ensures Occurrences(es, h) == 0 <==> Filter(es, h) == es
    ensures Occurrences(es, h) == 0 <==> forall k :: 0 <= k < |es| ==> Digest(es[k]) != h
    ensures Occurrences(Filter(es, h), h) == 0
  {
    hide Filter, Occurrences, Digest;
    FilterStep(es, h);
    if es != [] {
      var rest := es[1..];
      NoneLeft(rest, h);
      assert forall k :: 0 < k < |es| ==> es[k] == rest[k - 1];
      assert forall k :: 0 <= k < |rest| ==> rest[k] == es[k + 1];
      FilterShorter(rest, h);
      var f := Filter(es, h);
      FilterStep(f, h);
      if Digest(es[0]) != h { assert f[1..] == Filter(rest, h); }
      assert es == [es[0]] + rest;
    }
  }

  lemma {:induction false} FilterShorter(es: seq<Entry>, h: seq<byte>)
    ensures |Filter(es, h)| <= |es|
  {
    if es != [] { FilterShorter(es[1..], h); }
  }

  /** A search that numbers from past the front never removes the last remaining occurrence. */
  lemma {:induction false} LateSearchLeavesOne(es: seq<Entry>, h: seq<byte>, start: nat)
    requires 0 < start <= |es| && Occurrences(es, h) > 0
    ensures Occurrences(Purge(es, h, start), h) > 0
    decreases |es|
  {
    hide Occurrences;
    var m := Match(es, h, start);
    if m.Some? {
      var d := m.value;
      var rest := Without(es, d);
      assert rest[d - start] == es[d - start];
      NoneLeft(rest, h);
      LateSearchLeavesOne(rest, h, d);
    }
  }

  /**
   Deleting a hash leaves exactly the other entries if and only if, behind any leading copies, the
   list holds the hash at most once.
   */
  lemma {:induction false} PurgeIsFilterIff(es: seq<Entry>, h: seq<byte>)
    ensures Purge(es, h, 0) == Filter(es, h) <==> Occurrences(Strip(es, h), h) <= 1
    decreases |es|
  {
    var m := Match(es, h, 0);
    if m.None? {
      NoneLeft(es, h);
      StripKeeps(es, h);
    } else {
      var d := m.value;
      var rest := Without(es, d);
      SplitAt(es, d, h);
      if d == 0 {
        assert rest == es[1..];
        PurgeIsFilterIff(rest, h);
      } else {
        assert Strip(es, h) == es;
        NoneLeft(rest, h);
        NoneLeft(es, h);
        if Occurrences(rest, h) == 0 {
          assert Match(rest, h, d).None?;
        } else {
          LateSearchLeavesOne(rest, h, d);
        }
      }
    }
  }

  lemma StripKeeps(es: seq<Entry>, h: seq<byte>)
    requires forall k :: 0 <= k < |es| ==> Digest(es[k]) != h
    ensures Strip(es, h) == es
  {
  }

  lemma {:induction false} StripFewer(es: seq<Entry>, h: seq<byte>)
    ensures Occurrences(Strip(es, h), h) <= Occurrences(es, h)
  {
    if es != [] { StripFewer(es[1..], h); }
  }

  /** Two copies behind another entry: the second search reports the wrong number and one copy stays. */
  lemma SecondCopyStays(a: Entry, b: Entry)
    requires Digest(a) != Digest(b)
    ensures Purge([a, b, b], Digest(b), 0) == [a, b]
  {
    var h := Digest(b);
    var es: seq<Entry> := [a, b, b];
    assert Match(es, h, 0) == Some(1) by { assert FirstFrom(es, h, 1, 3) == Some(1); }
    assert Without(es, 1) == [a, b];
    assert Match([a, b], h, 1).None?;
  }

  /** Filtering by one digest does not add occurrences of another. */
  lemma {:induction false} FilterFewer(es: seq<Entry>, h: seq<byte>, g: seq<byte>)
    ensures Occurrences(Filter(es, h), g) <= Occurrences(es, g)
    ensures forall e: Entry :: e in Filter(es, h) <==> e in es && Digest(e) != h
  {
    if es != [] {
      FilterFewer(es[1..], h, g);
      var one: seq<Entry> := [es[0]];
      OccurrencesAppend(if Digest(es[0]) == h then [] else one, Filter(es[1..], h), g);
      OccurrencesAppend(one, es[1..], g);
      assert es == one + es[1..];
      assert Filter(es, h) == (if Digest(es[0]) == h then [] else one) + Filter(es[1..], h);
      forall e: Entry ensures e in Filter(es, h) <==> e in es && Digest(e) != h {
        assert e in es <==> e == es[0] || e in es[1..];
      }
    }
  }

  /** Behind leading copies the hash is listed at most once, so deleting it is filtering. */
  predicate Clears(es: seq<Entry>, h: seq<byte>) { Occurrences(Strip(es, h), h) <= 1 }

  /** Filtering by one digest keeps that so for every other. */
  lemma {:induction false} StripFiltered(es: seq<Entry>, g: seq<byte>, h: seq<byte>)
    ensures Occurrences(Strip(Filter(es, g), h), h) <= Occurrences(Strip(es, h), h)
    decreases |es|
  {
    if es != [] {
      var e, rest := es[0], es[1..];
      StripFiltered(rest, g, h);
      StripFewer(rest, h);
      FilterFewer(rest, g, h);
      if Digest(e) != g {
        assert Filter(es, g) == [e] + Filter(rest, g) && Filter(es, g)[1..] == Filter(rest, g);
      } else {
        assert Filter(es, g) == [] + Filter(rest, g) == Filter(rest, g);
      }
    }
  }
}
