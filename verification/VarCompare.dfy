/**
 The comparison mock-variables.c sorts by: GUIDs as include/test.h orders them, field by field with the
 first two bytes of Data4 swapped, then names character by character.
 */
module VarCompare {
  import opened Bytes
  import opened SigList
  import opened VarSpec

  function Head(s: seq<nat>): nat { if s == [] then 0 else s[0] }

  /** The first difference of two sequences, where an ended one goes on with zero. */
  function Lex(a: seq<nat>, b: seq<nat>): int {
    if a == [] || b == [] || a[0] != b[0] then Head(a) - Head(b) else Lex(a[1..], b[1..])
  }

  /** A GUID's fields in the order they are compared. */
  function GuidFields(g: Guid): (f: seq<nat>)
    ensures |f| == 11
  {
    [Get(g, 0, 4), Get(g, 4, 2), Get(g, 6, 2), g[9], g[8], g[10], g[11], g[12], g[13], g[14], g[15]]
  }

  function Sign(n: int): int { if n < 0 then -1 else if n > 0 then 1 else 0 }

  /** guidcmp: the sign of the first difference. */
  function CompareGuid(a: Guid, b: Guid): int { Sign(Lex(GuidFields(a), GuidFields(b))) }

  function Codes(s: Name): (c: seq<nat>)
    ensures |c| == |s| && forall k :: 0 <= k < |s| ==> c[k] == s[k] as int && c[k] > 0
  {
    assert forall k :: 0 <= k < |s| ==> s[k] in s;
    seq(|s|, k requires 0 <= k < |s| => s[k] as int)
  }

  function StrCmp(a: Name, b: Name): int { Lex(Codes(a), Codes(b)) }

  /** variable_cmp. */
  function VariableCmp(a: Key, b: Key): int {
    var ret := CompareGuid(a.guid, b.guid) * 256;
    if ret != 0 then ret else StrCmp(a.name, b.name)
  }

  // ---------------------------------------------------------------- it is a total order

  predicate Positive(s: seq<nat>) { forall k :: 0 <= k < |s| ==> s[k] > 0 }

  lemma {:induction false} LexZero(a: seq<nat>, b: seq<nat>)
    requires |a| == |b| || (Positive(a) && Positive(b))
    ensures Lex(a, b) == 0 <==> a == b
  {
    if a != [] && b != [] && a[0] == b[0] {
      LexZero(a[1..], b[1..]);
      assert a == [a[0]] + a[1..] && b == [b[0]] + b[1..];
    }
  }

  lemma {:induction false} LexFlips(a: seq<nat>, b: seq<nat>)
    ensures Lex(a, b) == -Lex(b, a)
  {
    if a != [] && b != [] && a[0] == b[0] { LexFlips(a[1..], b[1..]); }
  }

  lemma {:induction false} LexChains(a: seq<nat>, b: seq<nat>, c: seq<nat>)
    requires Lex(a, b) < 0 && Lex(b, c) < 0
    ensures Lex(a, c) < 0
  {
    if a != [] && b != [] && c != [] && a[0] == b[0] == c[0] { LexChains(a[1..], b[1..], c[1..]); }
  }

  lemma SameBytes(g: Guid, h: Guid, at: nat, w: nat)
    requires at + w <= 16 && Get(g, at, w) == Get(h, at, w)
    ensures g[at..at + w] == h[at..at + w]
  {
    FromToLE(g[at..at + w]);
    FromToLE(h[at..at + w]);
  }

  lemma FieldsTell(g: Guid, h: Guid)
    ensures GuidFields(g) == GuidFields(h) <==> g == h
  {
    hide Get;
    if GuidFields(g) == GuidFields(h) {
      var f, e := GuidFields(g), GuidFields(h);
      assert forall k :: 0 <= k < 11 ==> f[k] == e[k];
      assert f[0] == e[0] && f[1] == e[1] && f[2] == e[2];
      SameBytes(g, h, 0, 4);
      SameBytes(g, h, 4, 2);
      SameBytes(g, h, 6, 2);
      assert f[3] == e[3] && f[4] == e[4] && f[5] == e[5] && f[6] == e[6] && f[7] == e[7];
      assert f[8] == e[8] && f[9] == e[9] && f[10] == e[10];
      assert g[8..] == h[8..];
      assert g == g[0..4] + g[4..6] + g[6..8] + g[8..] && h == h[0..4] + h[4..6] + h[6..8] + h[8..];
    }
  }

  lemma CodesTell(s: Name, t: Name)
    ensures Codes(s) == Codes(t) <==> s == t
  {
    if Codes(s) == Codes(t) {
      var a, b := Codes(s), Codes(t);
      assert |s| == |t|;
      forall k | 0 <= k < |s| ensures s[k] == t[k] { assert a[k] == b[k]; }
    }
  }

  lemma GuidOrder(a: Guid, b: Guid, c: Guid)
    ensures CompareGuid(a, b) == 0 <==> a == b
    ensures CompareGuid(a, b) == -CompareGuid(b, a)
    ensures CompareGuid(a, b) < 0 && CompareGuid(b, c) < 0 ==> CompareGuid(a, c) < 0
  {
    hide Lex, GuidFields;
    LexZero(GuidFields(a), GuidFields(b));
    FieldsTell(a, b);
    LexFlips(GuidFields(a), GuidFields(b));
    if CompareGuid(a, b) < 0 && CompareGuid(b, c) < 0 { LexChains(GuidFields(a), GuidFields(b), GuidFields(c)); }
  }

  lemma NameOrder(a: Name, b: Name, c: Name)
    ensures StrCmp(a, b) == 0 <==> a == b
    ensures StrCmp(a, b) == -StrCmp(b, a)
    ensures StrCmp(a, b) < 0 && StrCmp(b, c) < 0 ==> StrCmp(a, c) < 0
  {
    hide Lex;
    LexZero(Codes(a), Codes(b));
    CodesTell(a, b);
    LexFlips(Codes(a), Codes(b));
    if StrCmp(a, b) < 0 && StrCmp(b, c) < 0 { LexChains(Codes(a), Codes(b), Codes(c)); }
  }

  /** variable_cmp orders variables totally, so it suits every sort policy. */
  lemma VariableCmpOrders(policy: Policy)
    ensures Orders(VariableCmp) && Suits(VariableCmp, policy)
  {
    hide CompareGuid, StrCmp;
    forall a: Key, b: Key ensures VariableCmp(a, b) == 0 <==> a == b {
      GuidOrder(a.guid, b.guid, a.guid);
      NameOrder(a.name, b.name, a.name);
    }
    forall a: Key, b: Key ensures VariableCmp(a, b) < 0 <==> VariableCmp(b, a) > 0 {
      GuidOrder(a.guid, b.guid, a.guid);
      NameOrder(a.name, b.name, a.name);
    }
    forall a: Key, b: Key, c: Key | VariableCmp(a, b) < 0 && VariableCmp(b, c) < 0 ensures VariableCmp(a, c) < 0 {
      GuidOrder(a.guid, b.guid, c.guid);
      GuidOrder(b.guid, c.guid, a.guid);
      GuidOrder(a.guid, c.guid, b.guid);
      NameOrder(a.name, b.name, c.name);
    }
  }

  /**
   The store under the comparison it uses: from the empty list any sequence of calls leaves the plain map's
   contents, unique names and the policy's order.
   */
  lemma RunFromEmpty(calls: seq<Call>, policy: Policy, del: DeletePolicy)
    ensures Ordered(RunSpec([], calls, policy, del, VariableCmp), policy, VariableCmp)
    ensures Contents(RunSpec([], calls, policy, del, VariableCmp)) == RunMap(map[], calls, del)
  {
    hide RunSpec, RunMap, VariableCmp;
    VariableCmpOrders(policy);
    assert Contents([]) == map[];
    RunAgrees([], calls, policy, del, VariableCmp);
  }
}
