/**
 mok.c: the variables handed to the operating system.  mirror_one_mok_variable puts a database together
 from its sources, and import_mok_state packs all of them into one configuration table (include/mok.h).
 Both size their buffer in one pass and fill it in another.
 */
module MokConfig {
  import opened Bytes
  import opened SigList
  import opened HashList
  import opened MokCodec
  import opened MokLookup
  import opened Mirror
  import opened MirrorLaws

  // ---------------------------------------------------------------- one variable

  /** What the build adds in front: nothing, a database, or one certificate. */
  datatype Addend = NoAddend | Database(bytes: seq<byte>) | Certificate(cert: seq<byte>)

  datatype Sources = Sources(keyDb: bool, addend: Addend, buildCert: Option<seq<byte>>, userCerts: seq<byte>, data: seq<byte>)

  /** fill_esl_with_one_signature's size: none if a 32-bit field could not hold it. */
  function EslSize(dataLen: nat): Option<nat> {
    if dataLen > 0xffff_ffff - 17 + 1 || OWNER + dataLen > 0xffff_ffff - LIST_HEADER then None
    else Some(LIST_HEADER + OWNER + dataLen)
  }

  /** A list of one signature that shim owns. */
  function OneSignature(kind: Guid, data: seq<byte>): seq<byte> {
    Header(kind, LIST_HEADER + OWNER + |data|, OWNER + |data|) + (SHIM_LOCK + data)
  }

  function AddendBytes(a: Addend): seq<byte> {
    match a case NoAddend => [] case Database(bytes) => bytes case Certificate(cert) => OneSignature(X509, cert)
  }

  function BuildBytes(c: Option<seq<byte>>): seq<byte> {
    match c case None => [] case Some(cert) => OneSignature(X509, cert)
  }

  /** The whole variable, in order; a database that would be empty holds one hash of zeros. */
  function Composed(s: Sources): seq<byte> {
    if !s.keyDb then s.data
    else
      var all := AddendBytes(s.addend) + (BuildBytes(s.buildCert) + (s.userCerts + s.data));
      if all == [] then OneSignature(SHA256, seq(32, i => 0)) else all
  }

  predicate FieldsFit(s: Sources) {
    s.keyDb ==>
      && (s.addend.Certificate? ==> EslSize(|s.addend.cert|).Some?)
      && (s.buildCert.Some? ==> EslSize(|s.buildCert.value|).Some?)
  }

  /** A source is refused exactly when a certificate's list would not fit its 32-bit size; other variables pass as they are. */
  lemma FitsIff(s: Sources)
    ensures s.keyDb && FieldsFit(s) ==> s.addend.Certificate? ==> |s.addend.cert| + 44 < 0x1_0000_0000
    ensures s.keyDb && FieldsFit(s) ==> s.buildCert.Some? ==> |s.buildCert.value| + 44 < 0x1_0000_0000
    ensures s.keyDb && !FieldsFit(s) ==>
      || (s.addend.Certificate? && |s.addend.cert| + 44 >= 0x1_0000_0000)
      || (s.buildCert.Some? && |s.buildCert.value| + 44 >= 0x1_0000_0000)
    ensures !s.keyDb ==> FieldsFit(s) && Composed(s) == s.data
  {
  }

  method AppendOne(out: array<byte>, at: nat, kind: Guid, data: seq<byte>) returns (next: nat)
    requires at + |OneSignature(kind, data)| <= out.Length
    modifies out
    ensures next == at + |OneSignature(kind, data)| && out[..next] == old(out[..at]) + OneSignature(kind, data)
  {
    hide Header;
    ghost var done := out[..at];
    var header := Header(kind, LIST_HEADER + OWNER + |data|, OWNER + |data|);
    next := Append(out, at, header);
    next := Append(out, next, SHIM_LOCK);
    next := Append(out, next, data);
    Regroup3(done, header, SHIM_LOCK, data);
  }

  /** The sizing pass. */
  method Measure(s: Sources) returns (size: Option<nat>)
    ensures size.Some? <==> FieldsFit(s)
    ensures size.Some? ==> size.value == if s.keyDb then |AddendBytes(s.addend) + (BuildBytes(s.buildCert) + (s.userCerts + s.data))| else |s.data|
  {
    var full := 0;
    if s.keyDb {
      match s.addend {
        case Database(bytes) => full := full + |bytes|;
        case Certificate(cert) =>
          var n := EslSize(|cert|);
          if n.None? { return None; }
          full := full + n.value;
        case NoAddend =>
      }
      if s.buildCert.Some? {
        var n := EslSize(|s.buildCert.value|);
        if n.None? { return None; }
        full := full + n.value;
      }
      full := full + |s.userCerts|;
    }
    if |s.data| > 0 { full := full + |s.data|; }
    return Some(full);
  }

  /** mirror_one_mok_variable up to the mirroring: nothing if a certificate is too large for its list. */
  method Compose(s: Sources) returns (bytes: Option<seq<byte>>)
    ensures bytes.Some? <==> FieldsFit(s)
    ensures bytes.Some? ==> bytes.value == Composed(s)
  {
    hide OneSignature, FieldsFit, AddendBytes, BuildBytes;
    var size := Measure(s);
    if size.None? { return None; }
    var full := size.value;
    if full == |s.data| {
      OnlyData(s);
      if s.keyDb && full == 0 { return Some(OneSignature(SHA256, seq(32, i => 0))); }
      return Some(s.data);
    }
    var out := new byte[full](_ => 0);
    var p := 0;
    ghost var none := out[..0];
    assert none == [];
    p := AppendAddend(out, p, s.addend);
    p := AppendBuild(out, p, s.buildCert);
    p := Append(out, p, s.userCerts);
    p := Append(out, p, s.data);
    FromLeft(none, AddendBytes(s.addend), BuildBytes(s.buildCert), s.userCerts, s.data);
    assert out[..p] == out[..];
    return Some(out[..]);
  }

  method AppendAddend(out: array<byte>, at: nat, addend: Addend) returns (next: nat)
    requires at + |AddendBytes(addend)| <= out.Length
    modifies out
    ensures next == at + |AddendBytes(addend)| && out[..next] == old(out[..at]) + AddendBytes(addend)
  {
    hide OneSignature;
    match addend {
      case Database(bytes) => next := Append(out, at, bytes);
      case Certificate(cert) => next := AppendOne(out, at, X509, cert);
      case NoAddend => next := at;
    }
  }

  method AppendBuild(out: array<byte>, at: nat, cert: Option<seq<byte>>) returns (next: nat)
    requires at + |BuildBytes(cert)| <= out.Length
    modifies out
    ensures next == at + |BuildBytes(cert)| && out[..next] == old(out[..at]) + BuildBytes(cert)
  {
    hide OneSignature;
    next := at;
    if cert.Some? { next := AppendOne(out, at, X509, cert.value); }
  }

  lemma FromLeft(none: seq<byte>, a: seq<byte>, b: seq<byte>, c: seq<byte>, d: seq<byte>)
    requires none == []
    ensures (((none + a) + b) + c) + d == a + (b + (c + d))
  {
  }

  lemma OnlyData(s: Sources)
    requires s.keyDb ==> |AddendBytes(s.addend) + (BuildBytes(s.buildCert) + (s.userCerts + s.data))| == |s.data|
    ensures Composed(s) == if s.keyDb && s.data == [] then OneSignature(SHA256, seq(32, i => 0)) else s.data
  {
    if s.keyDb {
      var a, b := AddendBytes(s.addend), BuildBytes(s.buildCert);
      assert |a| + (|b| + (|s.userCerts| + |s.data|)) == |s.data|;
      assert a == [] && b == [] && s.userCerts == [];
      assert a + (b + (s.userCerts + s.data)) == s.data;
    }
  }

  // ---------------------------------------------------------------- what the variable lists

  lemma SubSlice(a: seq<byte>, whole: seq<byte>, off: nat, from: nat, upto: nat)
    requires off + |a| <= |whole| && whole[off..off + |a|] == a && from <= upto <= |a|
    ensures whole[off + from..off + upto] == a[from..upto]
  {
    var front, mid, back := a[..from], a[from..upto], a[upto..];
    assert a == front + (mid + back);
    AtSplit(whole, off, front, mid + back);
    AtSplit(whole, off + from, mid, back);
  }

  /** Header fields read the same in a longer buffer. */
  lemma FieldsShift(a: seq<byte>, whole: seq<byte>, off: nat, pos: nat)
    requires pos + LIST_HEADER <= |a| && off + |a| <= |whole| && whole[off..off + |a|] == a
    ensures Kind(whole, off + pos) == Kind(a, pos) && ListSize(whole, off + pos) == ListSize(a, pos)
    ensures SigSize(whole, off + pos) == SigSize(a, pos)
  {
    SubSlice(a, whole, off, pos, pos + 16);
    SubSlice(a, whole, off, pos + 16, pos + 20);
    SubSlice(a, whole, off, pos + 24, pos + 28);
  }

  lemma InListShift(a: seq<byte>, whole: seq<byte>, off: nat, list: nat, from: nat, upto: nat)
    requires list + LIST_HEADER <= |a| && off + |a| <= |whole| && whole[off..off + |a|] == a
    requires from <= upto <= |a| && SigSize(a, list) > 0
    ensures SigSize(whole, off + list) > 0 && InList(whole, off + list, off + from, off + upto) == InList(a, list, from, upto)
  {
    hide Get, Entries;
    FieldsShift(a, whole, off, list);
    SubSlice(a, whole, off, from, upto);
  }

  /** A database in front of another one: their lists, in order. */
  lemma {:induction false} ChainAppend(a: seq<byte>, b: seq<byte>, pos: nat)
    requires Chain(a, pos) && Chain(b, 0)
    ensures Chain(a + b, pos) && Signatures(a + b, pos) == Signatures(a, pos) + Signatures(b, 0)
    decreases |a| - pos
  {
    hide Chain, Signatures, ListSize, SigSize, Kind, InList;
    var whole := a + b;
    InsideChain(a, pos);
    ChainStep(a, pos);
    if pos == |a| {
      assert whole[|a|..|a| + |b|] == b;
      ChainShift(b, whole, |a|, 0);
      SignaturesEnd(a);
      assert [] + Signatures(b, 0) == Signatures(b, 0);
    } else {
      assert whole[0..0 + |a|] == a;
      FieldsShift(a, whole, 0, pos);
      var next := pos + ListSize(a, pos);
      ChainAppend(a, b, next);
      InListShift(a, whole, 0, pos, pos + LIST_HEADER, next);
      ChainStep(whole, pos);
      assert (InList(a, pos, pos + LIST_HEADER, next) + Signatures(a, next)) + Signatures(b, 0) ==
             InList(a, pos, pos + LIST_HEADER, next) + (Signatures(a, next) + Signatures(b, 0));
    }
  }

  lemma ChainStep(data: seq<byte>, pos: nat)
    requires pos <= |data|
    ensures Chain(data, pos) <==>
      pos < |data| ==>
        && pos + LIST_HEADER <= |data| && LIST_HEADER <= ListSize(data, pos) <= |data| - pos
        && SigSize(data, pos) > 0 && Chain(data, pos + ListSize(data, pos))
    ensures Chain(data, pos) && pos < |data| ==>
      Signatures(data, pos) ==
        InList(data, pos, pos + LIST_HEADER, pos + ListSize(data, pos)) + Signatures(data, pos + ListSize(data, pos))
  {
    hide InList, Get;
  }

  lemma SignaturesEnd(a: seq<byte>)
    ensures Chain(a, |a|) && Signatures(a, |a|) == []
  {
  }

  /** A database at the end of a buffer. */
  lemma {:induction false} ChainShift(b: seq<byte>, whole: seq<byte>, off: nat, pos: nat)
    requires Chain(b, pos) && off + |b| == |whole| && whole[off..off + |b|] == b
    ensures Chain(whole, off + pos) && Signatures(whole, off + pos) == Signatures(b, pos)
    decreases |b| - pos
  {
    hide Chain, Signatures, ListSize, SigSize, Kind, InList;
    InsideChain(b, pos);
    ChainStep(b, pos);
    if pos < |b| {
      FieldsShift(b, whole, off, pos);
      var next := pos + ListSize(b, pos);
      ChainShift(b, whole, off, next);
      InListShift(b, whole, off, pos, pos + LIST_HEADER, next);
      ChainStep(whole, off + pos);
    } else {
      SignaturesEnd(b);
      SignaturesEnd(whole);
    }
  }

  lemma InsideChain(data: seq<byte>, pos: nat)
    requires Chain(data, pos)
    ensures pos <= |data|
  {
  }

  /** One signature's list. */
  lemma OneSignatureLists(kind: Guid, data: seq<byte>)
    requires EslSize(|data|).Some?
    ensures Chain(OneSignature(kind, data), 0)
    ensures Signatures(OneSignature(kind, data), 0) == [Signature(kind, SHIM_LOCK + data)]
  {
    hide Header, Get, At, Chain, Signatures;
    var v := OneSignature(kind, data);
    var n := LIST_HEADER + OWNER + |data|;
    var header := Header(kind, n, OWNER + |data|);
    VariableStarts(v, header, SHIM_LOCK + data);
    HeaderWords(v, 0, kind, n, OWNER + |data|);
    OneList(v);
    var body: seq<byte> := SHIM_LOCK + data;
    assert v[LIST_HEADER..|v|] == body;
    OneEntryList(body);
  }

  lemma OneEntryList(body: seq<byte>)
    requires |body| > 0
    ensures Entries(body, |body|) == [body]
  {
    assert body[..|body|] == body && body[|body|..] == [];
  }

  /** The signatures each source brings. */
  function AddendLists(a: Addend): seq<Signature>
    requires a.Database? ==> Chain(a.bytes, 0)
  {
    match a
    case NoAddend => []
    case Database(bytes) => Signatures(bytes, 0)
    case Certificate(cert) => [Signature(X509, SHIM_LOCK + cert)]
  }

  function BuildLists(c: Option<seq<byte>>): seq<Signature> {
    match c case None => [] case Some(cert) => [Signature(X509, SHIM_LOCK + cert)]
  }

  /**
   The composed database is well formed and lists exactly what its sources list: the addend's signatures,
   the build certificate, the user certificates and the variable's own, in this order.
   */
  lemma ComposedLists(s: Sources)
    requires s.keyDb && FieldsFit(s) && Chain(s.userCerts, 0) && Chain(s.data, 0)
    requires s.addend.Database? ==> Chain(s.addend.bytes, 0)
    ensures Chain(Composed(s), 0)
    ensures Signatures(Composed(s), 0) ==
      var all := AddendBytes(s.addend) + (BuildBytes(s.buildCert) + (s.userCerts + s.data));
      if all == [] then [Signature(SHA256, SHIM_LOCK + seq(32, i => 0))]
      else AddendLists(s.addend) + (BuildLists(s.buildCert) + (Signatures(s.userCerts, 0) + Signatures(s.data, 0)))
  {
    hide Chain, Signatures, OneSignature;
    var a, b := AddendBytes(s.addend), BuildBytes(s.buildCert);
    OneSignatureLists(SHA256, seq(32, i => 0));
    SignaturesEnd([]);
    if s.addend.Certificate? { OneSignatureLists(X509, s.addend.cert); }
    if s.buildCert.Some? { OneSignatureLists(X509, s.buildCert.value); }
    ChainAppend(s.userCerts, s.data, 0);
    ChainAppend(b, s.userCerts + s.data, 0);
    ChainAppend(a, b + (s.userCerts + s.data), 0);
  }

  // ---------------------------------------------------------------- composed again

  /** What the sources put in front of the variable's own data. */
  function Prefix(s: Sources): seq<byte> { AddendBytes(s.addend) + (BuildBytes(s.buildCert) + s.userCerts) }

  /** What the variable holds behind that: its data, or the stand-in. */
  function OwnData(s: Sources): seq<byte> {
    if Prefix(s) == [] && s.data == [] then OneSignature(SHA256, seq(32, i => 0)) else s.data
  }

  /**
   The database of the second run: the first run leaves the composed variable in place of the data, and
   the second one puts the same sources in front again.
   */
  function ComposedAgain(s: Sources): seq<byte> { Composed(s.(data := Composed(s))) }

  lemma ComposedParts(s: Sources)
    requires s.keyDb
    ensures Composed(s) == Prefix(s) + OwnData(s) && Composed(s) != []
    ensures ComposedAgain(s) == Prefix(s) + Composed(s)
  {
    hide OneSignature;
    OneNotEmpty(SHA256, seq(32, i => 0));
    Sections(s);
    Sections(s.(data := Composed(s)));
  }

  lemma OneNotEmpty(kind: Guid, data: seq<byte>)
    ensures OneSignature(kind, data) != []
  {
  }

  lemma Sections(s: Sources)
    ensures AddendBytes(s.addend) + (BuildBytes(s.buildCert) + (s.userCerts + s.data)) == Prefix(s) + s.data
  {
    var a, b := AddendBytes(s.addend), BuildBytes(s.buildCert);
    Regroup(b, s.userCerts, s.data);
    Regroup(a, b + s.userCerts, s.data);
  }

  /** The two runs see the same database exactly when no source adds anything. */
  lemma SameDatabaseIff(s: Sources)
    requires s.keyDb
    ensures ComposedAgain(s) == Composed(s) <==> Prefix(s) == []
  {
    hide Prefix;
    ComposedParts(s);
    if Prefix(s) == [] { assert [] + Composed(s) == Composed(s); }
  }

  function PrefixLists(s: Sources): seq<Signature>
    requires Chain(s.userCerts, 0) && (s.addend.Database? ==> Chain(s.addend.bytes, 0))
  {
    AddendLists(s.addend) + (BuildLists(s.buildCert) + Signatures(s.userCerts, 0))
  }

  lemma PrefixChain(s: Sources)
    requires FieldsFit(s) && s.keyDb && Chain(s.userCerts, 0) && (s.addend.Database? ==> Chain(s.addend.bytes, 0))
    ensures Chain(Prefix(s), 0) && Signatures(Prefix(s), 0) == PrefixLists(s)
  {
    hide Chain, Signatures, OneSignature;
    var a, b := AddendBytes(s.addend), BuildBytes(s.buildCert);
    SignaturesEnd([]);
    if s.addend.Certificate? { OneSignatureLists(X509, s.addend.cert); }
    if s.buildCert.Some? { OneSignatureLists(X509, s.buildCert.value); }
    ChainAppend(b, s.userCerts, 0);
    ChainAppend(a, b + s.userCerts, 0);
  }

  lemma OwnChain(s: Sources)
    requires Chain(s.data, 0)
    ensures Chain(OwnData(s), 0)
  {
    hide Chain;
    OneSignatureLists(SHA256, seq(32, i => 0));
  }

  /** The second database lists every signature of the sources once more, in front of the first database's. */
  lemma ListedAgain(s: Sources)
    requires s.keyDb && FieldsFit(s) && Chain(s.userCerts, 0) && Chain(s.data, 0)
    requires s.addend.Database? ==> Chain(s.addend.bytes, 0)
    ensures Chain(Composed(s), 0) && Chain(ComposedAgain(s), 0) && Chain(OwnData(s), 0)
    ensures Signatures(Composed(s), 0) == PrefixLists(s) + Signatures(OwnData(s), 0)
    ensures Signatures(ComposedAgain(s), 0) == PrefixLists(s) + (PrefixLists(s) + Signatures(OwnData(s), 0))
  {
    hide Chain, Signatures, OneSignature, Prefix, PrefixLists, OwnData, Composed, ComposedAgain;
    ComposedParts(s);
    PrefixChain(s);
    OwnChain(s);
    ChainAppend(Prefix(s), OwnData(s), 0);
    ChainAppend(Prefix(s), Composed(s), 0);
  }

  // ---------------------------------------------------------------- the configuration table

  const NAME_FIELD := 256
  const ENTRY_HEADER := 264
  const PAGE_SIZE := 4096

  datatype Var = Var(name: seq<byte>, data: seq<byte>)

  /** strncpy into a zeroed field, the last byte kept zero. */
  function NameField(name: seq<byte>): (f: seq<byte>)
    ensures |f| == NAME_FIELD
  {
    var n := if |name| < 255 then |name| else 255;
    name[..n] + seq(NAME_FIELD - n, i => 0)
  }

  function EntryBytes(v: Var): (e: seq<byte>)
    ensures |e| == ENTRY_HEADER + |v.data|
  {
    NameField(v.name) + (ToLE(|v.data|, 8) + v.data)
  }

  function Zeros(n: nat): (z: seq<byte>) { seq(n, i => 0) }

  /** The entries of the variables that hold anything. */
  function Packed(vars: seq<Var>): seq<byte> {
    if vars == [] then []
    else
      var v := vars[|vars| - 1];
      Packed(vars[..|vars| - 1]) + if v.data == [] then [] else EntryBytes(v)
  }

  /** Size of the allocation: whole pages behind a terminating entry, or nothing. */
  function TableSize(vars: seq<Var>): nat {
    if Packed(vars) == [] then 0 else AlignValue(|Packed(vars)| + ENTRY_HEADER, PAGE_SIZE)
  }

  lemma PackedStep(vars: seq<Var>, i: nat)
    requires i < |vars|
    ensures Packed(vars[..i + 1]) == Packed(vars[..i]) + if vars[i].data == [] then [] else EntryBytes(vars[i])
  {
    assert vars[..i + 1][..i] == vars[..i];
  }

  lemma {:induction false} PackedSoFar(vars: seq<Var>, i: nat)
    requires i <= |vars|
    ensures |Packed(vars[..i])| <= |Packed(vars)|
    decreases |vars| - i
  {
    if i < |vars| {
      PackedStep(vars, i);
      PackedSoFar(vars, i + 1);
    } else {
      assert vars[..i] == vars;
    }
  }

  /** Bytes of the entries: 264 and the contents for each variable that holds anything. */
  function EntriesSize(vars: seq<Var>): nat {
    if vars == [] then 0 else (if vars[0].data == [] then 0 else 264 + |vars[0].data|) + EntriesSize(vars[1..])
  }

  lemma {:induction false} PackedSize(vars: seq<Var>)
    ensures |Packed(vars)| == EntriesSize(vars)
  {
    hide EntryBytes, Packed;
    PackedNone();
    if vars != [] {
      PackedFront(vars);
      PackedSize(vars[1..]);
    }
  }

  /** The table is whole pages, the fewest that leave room for one more entry header. */
  lemma TablePages(vars: seq<Var>)
    ensures EntriesSize(vars) == 0 ==> TableSize(vars) == 0
    ensures EntriesSize(vars) > 0 ==>
      TableSize(vars) % 4096 == 0 && EntriesSize(vars) + 264 <= TableSize(vars) < EntriesSize(vars) + 264 + 4096
  {
    hide Packed, EntriesSize, BitAnd;
    PackedSize(vars);
    Pow2Of12();
    AlignRoundsUp(|Packed(vars)| + ENTRY_HEADER, 12);
  }

  lemma Pow2Of12()
    ensures Pow2(12) == 4096
  {
    assert Pow2(4) == 16 && Pow2(8) == 256;
  }

  /** The two loops of import_mok_state and the terminating entry; none when no variable holds anything. */
  method BuildTable(vars: seq<Var>) returns (table: array?<byte>)
    ensures table == null <==> Packed(vars) == []
    ensures table != null ==>
      && |Packed(vars)| + ENTRY_HEADER <= table.Length == TableSize(vars)
      && table[..] == Packed(vars) + Zeros(table.Length - |Packed(vars)|)
  {
    hide Packed, EntryBytes, NameField, ToLE;
    var size, i := 0, 0;
    assert vars[..0] == [] && vars[..|vars|] == vars;
    PackedNone();
    while i < |vars|
      invariant i <= |vars|
      invariant size == |Packed(vars[..i])|
    {
      PackedStep(vars, i);
      if |vars[i].data| > 0 { size := size + |vars[i].data| + ENTRY_HEADER; }
      i := i + 1;
    }
    if size == 0 { return null; }
    size := size + ENTRY_HEADER;
    table := new byte[AlignValue(size, PAGE_SIZE)](_ => 0);
    var p := 0;
    i := 0;
    while i < |vars|
      invariant i <= |vars| && p == |Packed(vars[..i])| <= |Packed(vars)| && table[..p] == Packed(vars[..i])
      invariant forall k :: p <= k < table.Length ==> table[k] == 0
    {
      PackedStep(vars, i);
      PackedSoFar(vars, i + 1);
      if |vars[i].data| > 0 {
        var name, len := NameField(vars[i].name), ToLE(|vars[i].data|, 8);
        EntryIs(vars[i]);
        ghost var done := table[..p];
        p := Append(table, p, name + len);
        p := Append(table, p, vars[i].data);
        Regroup(done, name + len, vars[i].data);
        Regroup(name, len, vars[i].data);
      }
      i := i + 1;
    }
    assert table[..] == table[..p] + Zeros(table.Length - p);
  }

  lemma PackedNone()
    ensures Packed([]) == []
  {
  }

  lemma EntryIs(v: Var)
    ensures EntryBytes(v) == NameField(v.name) + (ToLE(|v.data|, 8) + v.data)
  {
  }

  /** Reading the table: entries until one whose name and size are all zero. */
  function Walk(table: seq<byte>, p: nat): (vars: Option<seq<Var>>)
    decreases |table| - p
  {
    if p + ENTRY_HEADER > |table| then None
    else
      var name, size := table[p..p + NAME_FIELD], Get(table, p + NAME_FIELD, 8);
      if name == Zeros(NAME_FIELD) && size == 0 then Some([])
      else if p + ENTRY_HEADER + size > |table| then None
      else
        match Walk(table, p + ENTRY_HEADER + size)
        case None => None
        case Some(rest) => Some([Var(name, table[p + ENTRY_HEADER..p + ENTRY_HEADER + size])] + rest)
  }

  /** The variables a reader should find. */
  function Listed(vars: seq<Var>): seq<Var> {
    if vars == [] then []
    else (if vars[0].data == [] then [] else [Var(NameField(vars[0].name), vars[0].data)]) + Listed(vars[1..])
  }

  lemma {:induction false} PackedFront(vars: seq<Var>)
    requires vars != []
    ensures Packed(vars) == (if vars[0].data == [] then [] else EntryBytes(vars[0])) + Packed(vars[1..])
    decreases |vars|
  {
    hide EntryBytes;
    var n := |vars|;
    if n == 1 {
      assert vars[..0] == [] && vars[1..] == [];
    } else {
      assert vars[..n - 1][0] == vars[0];
      PackedFront(vars[..n - 1]);
      assert vars[..n - 1][1..] == vars[1..][..n - 2] && vars[1..][n - 2] == vars[n - 1];
      Regroup(if vars[0].data == [] then [] else EntryBytes(vars[0]), Packed(vars[1..][..n - 2]),
              if vars[n - 1].data == [] then [] else EntryBytes(vars[n - 1]));
    }
  }

  /** Walking the table finds exactly the nonempty variables, in order, and stops at the terminator. */
  lemma {:induction false} WalkFindsAll(table: seq<byte>, p: nat, vars: seq<Var>)
    requires forall i :: 0 <= i < |vars| ==> |vars[i].data| < Pow256(8)
    requires At(table, p, Packed(vars)) && At(table, p + |Packed(vars)|, Zeros(ENTRY_HEADER))
    ensures Walk(table, p) == Some(Listed(vars))
    decreases |vars|
  {
    hide At, EntryBytes, NameField, Get, ToLE, Walk, Packed, Zeros, Pow256;
    PackedNone();
    if vars == [] {
      WalkStops(table, p);
    } else {
      var v, rest := vars[0], vars[1..];
      assert forall i :: 0 <= i < |rest| ==> rest[i] == vars[i + 1];
      PackedFront(vars);
      if v.data == [] {
        assert [] + Packed(rest) == Packed(rest) && [] + Listed(rest) == Listed(rest);
        WalkFindsAll(table, p, rest);
      } else {
        AtSplit(table, p, EntryBytes(v), Packed(rest));
        WalkFindsAll(table, p + |EntryBytes(v)|, rest);
        WalkEntry(table, p, v);
      }
    }
  }

  /** The table that is installed reads back as the variables it was made from. */
  lemma TableReadsBack(vars: seq<Var>, slack: nat)
    requires slack >= ENTRY_HEADER && forall i :: 0 <= i < |vars| ==> |vars[i].data| < Pow256(8)
    ensures Walk(Packed(vars) + Zeros(slack), 0) == Some(Listed(vars))
  {
    hide Packed, Walk, Listed, Pow256;
    var table := Packed(vars) + Zeros(slack);
    assert table[0..0 + |Packed(vars)|] == Packed(vars);
    assert table[|Packed(vars)|..|Packed(vars)| + ENTRY_HEADER] == Zeros(ENTRY_HEADER);
    WalkFindsAll(table, 0, vars);
  }

  /** The C string in a field: the bytes in front of its first zero. */
  function CText(field: seq<byte>): seq<byte> {
    if field == [] || field[0] == 0 then [] else [field[0]] + CText(field[1..])
  }

  function NonEmpty(vars: seq<Var>): seq<Var> {
    if vars == [] then [] else (if vars[0].data == [] then [] else [vars[0]]) + NonEmpty(vars[1..])
  }

  /** The same contents, and the name as a C string of at most 255 bytes. */
  predicate SameVar(read: Var, v: Var) {
    read.data == v.data && CText(read.name) == if |v.name| <= 255 then v.name else v.name[..255]
  }

  /** The same variables, in order. */
  predicate SameVars(read: seq<Var>, vars: seq<Var>) {
    && |read| == |vars|
    && forall i :: 0 <= i < |vars| ==> SameVar(read[i], vars[i])
  }

  lemma {:induction false} CTextOf(text: seq<byte>, rest: seq<byte>)
    requires 0 !in text && rest != [] && rest[0] == 0
    ensures CText(text + rest) == text
  {
    if text == [] {
      assert text + rest == rest;
    } else {
      CTextOf(text[1..], rest);
      assert (text + rest)[1..] == text[1..] + rest && text == [text[0]] + text[1..];
    }
  }

  lemma {:induction false} ListedNames(vars: seq<Var>)
    requires forall i :: 0 <= i < |vars| ==> 0 !in vars[i].name
    ensures SameVars(Listed(vars), NonEmpty(vars))
  {
    if vars != [] {
      var name, rest := vars[0].name, vars[1..];
      assert forall i :: 0 <= i < |rest| ==> rest[i] == vars[i + 1];
      ListedNames(rest);
      var n := if |name| < 255 then |name| else 255;
      CTextOf(name[..n], seq(NAME_FIELD - n, i => 0));
      if vars[0].data == [] {
        assert Listed(vars) == Listed(rest) && NonEmpty(vars) == NonEmpty(rest);
      } else {
        SameCons(Var(NameField(name), vars[0].data), vars[0], Listed(rest), NonEmpty(rest));
      }
    }
  }

  lemma SameCons(a: Var, b: Var, read: seq<Var>, vars: seq<Var>)
    requires SameVars(read, vars) && SameVar(a, b)
    ensures SameVars([a] + read, [b] + vars)
  {
    hide SameVar;
    var r, v := [a] + read, [b] + vars;
    forall i | 0 <= i < |v| ensures SameVar(r[i], v[i]) {
      if i > 0 { assert r[i] == read[i - 1] && v[i] == vars[i - 1]; }
    }
  }

  /** A reader of the table finds the variables' own names, cut to the field, and their contents. */
  lemma TableReadsNames(vars: seq<Var>, slack: nat)
    requires slack >= ENTRY_HEADER
    requires forall i :: 0 <= i < |vars| ==> |vars[i].data| < Pow256(8) && 0 !in vars[i].name
    ensures Walk(Packed(vars) + Zeros(slack), 0).Some?
    ensures SameVars(Walk(Packed(vars) + Zeros(slack), 0).value, NonEmpty(vars))
  {
    hide Packed, Walk, Listed, Pow256, NonEmpty, SameVars;
    TableReadsBack(vars, slack);
    ListedNames(vars);
  }

  lemma WalkStops(table: seq<byte>, p: nat)
    requires At(table, p, Zeros(ENTRY_HEADER))
    ensures Walk(table, p) == Some([])
  {
    hide ToLE, FromLE;
    AtBound(table, p, Zeros(ENTRY_HEADER));
    var z := table[p..p + ENTRY_HEADER];
    assert table[p..p + NAME_FIELD] == z[..NAME_FIELD] == Zeros(NAME_FIELD);
    assert table[p + NAME_FIELD..p + ENTRY_HEADER] == z[NAME_FIELD..] == Zeros(8);
    ZerosAreZero(8);
  }

  lemma {:induction false} ZerosAreZero(n: nat)
    ensures FromLE(Zeros(n)) == 0
  {
    if n > 0 {
      assert Zeros(n)[1..] == Zeros(n - 1);
      ZerosAreZero(n - 1);
    }
  }

  lemma WalkEntry(table: seq<byte>, p: nat, v: Var)
    requires At(table, p, EntryBytes(v)) && v.data != [] && |v.data| < Pow256(8)
    ensures p + |EntryBytes(v)| <= |table| && Walk(table, p) ==
      match Walk(table, p + |EntryBytes(v)|)
      case None => None
      case Some(rest) => Some([Var(NameField(v.name), v.data)] + rest)
  {
    hide At, NameField, Get, ToLE, Pow256, Zeros;
    EntryIs(v);
    AtBound(table, p, EntryBytes(v));
    AtSplit(table, p, NameField(v.name), ToLE(|v.data|, 8) + v.data);
    AtSplit(table, p + NAME_FIELD, ToLE(|v.data|, 8), v.data);
    AtBound(table, p, NameField(v.name));
    AtBound(table, p + ENTRY_HEADER, v.data);
    ReadWord(table, p + NAME_FIELD, |v.data|, 8);
  }
}
