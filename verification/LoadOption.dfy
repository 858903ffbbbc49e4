/** load-options.c: finding the optional data of an EFI_LOAD_OPTION (section 3.1.3 of the UEFI specification). */
module LoadOption {
  import opened Bytes

  const FIXED := 6

  /** Where the optional data is, if any; `PastEnd` is a walk that has left the buffer. */
  datatype Outcome = Data(offset: nat, size: nat) | NoData | Invalid | PastEnd

  // ---------------------------------------------------------------- the two loops as functions

  /** The description's loop from an even offset: where it ends behind its terminator. */
  function DescriptionEnd(data: seq<byte>, i: nat, limit: nat): (r: Option<nat>)
    requires FIXED + limit <= |data|
    ensures r.Some? ==> i + 2 <= r.value <= limit
    decreases limit - i
  {
    if i >= limit then None
    else if data[FIXED + i] == 0 then
      if i + 1 < limit && data[FIXED + i + 1] == 0 then Some(i + 2) else None
    else if i + 1 < limit && data[FIXED + i + 1] == 0 then DescriptionEnd(data, i + 2, limit)
    else None
  }

  datatype Walked = Stopped(at: nat) | Bad | Left

  function NodeLen(data: seq<byte>, at: nat): nat
    requires at + 4 <= |data|
  {
    var high: nat, low: nat := data[at + 3], data[at + 2];
    high * 256 + low
  }

  predicate IsEnd(data: seq<byte>, at: nat)
    requires at + 4 <= |data|
  {
    data[at] == 0x7f && data[at + 1] == 0xff
  }

  /** The device path's loop: node lengths are compared with the whole limit, not with what is left. */
  function Walk(data: seq<byte>, base: nat, i: nat): (w: Walked)
    requires base <= |data|
    ensures w.Stopped? ==> i <= w.at && base + w.at <= |data|
    decreases |data| - base - i
  {
    if base + i > |data| then Left
    else if base + i + 4 > |data| then Stopped(i)
    else
      var len := NodeLen(data, base + i);
      if len < 4 || len > |data| - base then Bad
      else if IsEnd(data, base + i) then if len == 4 then Stopped(i + 4) else Bad
      else Walk(data, base, i + len)
  }

  function PathSize(data: seq<byte>): nat
    requires FIXED <= |data|
  {
    Get(data, 4, 2)
  }

  function Parse(data: seq<byte>): (r: Outcome)
    ensures r.Data? ==> r.offset + r.size == |data|
  {
    if |data| < 12 || PathSize(data) > |data| - 10 then Invalid
    else
      var limit := |data| - FIXED - PathSize(data);
      match DescriptionEnd(data, 0, limit)
      case None => Invalid
      case Some(i) =>
        if i == limit then NoData
        else
          match Walk(data, FIXED + i, 0)
          case Bad => Invalid
          case Left => PastEnd
          case Stopped(at) => if at != PathSize(data) then Invalid else Data(FIXED + i + at, |data| - FIXED - i - at)
  }

  /** get_load_option_optional_data. */
  method GetLoadOptionOptionalData(data: seq<byte>) returns (r: Outcome)
    ensures r == Parse(data)
  {
    hide DescriptionEnd, Walk, Get, NodeLen, IsEnd;
    if |data| < 12 { return Invalid; }
    var fplistlen := PathSize(data);
    if fplistlen > |data| - 10 { return Invalid; }
    var cur := FIXED;
    var limit: nat := |data| - cur - fplistlen;
    var i := SkipDescription(data, limit);
    if i > limit { return Invalid; }
    if i == limit { return NoData; }
    cur := cur + i;
    i := 0;
    limit := |data| - cur;
    while true
      invariant Walk(data, cur, 0) == Walk(data, cur, i)
      decreases |data| - cur - i
    {
      if i > limit {
        WalkLeft(data, cur, i);
        return PastEnd;
      }
      WalkStep(data, cur, i);
      if limit - i < 4 { break; }
      var len := NodeLen(data, cur + i);
      if len < 4 || len > limit { return Invalid; }
      if IsEnd(data, cur + i) {
        if len != 4 { return Invalid; }
        i := i + len;
        assert Walk(data, cur, 0) == Stopped(i);
        break;
      }
      i := i + len;
    }
    if i != fplistlen { return Invalid; }
    return Data(cur + i, limit - i);
  }

  /** The description's loop; more than the limit means it was not one. */
  method SkipDescription(data: seq<byte>, limit: nat) returns (i: nat)
    requires FIXED + limit <= |data|
    ensures if DescriptionEnd(data, 0, limit).Some? then i == DescriptionEnd(data, 0, limit).value else i > limit
  {
    hide DescriptionEnd;
    i := 0;
    while i < limit
      invariant i <= limit + 1
      invariant i % 2 == 0 ==> DescriptionEnd(data, 0, limit) == DescriptionEnd(data, i, limit)
      invariant i % 2 == 1 ==>
        && 0 < i <= limit && data[FIXED + i - 1] != 0
        && DescriptionEnd(data, 0, limit) == DescriptionEnd(data, i - 1, limit)
      decreases limit - i
    {
      DescriptionStep(data, if i % 2 == 0 then i else i - 1, limit);
      if i % 2 != 0 {
        if data[FIXED + i] != 0 { return limit + 1; }
      } else if data[FIXED + i] == 0 {
        i := i + 1;
        if i >= limit || data[FIXED + i] != 0 { return limit + 1; }
        return i + 1;
      }
      i := i + 1;
    }
    DescriptionStep(data, if i % 2 == 0 then i else i - 1, limit);
    i := i + 1;
  }

  lemma DescriptionStep(data: seq<byte>, i: nat, limit: nat)
    requires FIXED + limit <= |data|
    ensures DescriptionEnd(data, i, limit) ==
      if i >= limit then None
      else if data[FIXED + i] == 0 then
        if i + 1 < limit && data[FIXED + i + 1] == 0 then Some(i + 2) else None
      else if i + 1 < limit && data[FIXED + i + 1] == 0 then DescriptionEnd(data, i + 2, limit)
      else None
  {
  }

  lemma WalkLeft(data: seq<byte>, base: nat, i: nat)
    requires base <= |data| < base + i
    ensures Walk(data, base, i) == Left
  {
  }

  // ---------------------------------------------------------------- what an option looks like

  datatype Node = Node(kind: byte, subkind: byte, payload: seq<byte>)

  predicate NodeOk(n: Node) { |n.payload| + 4 < 0x1_0000 && !(n.kind == 0x7f && n.subkind == 0xff) }

  function NodeBytes(n: Node): seq<byte> { [n.kind, n.subkind] + ToLE(|n.payload| + 4, 2) + n.payload }

  function PathBytes(nodes: seq<Node>): seq<byte> {
    if nodes == [] then [] else NodeBytes(nodes[0]) + PathBytes(nodes[1..])
  }

  const END: seq<byte> := [0x7f, 0xff, 4, 0]

  /** One-byte-range text as UCS-2. */
  function Wide(text: seq<byte>): (w: seq<byte>)
    ensures |w| == 2 * |text|
  {
    if text == [] then [] else [text[0], 0] + Wide(text[1..])
  }

  function Print(attrs: seq<byte>, text: seq<byte>, path: seq<byte>, optional: seq<byte>): seq<byte> {
    attrs + (ToLE(|path|, 2) + (Wide(text) + ([0, 0] + (path + optional))))
  }

  predicate TextOk(text: seq<byte>) { forall k :: 0 <= k < |text| ==> text[k] != 0 }

  // ---------------------------------------------------------------- the description

  lemma {:induction false} DescriptionPrinted(data: seq<byte>, i: nat, limit: nat, text: seq<byte>)
    requires TextOk(text) && At(data, FIXED + i, Wide(text) + [0, 0]) && FIXED + limit <= |data|
    requires i + 2 * |text| + 2 <= limit
    ensures DescriptionEnd(data, i, limit) == Some(i + 2 * |text| + 2)
    decreases |text|
  {
    AtBound(data, FIXED + i, Wide(text) + [0, 0]);
    if text == [] {
      assert Wide(text) + [0, 0] == [0, 0];
    } else {
      assert Wide(text) + [0, 0] == [text[0], 0] + (Wide(text[1..]) + [0, 0]);
      AtSplit(data, FIXED + i, [text[0], 0], Wide(text[1..]) + [0, 0]);
      DescriptionPrinted(data, i + 2, limit, text[1..]);
    }
  }

  lemma {:induction false} DescriptionRead(data: seq<byte>, i: nat, limit: nat) returns (text: seq<byte>)
    requires FIXED + limit <= |data| && DescriptionEnd(data, i, limit).Some?
    ensures TextOk(text) && DescriptionEnd(data, i, limit) == Some(i + 2 * |text| + 2)
    ensures data[FIXED + i..FIXED + i + 2 * |text| + 2] == Wide(text) + [0, 0]
    decreases limit - i
  {
    if data[FIXED + i] == 0 {
      text := [];
    } else {
      var rest := DescriptionRead(data, i + 2, limit);
      text := [data[FIXED + i]] + rest;
      assert text[1..] == rest;
      assert data[FIXED + i..FIXED + i + 2 * |text| + 2] == data[FIXED + i..FIXED + i + 2] + data[FIXED + i + 2..FIXED + i + 2 + 2 * |rest| + 2];
    }
  }

  // ---------------------------------------------------------------- the device path

  lemma NodeRead(data: seq<byte>, at: nat, n: Node)
    requires NodeOk(n) && At(data, at, NodeBytes(n))
    ensures at + 4 + |n.payload| <= |data| && NodeLen(data, at) == 4 + |n.payload| && !IsEnd(data, at)
  {
    AtBound(data, at, NodeBytes(n));
    LengthBytes(|n.payload| + 4);
  }

  lemma LengthBytes(v: nat)
    requires v < 0x1_0000
    ensures ToLE(v, 2) == [v % 256, v / 256]
  {
    assert ToLE(v, 2) == [v % 256] + ToLE(v / 256, 1);
    assert ToLE(v / 256, 1) == [v / 256 % 256] + ToLE(v / 256 / 256, 0);
  }

  /** The walk over whole nodes goes on behind them. */
  lemma {:induction false} WalkNodes(data: seq<byte>, base: nat, i: nat, nodes: seq<Node>)
    requires At(data, base + i, PathBytes(nodes)) && base <= |data|
    requires forall k :: 0 <= k < |nodes| ==> NodeOk(nodes[k])
    ensures Walk(data, base, i) == Walk(data, base, i + |PathBytes(nodes)|)
    decreases |nodes|
  {
    hide NodeBytes, At, NodeOk, NodeLen, IsEnd;
    if nodes != [] {
      var n, rest := nodes[0], nodes[1..];
      AtSplit(data, base + i, NodeBytes(n), PathBytes(rest));
      NodeRead(data, base + i, n);
      NodeSize(n);
      WalkNodes(data, base, i + 4 + |n.payload|, rest);
    }
  }

  lemma NodeSize(n: Node)
    ensures |NodeBytes(n)| == 4 + |n.payload|
  {
  }

  lemma WalkEnd(data: seq<byte>, base: nat, i: nat)
    requires At(data, base + i, END)
    ensures base <= |data| && Walk(data, base, i) == Stopped(i + 4)
  {
    AtBound(data, base + i, END);
  }

  function Ending(ended: bool): seq<byte> { if ended then END else [] }

  /** What a completed walk went over: whole nodes, then the end node unless fewer than four bytes were left. */
  lemma {:induction false} WalkRead(data: seq<byte>, base: nat, i: nat) returns (nodes: seq<Node>, ended: bool)
    requires base + i <= |data| && Walk(data, base, i).Stopped?
    ensures forall k :: 0 <= k < |nodes| ==> NodeOk(nodes[k])
    ensures Walk(data, base, i).at == i + |PathBytes(nodes) + Ending(ended)|
    ensures At(data, base + i, PathBytes(nodes) + Ending(ended))
    ensures !ended ==> |data| - base - Walk(data, base, i).at < 4
    decreases |data| - base - i
  {
    hide Walk, At, NodeBytes, NodeOk, NodeLen, IsEnd, Ending, PathBytes;
    WalkStep(data, base, i);
    NoNodes();
    if base + i + 4 > |data| {
      nodes, ended := [], false;
      AtNothing(data, base + i);
    } else if IsEnd(data, base + i) {
      nodes, ended := [], true;
      AtEnd(data, base + i);
    } else {
      var len := NodeLen(data, base + i);
      StoppedInside(data, base, i + len);
      var rest;
      rest, ended := WalkRead(data, base, i + len);
      var n := Node(data[base + i], data[base + i + 1], data[base + i + 4..base + i + len]);
      NodeWritten(data, base + i, len, n);
      nodes := [n] + rest;
      AtJoin(data, base + i, NodeBytes(n), PathBytes(rest) + Ending(ended));
      PathCons(n, rest, Ending(ended));
    }
  }

  lemma PathCons(n: Node, rest: seq<Node>, end: seq<byte>)
    ensures PathBytes([n] + rest) + end == NodeBytes(n) + (PathBytes(rest) + end)
  {
    hide NodeBytes;
    assert ([n] + rest)[1..] == rest;
  }

  lemma NoNodes()
    ensures PathBytes([]) == [] && Ending(true) == END && Ending(false) == [] && [] + END == END && |END| == 4
  {
  }

  lemma WalkStep(data: seq<byte>, base: nat, i: nat)
    requires base + i <= |data|
    ensures Walk(data, base, i) ==
      if base + i + 4 > |data| then Stopped(i)
      else if NodeLen(data, base + i) < 4 || NodeLen(data, base + i) > |data| - base then Bad
      else if IsEnd(data, base + i) then if NodeLen(data, base + i) == 4 then Stopped(i + 4) else Bad
      else Walk(data, base, i + NodeLen(data, base + i))
    ensures base + i + 4 <= |data| && IsEnd(data, base + i) && NodeLen(data, base + i) == 4 ==> data[base + i..base + i + 4] == END
  {
  }

  lemma AtNothing(data: seq<byte>, off: nat)
    requires off <= |data|
    ensures At(data, off, []) && At(data, off, [] + [])
  {
    var none: seq<byte> := [];
    assert none + none == none;
  }

  lemma AtEnd(data: seq<byte>, off: nat)
    requires off + 4 <= |data| && data[off..off + 4] == END
    ensures At(data, off, END) && At(data, off, [] + END)
  {
    assert [] + END == END;
  }

  lemma AtJoin(b: seq<byte>, off: nat, s: seq<byte>, t: seq<byte>)
    requires At(b, off, s) && At(b, off + |s|, t)
    ensures At(b, off, s + t)
  {
  }

  lemma StoppedInside(data: seq<byte>, base: nat, i: nat)
    requires base <= |data| && Walk(data, base, i).Stopped?
    ensures base + i <= |data|
  {
  }

  lemma NodeWritten(data: seq<byte>, at: nat, len: nat, n: Node)
    requires at + 4 <= |data| && len == NodeLen(data, at) && 4 <= len && at + len <= |data| && !IsEnd(data, at)
    requires n == Node(data[at], data[at + 1], data[at + 4..at + len])
    ensures NodeOk(n) && At(data, at, NodeBytes(n)) && |NodeBytes(n)| == len
  {
    LengthBytes(len);
    var high: nat, low: nat := data[at + 3], data[at + 2];
    ModUnique(len, 256, high, low);
    assert ToLE(len, 2) == [data[at + 2], data[at + 3]];
    assert NodeBytes(n) == data[at..at + len];
  }

  // ---------------------------------------------------------------- the whole option

  lemma PrintLength(attrs: seq<byte>, text: seq<byte>, path: seq<byte>, optional: seq<byte>)
    requires |attrs| == 4
    ensures |Print(attrs, text, path, optional)| == 4 + 2 + (2 * |text| + 2) + |path| + |optional|
  {
  }

  /** The fields of a printed option, in place. */
  lemma Fields(attrs: seq<byte>, text: seq<byte>, path: seq<byte>, optional: seq<byte>)
    requires |attrs| == 4 && |path| < 0x1_0000
    ensures
      var data := Print(attrs, text, path, optional);
      var at := FIXED + 2 * |text| + 2;
      && |data| == at + |path| + |optional| && PathSize(data) == |path|
      && At(data, FIXED, Wide(text) + [0, 0]) && At(data, at, path) && At(data, at + |path|, optional)
  {
    hide ToLE, Get, Wide, At;
    var data := Print(attrs, text, path, optional);
    PrintLength(attrs, text, path, optional);
    var rest := [0, 0] + (path + optional);
    AtWhole(data);
    AtSplit(data, 0, attrs, ToLE(|path|, 2) + (Wide(text) + rest));
    AtSplit(data, 4, ToLE(|path|, 2), Wide(text) + rest);
    AtSplit(data, FIXED, Wide(text), rest);
    AtSplit(data, FIXED + 2 * |text|, [0, 0], path + optional);
    AtJoin(data, FIXED, Wide(text), [0, 0]);
    AtSplit(data, FIXED + 2 * |text| + 2, path, optional);
    Powers();
    ReadWord(data, 4, |path|, 2);
  }

  lemma AtWhole(data: seq<byte>)
    ensures At(data, 0, data)
  {
  }

  predicate NodesOk(nodes: seq<Node>) { forall k :: 0 <= k < |nodes| ==> NodeOk(nodes[k]) }

  function Path(nodes: seq<Node>, ended: bool): seq<byte> { PathBytes(nodes) + Ending(ended) }

  lemma WalkPath(data: seq<byte>, base: nat, nodes: seq<Node>, ended: bool)
    requires NodesOk(nodes) && At(data, base, Path(nodes, ended))
    requires ended || |data| - base - |Path(nodes, ended)| < 4
    ensures base <= |data| && Walk(data, base, 0) == Stopped(|Path(nodes, ended)|)
  {
    hide PathBytes, At;
    AtBound(data, base, Path(nodes, ended));
    AtSplit(data, base, PathBytes(nodes), Ending(ended));
    WalkNodes(data, base, 0, nodes);
    if ended { WalkEnd(data, base, |PathBytes(nodes)|); }
  }

  /**
   A printed option: the parser returns exactly the optional data.  It wants two bytes more than an empty
   description takes, and it takes a path without an end node when too little follows to hold one.
   */
  lemma ParsePrinted(attrs: seq<byte>, text: seq<byte>, nodes: seq<Node>, ended: bool, optional: seq<byte>)
    requires |attrs| == 4 && TextOk(text) && NodesOk(nodes) && |Path(nodes, ended)| < 0x1_0000
    requires ended || 0 < |optional| < 4
    ensures
      var data := Print(attrs, text, Path(nodes, ended), optional);
      Parse(data) ==
        if |data| < 12 || (text == [] && |optional| < 2) then Invalid
        else if optional == [] then NoData
        else Data(|data| - |optional|, |optional|)
    ensures ended ==> |Print(attrs, text, Path(nodes, ended), optional)| >= 12
  {
    hide Path, Print, DescriptionEnd, Walk, Get, Wide, At;
    var path := Path(nodes, ended);
    var data := Print(attrs, text, path, optional);
    Fields(attrs, text, path, optional);
    if ended { EndedLong(nodes); }
    var limit := |data| - FIXED - |path|;
    DescriptionPrinted(data, 0, limit, text);
    WalkPath(data, FIXED + 2 * |text| + 2, nodes, ended);
  }

  lemma EndedLong(nodes: seq<Node>)
    ensures |Path(nodes, true)| >= 4
  {
  }

  /** Whatever the parser takes apart was printed: the optional data is what follows description and path. */
  lemma ParsedShape(data: seq<byte>)
    returns (attrs: seq<byte>, text: seq<byte>, nodes: seq<Node>, ended: bool, optional: seq<byte>)
    requires Parse(data).Data?
    ensures |attrs| == 4 && TextOk(text) && NodesOk(nodes) && |Path(nodes, ended)| < 0x1_0000
    ensures data == Print(attrs, text, Path(nodes, ended), optional)
    ensures optional == data[Parse(data).offset..] && optional != [] && (ended || |optional| < 4)
  {
    hide Walk, DescriptionEnd, PathBytes, Get, At, Wide;
    var fplistlen := PathSize(data);
    Powers();
    FromLEBound(data[4..6]);
    PathSizeIs(data);
    var limit := |data| - FIXED - fplistlen;
    attrs := data[..4];
    text := DescriptionRead(data, 0, limit);
    var base := FIXED + 2 * |text| + 2;
    nodes, ended := WalkRead(data, base, 0);
    AtBound(data, base, PathBytes(nodes) + Ending(ended));
    optional := data[Parse(data).offset..];
    PiecesJoin(data, attrs, fplistlen, text, Path(nodes, ended), optional);
  }

  lemma PathSizeIs(data: seq<byte>)
    requires |data| >= 6
    ensures PathSize(data) == FromLE(data[4..6]) && (PathSize(data) < 0x1_0000 ==> ToLE(PathSize(data), 2) == data[4..6])
  {
    FromToLE(data[4..6]);
  }

  lemma PiecesJoin(data: seq<byte>, attrs: seq<byte>, size: nat, text: seq<byte>, path: seq<byte>, optional: seq<byte>)
    requires |data| >= 6 && attrs == data[..4] && size == |path| && ToLE(size, 2) == data[4..6]
    requires FIXED + 2 * |text| + 2 + |path| <= |data|
    requires data[FIXED..FIXED + 2 * |text| + 2] == Wide(text) + [0, 0]
    requires data[FIXED + 2 * |text| + 2..FIXED + 2 * |text| + 2 + |path|] == path
    requires optional == data[FIXED + 2 * |text| + 2 + |path|..]
    ensures data == Print(attrs, text, path, optional)
  {
    hide ToLE, Wide;
    var at := FIXED + 2 * |text| + 2;
    CutOff(data, 0, 4);
    CutOff(data, 4, 6);
    CutOff(data, 6, at);
    CutOff(data, at, at + |path|);
    Reassociate(Wide(text), [0, 0], path + optional);
  }

  lemma CutOff(data: seq<byte>, from: nat, mid: nat)
    requires from <= mid <= |data|
    ensures data[from..] == data[from..mid] + data[mid..] && data[0..] == data
  {
  }

  lemma Reassociate(a: seq<byte>, b: seq<byte>, c: seq<byte>)
    ensures (a + b) + c == a + (b + c)
  {
  }

  /** The lengths of the five parts add up to the buffer's. */
  lemma PartsAddUp(data: seq<byte>) returns (textLen: nat)
    requires Parse(data).Data?
    ensures 4 + 2 + (2 * textLen + 2) + PathSize(data) + Parse(data).size == |data|
  {
    hide Walk, DescriptionEnd, Get;
    var text := DescriptionRead(data, 0, |data| - FIXED - PathSize(data));
    textLen := |text|;
  }

  // ---------------------------------------------------------------- when the walk leaves the option

  /** A node header that fits, is not an end node, and claims more than is left but not more than the whole rest. */
  predicate Overlong(data: seq<byte>, base: nat, at: nat) {
    base <= at && at + 4 <= |data| && !IsEnd(data, at) && |data| - at < NodeLen(data, at) <= |data| - base
  }

  lemma OverlongLeaves(data: seq<byte>, base: nat, i: nat)
    requires Overlong(data, base, base + i)
    ensures Walk(data, base, i) == Left
  {
    WalkStep(data, base, i);
    WalkLeft(data, base, i + NodeLen(data, base + i));
  }

  /** A walk that left went over whole nodes up to an overlong one. */
  lemma {:induction false} LeftRead(data: seq<byte>, base: nat, i: nat) returns (nodes: seq<Node>)
    requires base + i <= |data| && Walk(data, base, i) == Left
    ensures NodesOk(nodes) && At(data, base + i, PathBytes(nodes)) && Overlong(data, base, base + i + |PathBytes(nodes)|)
    decreases |data| - base - i
  {
    hide Walk, At, NodeBytes, NodeOk, NodeLen, IsEnd, Ending, PathBytes;
    WalkStep(data, base, i);
    NoNodes();
    var len := NodeLen(data, base + i);
    if base + i + len > |data| {
      nodes := [];
      AtNothing(data, base + i);
    } else {
      var rest := LeftRead(data, base, i + len);
      var n := Node(data[base + i], data[base + i + 1], data[base + i + 4..base + i + len]);
      NodeWritten(data, base + i, len, n);
      nodes := [n] + rest;
      AtJoin(data, base + i, NodeBytes(n), PathBytes(rest));
      PathCons(n, rest, []);
      assert PathBytes(nodes) + [] == PathBytes(nodes) && PathBytes(rest) + [] == PathBytes(rest);
    }
  }

  /** The option begins with a whole description, and its path with these nodes and then an overlong one. */
  predicate LeavesAt(data: seq<byte>, text: seq<byte>, nodes: seq<Node>) {
    var base := FIXED + 2 * |text| + 2;
    && 12 <= |data| && PathSize(data) <= |data| - 10 && base < |data| - PathSize(data)
    && TextOk(text) && At(data, FIXED, Wide(text) + [0, 0])
    && NodesOk(nodes) && At(data, base, PathBytes(nodes)) && Overlong(data, base, base + |PathBytes(nodes)|)
  }

  /**
   The parser reads on outside the option exactly when lengths and description pass and, behind whole
   nodes, it meets a node that is longer than what is left but not than the whole rest.
   */
  lemma PastEndIff(data: seq<byte>)
    ensures Parse(data) == PastEnd <==> exists text, nodes :: LeavesAt(data, text, nodes)
  {
    hide Walk, DescriptionEnd, PathBytes, Get, At, Wide, NodesOk, Overlong;
    if Parse(data) == PastEnd {
      var limit := |data| - FIXED - PathSize(data);
      var text := DescriptionRead(data, 0, limit);
      var base := FIXED + 2 * |text| + 2;
      AtSlice(data, FIXED, Wide(text) + [0, 0]);
      var nodes := LeftRead(data, base, 0);
      assert LeavesAt(data, text, nodes);
    }
    forall text: seq<byte>, nodes: seq<Node> | LeavesAt(data, text, nodes) ensures Parse(data) == PastEnd {
      LeavingParses(data, text, nodes);
    }
  }

  lemma AtSlice(data: seq<byte>, off: nat, s: seq<byte>)
    requires off + |s| <= |data| && data[off..off + |s|] == s
    ensures At(data, off, s)
  {
  }

  lemma LeavingParses(data: seq<byte>, text: seq<byte>, nodes: seq<Node>)
    requires LeavesAt(data, text, nodes)
    ensures Parse(data) == PastEnd
  {
    hide Walk, DescriptionEnd, PathBytes, Get, At, Wide, Overlong;
    var base := FIXED + 2 * |text| + 2;
    DescriptionPrinted(data, 0, |data| - FIXED - PathSize(data), text);
    AtBound(data, base, PathBytes(nodes));
    WalkNodes(data, base, 0, nodes);
    OverlongLeaves(data, base, |PathBytes(nodes)|);
  }

  /** A twenty-byte option whose second node claims all twelve bytes behind the description. */
  lemma OverlongNode(attrs: seq<byte>, node: Node)
    requires |attrs| == 4 && NodeOk(node) && |node.payload| == 4
    ensures
      var path := NodeBytes(node);
      var data := Print(attrs, [], path, [1, 1, 12, 0]);
      |data| == 20 && |path| == 8 && Parse(data) == PastEnd
  {
    hide NodeBytes, Print, At;
    var path, tail: seq<byte> := NodeBytes(node), [1, 1, 12, 0];
    NodeSize(node);
    PrintLength(attrs, [], path, tail);
    Fields(attrs, [], path, tail);
    var data := Print(attrs, [], path, tail);
    AtBound(data, 16, tail);
    assert data[16..20] == tail;
    assert data[16] == tail[0] && data[17] == tail[1] && data[18] == tail[2] && data[19] == tail[3];
    var nodes: seq<Node> := [node];
    PathCons(node, [], []);
    assert [node] + [] == nodes && PathBytes(nodes) + [] == PathBytes(nodes) && path + ([] + []) == path;
    assert PathBytes([]) == [];
    assert PathBytes(nodes) == path;
    assert LeavesAt(data, [], nodes);
    LeavingParses(data, [], nodes);
  }

  // ---------------------------------------------------------------- split_load_options

  const SPACE: nat := 0x20

  /** The first word of UCS-2 load options: behind the leading spaces, up to the next space or NUL. */
  predicate FirstWord(s: seq<nat>, start: nat, end: nat) {
    && start <= end <= |s|
    && (forall j :: 0 <= j < start ==> s[j] == SPACE)
    && (start < |s| ==> s[start] != SPACE)
    && (forall j :: start <= j < end ==> s[j] != SPACE && s[j] != 0)
    && (end < |s| ==> s[end] == SPACE || s[end] == 0)
  }

  /**
   Terminate the first word in place; `size` is in bytes.  Nothing else changes, and the rest begins
   behind the terminator.  Without a terminator there is no word and nothing changes.
   */
  method SplitLoadOptions(buf: array<nat>, size: nat) returns (word: Option<nat>, end: nat, remaining: nat)
    requires buf.Length == size / 2
    modifies buf
    ensures end <= buf.Length && (word.Some? <==> end < buf.Length)
    ensures exists start :: FirstWord(old(buf[..]), start, end) && (word.Some? ==> word.value == start)
    ensures word.None? ==> buf[..] == old(buf[..])
    ensures word.Some? ==> buf[..] == old(buf[..])[end := 0] && remaining + 2 * (end + 1) == size
  {
    var start := 0;
    while start < buf.Length
      invariant start <= buf.Length && forall j :: 0 <= j < start ==> buf[j] == SPACE
    {
      if buf[start] != SPACE { break; }
      start := start + 1;
    }
    end := start;
    while end < buf.Length
      invariant start <= end <= buf.Length && forall j :: start <= j < end ==> buf[j] != SPACE && buf[j] != 0
      invariant buf[..] == old(buf[..])
    {
      if buf[end] == SPACE || buf[end] == 0 {
        assert FirstWord(buf[..], start, end);
        buf[end] := 0;
        return Some(start), end, size - 2 * (end + 1);
      }
      end := end + 1;
    }
    assert FirstWord(buf[..], start, end);
    return None, end, 0;
  }
}
