/** sbat.c, the SbatLevel variable as a state machine over boots and set_sbat_uefi_variable calls. */
module SbatStore {
  import opened Bytes
  import opened Csv
  import opened CsvText
  import opened Sbat
  import opened SbatLevel

  datatype Stored = Stored(data: seq<byte>, attrs: nat)

  /** Shim's static policy byte and the two firmware variables. */
  datatype State = State(policy: byte, policyVar: Option<byte>, level: Option<Stored>)

  datatype Status = Success | ParseError | SelfRevoked | DeleteFailed | WriteFailed | ReadFailed | Mismatch

  /**
   What the platform answers during one call; `section` is shim's own .sbat section, `read` what reading
   the variable back returns, if anything.
   */
  datatype Env = Env(secure: bool, section: seq<byte>, clearOk: bool, deleteOk: bool, writeOk: bool, read: Option<seq<byte>>)

  // ---------------------------------------------------------------- levels and sections from text

  lemma {:induction false} RowWidth(b: seq<byte>, i: nat, end: nat, n: nat)
    requires end < |b| && b[end] == NUL
    ensures forall k :: 0 <= k < |RowsFrom(b, i, end, n)| ==> |RowsFrom(b, i, end, n)[k]| <= n
    decreases end + 1 - i
  {
    hide RowsFrom;
    if i > end || b[i] == NUL {
      RowsFromDone(b, i, end, n);
    } else {
      RowsFromStep(b, i, end, n);
      RowWidth(b, FirstStop(b, SkipEol(b, i, end), end, EOL) + 1, end, n);
    }
  }

  function TextRows(text: seq<byte>, n: nat): (rows: seq<Row>)
    ensures forall k :: 0 <= k < |rows| ==> |rows[k]| <= n
  {
    var b := text + [NUL];
    RowWidth(b, AfterBom(b), |text|, n);
    RowsFrom(b, AfterBom(b), |text|, n)
  }

  function ParseLevel(text: seq<byte>): Option<seq<LevelEntry>> {
    if text == [] then None else LevelEntries(TextRows(text, LEVEL_COLUMNS))
  }

  const SBAT_NAME: seq<byte> := [115, 98, 97, 116]

  /** A well-formed level without revocation lines parses to its one line. */
  lemma BareLevelParses(l: Level)
    requires l.Shaped() && l.lines == []
    ensures ParseLevel(l.Text()) == Some([LevelEntry(SBAT_NAME, l.version, Some(l.date))])
  {
    hide RowsFrom;
    var row: Row := [SBAT_NAME, l.version, l.date];
    var rows: seq<Row> := [row];
    DigitsClean(l.version);
    DigitsClean(l.date);
    assert Clean(SBAT_NAME);
    assert forall k :: 0 <= k < |row| ==> Clean(row[k]);
    assert Printable(row, LEVEL_COLUMNS);
    PrintThenParse(rows, LEVEL_COLUMNS);
    ThreeFields(SBAT_NAME, l.version, l.date);
    var b := l.Text() + [NUL];
    assert l.Text() == SBAT_NAME + [COMMA] + (l.version + [COMMA] + l.date) + [LF];
    assert b == Printed(rows);
    assert b[0] == 115 && AfterBom(b) == 0;
    assert TextRows(l.Text(), LEVEL_COLUMNS) == rows;
    assert RowComplete(rows[0], LEVEL_REQUIRED);
    var r := LevelEntries(rows).value;
    assert r == [LevelEntry(SBAT_NAME, l.version, Some(l.date))];
  }

  lemma DigitsClean(s: seq<byte>)
    requires forall k :: 0 <= k < |s| ==> IsDigit(s[k])
    ensures Clean(s)
  {
  }

  lemma ThreeFields(a: Field, b: Field, c: Field)
    ensures PrintRows([[a, b, c]]) == a + [COMMA] + (b + [COMMA] + c) + [LF]
  {
    var row: Row := [a, b, c];
    var rows: seq<Row> := [row];
    assert row[1..] == [b, c] && [b, c][1..] == [c] && rows[1..] == [];
    assert Join([c]) == c;
    assert Join([b, c]) == b + [COMMA] + c;
    assert Join(row) == a + [COMMA] + (b + [COMMA] + c);
    assert PrintRows(rows[1..]) == [];
  }

  /** The original level as it parses. */
  function OriginalEntries(): seq<LevelEntry> {
    [LevelEntry(SBAT_NAME, [49], Some([50, 48, 50, 49, 48, 51, 48, 50, 49, 56]))]
  }

  lemma OriginalParses()
    ensures ParseLevel(ORIGINAL) == Some(OriginalEntries())
  {
    hide ParseLevel;
    var l := Level([49], [50, 48, 50, 49, 48, 51, 48, 50, 49, 56], []);
    assert l.Text() == ORIGINAL;
    BareLevelParses(l);
  }

  /** A PE image's .sbat section against a parsed level. */
  predicate SectionPasses(section: seq<byte>, level: seq<LevelEntry>, inProtocol: bool) {
    || level == []
    || if section == [] then inProtocol
       else var entries := SectionEntries(TextRows(section, SECTION_COLUMNS));
         entries.Some? && Accepted(entries.value, level)
  }

  // ---------------------------------------------------------------- printed sections and levels

  /** Rows that print to a text without a leading byte order mark. */
  predicate Prints(rows: seq<Row>, n: nat) {
    && rows != [] && (forall r :: 0 <= r < |rows| ==> Printable(rows[r], n))
    && !(BOM <= Printed(rows))
  }

  lemma TextRowsPrinted(rows: seq<Row>, n: nat)
    requires Prints(rows, n)
    ensures TextRows(PrintRows(rows), n) == rows && PrintRows(rows) != []
  {
    hide RowsFrom, Printable;
    PrintParseRoundTrip(rows, n);
    assert Printed(rows)[..|Printed(rows)| - 1] == PrintRows(rows);
  }

  /** Six columns, none of them empty. */
  predicate SixColumns(row: Row) { |row| == 6 && [] !in row }

  /** A printed section parses exactly when all its rows have six columns, which its entries hold in order. */
  lemma SectionParsed(rows: seq<Row>)
    requires Prints(rows, 6)
    ensures
      var r := SectionEntries(TextRows(PrintRows(rows), 6));
      && (r.Some? <==> forall k :: 0 <= k < |rows| ==> SixColumns(rows[k]))
      && (r.Some? ==> |r.value| == |rows| && forall k :: 0 <= k < |rows| ==>
           var e := r.value[k]; rows[k] == [e.name, e.generation, e.vendor, e.package, e.version, e.url])
  {
    hide PrintRows, Printed;
    TextRowsPrinted(rows, 6);
    forall k | 0 <= k < |rows| ensures RowComplete(rows[k], 6) <==> SixColumns(rows[k]) {
      assert Printable(rows[k], 6);
    }
  }

  /** A printed level parses exactly when no column is empty; a line is a name, a generation and maybe a date. */
  lemma LevelParsed(rows: seq<Row>)
    requires Prints(rows, 3)
    ensures
      var r := ParseLevel(PrintRows(rows));
      && (r.Some? <==> forall k :: 0 <= k < |rows| ==> [] !in rows[k])
      && (r.Some? ==> |r.value| == |rows| && forall k :: 0 <= k < |rows| ==>
           var e := r.value[k];
           rows[k] == if e.datestamp.None? then [e.name, e.generation] else [e.name, e.generation, e.datestamp.value])
  {
    hide PrintRows, Printed;
    TextRowsPrinted(rows, 3);
    forall k | 0 <= k < |rows| ensures RowComplete(rows[k], 2) <==> [] !in rows[k] {
      assert Printable(rows[k], 3);
    }
  }

  /** Line k is the first of its name. */
  predicate FirstLine(lines: seq<Row>, k: nat) {
    k < |lines| && |lines[k]| >= 2 && forall j :: 0 <= j < k ==> |lines[j]| >= 2 && lines[j][0] != lines[k][0]
  }

  /** No line of the level revokes the row: the first one of its name asks for no higher generation. */
  predicate RowPasses(row: Row, lines: seq<Row>) {
    |row| >= 2 && forall k :: 0 <= k < |lines| && FirstLine(lines, k) && lines[k][0] == row[0] ==>
      Generation(row[1]) >= Generation(lines[k][1])
  }

  /**
   A printed section against a printed level: it passes exactly when each of its rows has six columns and
   reaches the generation in the first line of its name.
   */
  lemma SectionPassesIff(rows: seq<Row>, lines: seq<Row>, inProtocol: bool)
    requires Prints(rows, 6) && Prints(lines, 3) && ParseLevel(PrintRows(lines)).Some?
    ensures SectionPasses(PrintRows(rows), ParseLevel(PrintRows(lines)).value, inProtocol) <==>
      forall r :: 0 <= r < |rows| ==> SixColumns(rows[r]) && RowPasses(rows[r], lines)
  {
    hide PrintRows, Printed, Prints, ParseLevel, TextRows, RowPasses, SectionEntries, Accepted, SameRow, SameLine;
    TextRowsPrinted(rows, 6);
    SectionParsed(rows);
    LevelParsed(lines);
    NotEmpty(lines);
    var level := ParseLevel(PrintRows(lines)).value;
    var r := SectionEntries(TextRows(PrintRows(rows), 6));
    forall k | 0 <= k < |lines| ensures SameLine(level[k], lines[k]) {
      var e := level[k];
      LineIs(e, lines[k]);
    }
    if r.Some? {
      forall k | 0 <= k < |rows| ensures SameRow(r.value[k], rows[k]) {
        var e := r.value[k];
        RowIs(e, rows[k]);
      }
      AcceptedIff(r.value, level, rows, lines);
    }
  }

  predicate SameRow(e: SectionEntry, row: Row) { |row| >= 2 && e.name == row[0] && e.generation == row[1] }

  predicate SameLine(e: LevelEntry, line: Row) { |line| >= 2 && e.name == line[0] && e.generation == line[1] }

  lemma RowIs(e: SectionEntry, row: Row)
    requires row == [e.name, e.generation, e.vendor, e.package, e.version, e.url]
    ensures SameRow(e, row)
  {
  }

  lemma LineIs(e: LevelEntry, line: Row)
    requires line == if e.datestamp.None? then [e.name, e.generation] else [e.name, e.generation, e.datestamp.value]
    ensures SameLine(e, line)
  {
  }

  lemma AcceptedIff(entries: seq<SectionEntry>, level: seq<LevelEntry>, rows: seq<Row>, lines: seq<Row>)
    requires |level| == |lines| && forall k :: 0 <= k < |lines| ==> SameLine(level[k], lines[k])
    requires |entries| == |rows| && forall k :: 0 <= k < |rows| ==> SameRow(entries[k], rows[k])
    ensures Accepted(entries, level) <==> forall r :: 0 <= r < |rows| ==> RowPasses(rows[r], lines)
  {
    hide Passes, RowPasses, SameLine, SameRow;
    forall k | 0 <= k < |rows| ensures Passes(entries[k], level) <==> RowPasses(rows[k], lines) {
      PassesIff(entries[k], level, rows[k], lines);
    }
  }

  lemma NotEmpty(rows: seq<Row>)
    requires Prints(rows, 3)
    ensures rows != []
  {
  }

  lemma PassesIff(entry: SectionEntry, level: seq<LevelEntry>, row: Row, lines: seq<Row>)
    requires |level| == |lines| && forall k :: 0 <= k < |lines| ==> SameLine(level[k], lines[k])
    requires SameRow(entry, row)
    ensures Passes(entry, level) <==> RowPasses(row, lines)
  {
    hide Generation;
    var m := FirstMatch(level, entry.name);
    forall k | 0 <= k < |lines| && lines[k][0] == row[0]
      ensures FirstLine(lines, k) <==> m == Some(k)
    {
      assert SameLine(level[k], lines[k]);
      assert forall j :: 0 <= j < |lines| ==> level[j].name == lines[j][0] by {
        forall j | 0 <= j < |lines| ensures level[j].name == lines[j][0] { assert SameLine(level[j], lines[j]); }
      }
      if FirstLine(lines, k) { FirstMatchAt(level, entry.name, k); }
    }
    if m.Some? { assert SameLine(level[m.value], lines[m.value]); }
  }

  /** Raising generations (as 16-bit numbers) only shrinks the set of sections that pass. */
  lemma RaisingTightensSections(section: seq<byte>, a: seq<LevelEntry>, b: seq<LevelEntry>, inProtocol: bool)
    requires SameNames(a, b) && SectionPasses(section, b, inProtocol)
    requires forall k :: 0 <= k < |a| ==> Generation(a[k].generation) <= Generation(b[k].generation)
    ensures SectionPasses(section, a, inProtocol)
  {
    hide Generation;
    TighterIff(a, b);
  }

  // ---------------------------------------------------------------- one call

  function PolicySeen(s: State): Option<byte> {
    if s.policy == POLICY_NOTREAD then s.policyVar else Some(s.policy)
  }

  /** The level text a call wants in place, and whether it was asked to reset. */
  function Choice(p: Option<byte>, secure: bool, automatic: seq<byte>, latest: seq<byte>): (seq<byte>, bool) {
    if p == Some(POLICY_LATEST) then (latest, false)
    else if p == Some(POLICY_AUTOMATIC) || secure then (automatic, false)
    else (ORIGINAL, true)
  }

  function PolicyRead(s: State, env: Env): State {
    if s.policy == POLICY_NOTREAD && s.policyVar.Some?
    then s.(policy := s.policyVar.value, policyVar := if env.clearOk then None else s.policyVar)
    else s
  }

  function Written(s: State, text: seq<byte>, env: Env): State {
    s.(level := if env.writeOk then Some(Stored(text, NV_BS)) else None)
  }

  /** Is the stored level replaced?  It is not while it outranks the candidate or the candidate is unusable. */
  predicate Replaces(s: State, text: seq<byte>, reset: bool, env: Env) {
    s.level.Some? ==>
      && (reset || !Preserved(s.level.value.data, s.level.value.attrs, text))
      && ParseLevel(text).Some? && SectionPasses(env.section, ParseLevel(text).value, false) && env.deleteOk
  }

  function Next(s: State, automatic: seq<byte>, latest: seq<byte>, env: Env): State {
    var (text, reset) := Choice(PolicySeen(s), env.secure, automatic, latest);
    if Replaces(s, text, reset, env) then Written(PolicyRead(s, env), text, env) else PolicyRead(s, env)
  }

  /** The status of a call: the first check that fails, down to reading the new level back. */
  function StatusOf(s: State, automatic: seq<byte>, latest: seq<byte>, env: Env): Status {
    var (text, reset) := Choice(PolicySeen(s), env.secure, automatic, latest);
    if s.level.Some? && !reset && Preserved(s.level.value.data, s.level.value.attrs, text) then Success
    else if s.level.Some? && ParseLevel(text).None? then ParseError
    else if s.level.Some? && !SectionPasses(env.section, ParseLevel(text).value, false) then SelfRevoked
    else if s.level.Some? && !env.deleteOk then DeleteFailed
    else if !env.writeOk then WriteFailed
    else if env.read.None? then ReadFailed
    else if env.read.value != text then Mismatch
    else Success
  }

  /** The static policy byte and the firmware variables that set_sbat_uefi_variable works on. */
  class SbatVariables {
    var policy: byte
    var policyVar: Option<byte>
    var level: Option<Stored>

    function Abs(): State
      reads this
    {
      State(policy, policyVar, level)
    }

    constructor (policyVar: Option<byte>, level: Option<Stored>)
      ensures Abs() == State(POLICY_NOTREAD, policyVar, level)
    {
      this.policy, this.policyVar, this.level := POLICY_NOTREAD, policyVar, level;
    }

    /** Take the policy the OS left, once per boot; whether there is one. */
    method ReadPolicy(env: Env) returns (found: bool)
      modifies this
      ensures Abs() == PolicyRead(old(Abs()), env)
      ensures found <==> PolicySeen(old(Abs())).Some?
      ensures found ==> PolicySeen(old(Abs())) == Some(policy)
    {
      if policy == POLICY_NOTREAD {
        if policyVar.None? { return false; }
        policy := policyVar.value;
        if env.clearOk { policyVar := None; }
      }
      return true;
    }

    method SetSbatUefiVariable(automatic: seq<byte>, latest: seq<byte>, env: Env) returns (status: Status)
      modifies this
      ensures Abs() == Next(old(Abs()), automatic, latest, env)
      ensures status == StatusOf(old(Abs()), automatic, latest, env)
    {
      hide Preserved, ParseLevel, SectionPasses;
      var found := ReadPolicy(env);
      var candidate, reset := [], false;
      if !found {
        if env.secure { candidate := automatic; } else { reset, candidate := true, ORIGINAL; }
      } else if policy == POLICY_LATEST {
        candidate := latest;
      } else if policy == POLICY_AUTOMATIC {
        candidate := automatic;
      } else if env.secure {
        candidate := automatic;
      } else {
        reset, candidate := true, ORIGINAL;
      }
      if level.Some? {
        var keep := PreserveSbatUefiVariable(level.value.data, level.value.attrs, candidate);
        if keep && !reset { return Success; }
        var parsed := ParseLevel(candidate);
        if parsed.None? { return ParseError; }
        if !SectionPasses(env.section, parsed.value, false) { return SelfRevoked; }
        if !env.deleteOk { return DeleteFailed; }
        level := None;
      }
      if !env.writeOk { return WriteFailed; }
      level := Some(Stored(candidate, NV_BS));
      if env.read.None? { return ReadFailed; }
      if |env.read.value| != |candidate| || env.read.value != candidate { return Mismatch; }
      return Success;
    }
  }

  // ---------------------------------------------------------------- runs

  datatype Event = Boot(osPolicy: Option<byte>) | Set(automatic: Level, latest: Level, env: Env)

  function Apply(s: State, e: Event): State {
    match e
    case Boot(p) => s.(policy := POLICY_NOTREAD, policyVar := p)
    case Set(automatic, latest, env) => Next(s, automatic.Text(), latest.Text(), env)
  }

  function Run(s: State, events: seq<Event>): State
    decreases |events|
  {
    if events == [] then s else Run(Apply(s, events[0]), events[1..])
  }

  /** Secure mode, well-formed levels in shim, and no write that fails after the old level is gone. */
  predicate Sound(e: Event) {
    e.Set? ==> e.automatic.Valid() && e.latest.Valid() && e.env.secure && e.env.writeOk
  }

  ghost predicate Holding(s: State, l: Level) {
    l.Valid() && s.level.Some? && s.level.value.data == l.Text() && AttributesOk(s.level.value.attrs)
  }

  /** One event never lowers the stored level, and a change means a later datestamp and a passing self-check. */
  lemma StepNeverLowers(s: State, e: Event, l: Level) returns (l': Level)
    requires Sound(e) && Holding(s, l)
    ensures Holding(Apply(s, e), l') && l'.Version() >= l.Version() && l'.Date() >= l.Date()
    ensures Apply(s, e).level != s.level ==>
      && e.Set? && l'.Date() > l.Date()
      && ParseLevel(l'.Text()).Some? && SectionPasses(e.env.section, ParseLevel(l'.Text()).value, false)
  {
    hide Preserved, Decimal, ParseLevel, SectionPasses;
    l' := l;
    if e.Set? {
      var (text, reset) := Choice(PolicySeen(s), e.env.secure, e.automatic.Text(), e.latest.Text());
      var candidate := if PolicySeen(s) == Some(POLICY_LATEST) then e.latest else e.automatic;
      assert text == candidate.Text() && !reset;
      PreservedIsNumeric(l, s.level.value.attrs, candidate);
      if Replaces(s, text, reset, e.env) { l' := candidate; }
    }
  }

  /**
   Anti-rollback: along any run of boots (whatever policy the OS left) and secure-mode calls, the
   stored version and datestamp never fall, and the stored text moves only to a later datestamp.
   */
  lemma {:induction false} RunNeverLowers(s: State, events: seq<Event>, l: Level) returns (l': Level)
    requires Holding(s, l) && forall k :: 0 <= k < |events| ==> Sound(events[k])
    ensures Holding(Run(s, events), l') && l'.Version() >= l.Version() && l'.Date() >= l.Date()
    ensures l' == l || l'.Date() > l.Date()
    decreases |events|
  {
    hide Apply, Decimal;
    l' := l;
    if events != [] {
      var m := StepNeverLowersOrKeeps(s, events[0], l);
      l' := RunNeverLowers(Apply(s, events[0]), events[1..], m);
    }
  }

  lemma StepNeverLowersOrKeeps(s: State, e: Event, l: Level) returns (l': Level)
    requires Sound(e) && Holding(s, l)
    ensures Holding(Apply(s, e), l') && l'.Version() >= l.Version() && l'.Date() >= l.Date()
    ensures l' == l || l'.Date() > l.Date()
  {
    hide Apply, Decimal;
    l' := StepNeverLowers(s, e, l);
    if Apply(s, e).level == s.level { l' := l; }
  }

  /** From an empty variable, one secure call installs shim's own level whatever the policy. */
  lemma FirstCallInstalls(s: State, e: Event) returns (l: Level)
    requires Sound(e) && e.Set? && s.level == None
    ensures Holding(Apply(s, e), l) && (l == e.automatic || l == e.latest)
  {
    l := if PolicySeen(s) == Some(POLICY_LATEST) then e.latest else e.automatic;
  }

  /** The policy in force: shim's own byte, or the OS's variable while that byte is 255. */
  function PolicyByte(s: State): int {
    if s.policy != 255 then s.policy as int else if s.policyVar.Some? then s.policyVar.value as int else -1
  }

  /**
   Which level a call installs where none is stored.  Policy 1 asks for the latest one and policy 2 for the
   automatic one; any other, or none, for the automatic one in secure mode and for the original one outside it.
   */
  lemma InstalledByPolicy(s: State, automatic: seq<byte>, latest: seq<byte>, env: Env)
    requires s.level == None && env.writeOk
    ensures
      var text :=
        if PolicyByte(s) == 1 then latest else if PolicyByte(s) == 2 || env.secure then automatic else ORIGINAL;
      && Next(s, automatic, latest, env).level == Some(Stored(text, 3))
      && (StatusOf(s, automatic, latest, env) == Success <==> env.read == Some(text))
  {
  }

  /** The level secure mode asks for, and whether it may replace the one stored. */
  function Candidate(s: State, e: Event): Level
    requires e.Set?
  {
    if PolicyByte(s) == 1 then e.latest else e.automatic
  }

  ghost predicate Newer(a: Level, b: Level)
    requires a.Valid() && b.Valid()
  {
    a.Version() >= b.Version() && a.Date() > b.Date()
  }

  /** The candidate can be used: it parses, shim's own section passes it, and the old level goes away. */
  predicate Usable(text: seq<byte>, env: Env) {
    && ParseLevel(text).Some? && SectionPasses(env.section, ParseLevel(text).value, false) && env.deleteOk
  }

  /**
   In secure mode a stored level is replaced by the candidate exactly when the candidate is newer and usable;
   a policy of the OS is taken over, and cleared if the firmware lets it.
   */
  lemma UpdatedIff(s: State, e: Event, l: Level)
    requires Holding(s, l) && e.Set? && e.env.secure && e.automatic.Valid() && e.latest.Valid()
    ensures
      var c := Candidate(s, e);
      && Apply(s, e).level ==
           (if !Newer(c, l) || !Usable(c.Text(), e.env) then s.level
            else if e.env.writeOk then Some(Stored(c.Text(), 3)) else None)
      && (PolicyByte(s) != 255 ==> PolicyByte(Apply(s, e)) == PolicyByte(s))
      && Apply(s, e).policyVar == if s.policy == 255 && s.policyVar.Some? && e.env.clearOk then None else s.policyVar
  {
    hide Preserved, Decimal, ParseLevel, SectionPasses, Level.Valid;
    PreservedIsNumeric(l, s.level.value.attrs, Candidate(s, e));
  }

  /** Outside secure mode a call that resets does so exactly when the original level is usable. */
  lemma ResetIff(s: State, automatic: seq<byte>, latest: seq<byte>, env: Env)
    requires !env.secure && PolicyByte(s) != 1 && PolicyByte(s) != 2 && s.level.Some?
    ensures Next(s, automatic, latest, env).level ==
      if !SectionPasses(env.section, OriginalEntries(), false) || !env.deleteOk then s.level
      else if env.writeOk then Some(Stored(ORIGINAL, 3)) else None
  {
    hide ParseLevel, SectionPasses, Preserved;
    OriginalParses();
  }

  /** A call loses a stored level exactly when it replaces it and the write fails behind the delete. */
  lemma LosesLevelIff(s: State, automatic: seq<byte>, latest: seq<byte>, env: Env)
    requires s.level.Some?
    ensures
      var (text, reset) := Choice(PolicySeen(s), env.secure, automatic, latest);
      && (Next(s, automatic, latest, env).level.None? <==> Replaces(s, text, reset, env) && !env.writeOk)
      && (StatusOf(s, automatic, latest, env) == WriteFailed <==> Next(s, automatic, latest, env).level.None?)
  {
  }

  /** Outside secure mode, without a policy, a call puts the original level over whatever is stored. */
  lemma InsecureCallResets(s: State, automatic: seq<byte>, latest: seq<byte>, env: Env)
    requires !env.secure && PolicySeen(s).None? && env.deleteOk && env.writeOk
    requires SectionPasses(env.section, OriginalEntries(), false)
    ensures Next(s, automatic, latest, env).level == Some(Stored(ORIGINAL, NV_BS))
  {
    hide ParseLevel, SectionPasses, Preserved;
    OriginalParses();
  }

  /**
   The no-failure proviso is needed: a write that fails after the delete empties the variable, and
   the next call then installs its level even when that is older than what was stored first.
   */
  lemma LostWriteRollsBack(l: Level, newer: Level, older: Level, env: Env)
    requires l.Valid() && newer.Valid() && older.Valid()
    requires older.Date() < l.Date() < newer.Date() && l.Version() <= newer.Version()
    requires env.secure && env.deleteOk && env.writeOk
    requires ParseLevel(newer.Text()).Some? && SectionPasses(env.section, ParseLevel(newer.Text()).value, false)
    ensures
      var s := State(POLICY_NOTREAD, None, Some(Stored(l.Text(), NV_BS)));
      var events := [Set(newer, newer, env.(writeOk := false)), Boot(None), Set(older, older, env)];
      Holding(s, l) && Holding(Run(s, events), older)
  {
    hide Preserved, Decimal, ParseLevel, SectionPasses;
    var s := State(POLICY_NOTREAD, None, Some(Stored(l.Text(), NV_BS)));
    var e0, e1, e2 := Set(newer, newer, env.(writeOk := false)), Boot(None), Set(older, older, env);
    PreservedIsNumeric(l, NV_BS, newer);
    var s1 := Apply(s, e0);
    assert s1.level == None;
    assert [e0, e1, e2][1..] == [e1, e2] && [e1, e2][1..] == [e2] && [e2][1..] == [];
    assert Run(Apply(Apply(s1, e1), e2), []) == Apply(Apply(s1, e1), e2);
    assert Run(s1, [e1, e2]) == Run(Apply(s1, e1), [e2]);
  }
}
