/** The persist-first audit log: one table, any number of handles, failed writes and crashes. */
module AuditPersist {
  import opened Basics
  import opened AuditLogs

  const I64_MAX: nat := 0x7FFF_FFFF_FFFF_FFFF

  /** A row of `audit_log`; decrypting the payload gives the entry back. */
  datatype Row = Row(id: EntryId, sequence: int, payload: AuditEntry)

  type Table = set<Row>

  /** `id` is the primary key and `sequence` is unique. */
  predicate Keyed(table: Table) {
    forall r, s :: r in table && s in table && r != s ==> r.id != s.id && r.sequence != s.sequence
  }

  predicate Insertable(table: Table, row: Row) {
    forall r :: r in table ==> r.id != row.id && r.sequence != row.sequence
  }

  // ---------------------------------------------------------------- append

  datatype Fault = NoFault | WriteFails | CrashBefore | CrashAfter

  /** What an append leaves: the table, the handle's log unless the process died, and the answer it got. */
  datatype Appended = Appended(table: Table, log: Option<Log>, answer: Option<Result<EntryId, AuditError>>)

  function Stamp(log: Log, e: AuditEntry): AuditEntry {
    e.(sequence := log.next)
  }

  function RowFor(e: AuditEntry): Row {
    Row(e.id, e.sequence, e)
  }

  function AppendEffect(table: Table, log: Log, entry: AuditEntry, fault: Fault): Appended {
    var e := Stamp(log, entry);
    if fault.CrashBefore? then Appended(table, None, None)
    else if e.sequence > I64_MAX then Appended(table, Some(log), Some(Err(SequenceOverflow)))
    else if fault.WriteFails? || !Insertable(table, RowFor(e)) then Appended(table, Some(log), Some(Err(Sqlite)))
    else if fault.CrashAfter? then Appended(table + {RowFor(e)}, None, None)
    else
      match ReplayTo(log, e)
      case Ok(log') => Appended(table + {RowFor(e)}, Some(log'), Some(Ok(e.id)))
      case Err(x) => Appended(table + {RowFor(e)}, Some(log), Some(Err(x)))
  }

  /** The row's two keys are free. */
  ghost predicate Free(table: Table, id: EntryId, sequence: int) {
    forall r :: r in table ==> r.id != id && r.sequence != sequence
  }

  /** Every way an append can end, from any table and log. A crash leaves no handle and no answer, with the row
      written exactly if it came after the write and the write was good; otherwise the answer tells a number too
      large for the column from a failed or refused write, and only an acknowledged append changes anything. */
  lemma AppendOutcomes(table: Table, log: Log, entry: AuditEntry, fault: Fault)
    ensures var r := AppendEffect(table, log, entry, fault);
            var row := Row(id := entry.id, sequence := log.next, payload := entry.(sequence := log.next));
            var fits := log.next <= 0x7FFF_FFFF_FFFF_FFFF;
            var written := fits && Free(table, entry.id, log.next) && (fault.NoFault? || fault.CrashAfter?);
            && r.table == (if written then table + {row} else table)
            && (r.answer == None <==> fault.CrashBefore? || (fault.CrashAfter? && written))
            && (r.log == None <==> r.answer == None)
            && (fault.NoFault? && written ==>
                  r.answer == Some(Ok(entry.id)) && r.log.value.entries == log.entries + [row.payload])
            && (r.answer.Some? && !(fault.NoFault? && written) ==>
                  r.answer.value == Err(if fits then Sqlite else SequenceOverflow) && r.log == Some(log))
  {}

  // ---------------------------------------------------------------- reload

  ghost predicate IsFirst(table: Table, r: Row) {
    r in table && forall s :: s in table ==> r.sequence <= s.sequence
  }

  lemma {:induction false} FirstExists(table: Table) returns (r: Row)
    requires table != {}
    ensures IsFirst(table, r)
  {
    r :| r in table;
    if table != {r} {
      var s := FirstExists(table - {r});
      if s.sequence < r.sequence { r := s; }
    }
  }

  /** `SELECT ... ORDER BY sequence ASC`. */
  ghost function InOrder(table: Table): seq<Row> {
    if table == {} then []
    else
      var first := FirstOf(table);
      [first] + InOrder(table - {first})
  }

  ghost function FirstOf(table: Table): (r: Row)
    requires table != {}
    ensures IsFirst(table, r)
  {
    assert exists r :: IsFirst(table, r) by { var r := FirstExists(table); }
    var r :| IsFirst(table, r);
    r
  }

  lemma NothingInOrder()
    ensures InOrder({}) == []
  {}

  lemma FirstUnique(table: Table, rest: Table, r: Row)
    requires Keyed(table) && rest <= table && IsFirst(rest, r)
    ensures InOrder(rest) == [r] + InOrder(rest - {r})
  {
    var first := FirstOf(rest);
    assert first.sequence == r.sequence;
  }

  /** Decode one row and replay it. */
  function LoadRow(log: Log, row: Row): Result<Log, AuditError> {
    if row.payload.id != row.id || row.sequence < 0 || row.payload.sequence != row.sequence then Err(RowMismatch)
    else ReplayTo(log, row.payload)
  }

  /** The log that the reload loop leaves, and how it ended. */
  datatype Loaded = Loaded(log: Log, result: Result<(), AuditError>)

  function LoadRows(rows: seq<Row>, log: Log): Loaded
    decreases |rows|
  {
    if rows == [] then Loaded(log, Ok(()))
    else
      match LoadRow(log, rows[0])
      case Err(e) => Loaded(log, Err(e))
      case Ok(log') => LoadRows(rows[1..], log')
  }

  ghost function LoadedFrom(table: Table): Loaded {
    LoadRows(InOrder(table), EMPTY_LOG)
  }

  // ---------------------------------------------------------------- any table at all

  /** The columns are those of the entry that the payload decodes to. */
  ghost predicate Intact(r: Row) {
    r.id == r.payload.id && r.sequence == r.payload.sequence
  }

  ghost predicate Ascending(rows: seq<Row>) {
    forall i, j :: 0 <= i < j < |rows| ==> rows[i].sequence < rows[j].sequence
  }

  lemma FirstBelow(table: Table, first: Row, r: Row)
    requires Keyed(table) && IsFirst(table, first) && r in table && r != first
    ensures first.sequence < r.sequence
  {}

  lemma OrderedCons(first: Row, tail: seq<Row>, rest: Table)
    requires Ascending(tail) && |tail| == |rest| && first !in rest
    requires (forall r :: r in tail <==> r in rest) && forall r :: r in rest ==> first.sequence < r.sequence
    ensures var rows := [first] + tail;
            Ascending(rows) && |rows| == |rest + {first}| && forall r :: r in rows <==> r in rest + {first}
  {
    var rows := [first] + tail;
    forall j | 1 <= j < |rows| ensures first.sequence < rows[j].sequence {
      assert rows[j] == tail[j - 1] && tail[j - 1] in tail;
    }
  }

  /** Selecting in order lists every row once, by ascending sequence. */
  lemma {:induction false} InOrderExact(table: Table)
    requires Keyed(table)
    ensures Ascending(InOrder(table)) && |InOrder(table)| == |table| && forall r :: r in InOrder(table) <==> r in table
    decreases |table|
  {
    if table != {} {
      var first := FirstOf(table);
      var rest := table - {first};
      assert Keyed(rest);
      InOrderExact(rest);
      forall r | r in rest ensures first.sequence < r.sequence { FirstBelow(table, first, r); }
      assert rest + {first} == table && InOrder(table) == [first] + InOrder(rest);
      hide InOrder, Keyed, Ascending;
      OrderedCons(first, InOrder(rest), rest);
    }
  }

  /** How many rows load, the first of them as the `i`-th entry. */
  ghost function GoodRun(rows: seq<Row>, i: nat): nat
    decreases |rows|
  {
    if rows != [] && Intact(rows[0]) && rows[0].sequence == Capped(i) then 1 + GoodRun(rows[1..], i + 1) else 0
  }

  ghost predicate LoadedRun(rows: seq<Row>, log: Log, i: nat, r: Loaded) {
    var k := GoodRun(rows, i);
    && k <= |rows| && |r.log.entries| == |log.entries| + k && log.entries <= r.log.entries
    && (forall j :: 0 <= j < k ==>
          Intact(rows[j]) && rows[j].sequence == Capped(i + j) && r.log.entries[|log.entries| + j] == rows[j].payload)
    && r.log.next == Capped(i + k)
    && r.result == (if k == |rows| then Ok(()) else Err(if Intact(rows[k]) then NotContiguous else RowMismatch))
    && (k < |rows| ==> !(Intact(rows[k]) && rows[k].sequence == Capped(i + k)))
  }

  lemma {:induction false} LoadRowsExact(rows: seq<Row>, log: Log, i: nat)
    requires log.next == Capped(i)
    ensures LoadedRun(rows, log, i, LoadRows(rows, log))
    decreases |rows|
  {
    if rows != [] && Intact(rows[0]) && rows[0].sequence == Capped(i) {
      var next := Log(log.entries + [rows[0].payload], Bump(log.next));
      assert LoadRow(log, rows[0]) == Ok(next);
      LoadRowsExact(rows[1..], next, i + 1);
      LoadedRunNext(rows, log, next, i, LoadRows(rows[1..], next));
    }
  }

  lemma LoadedRunNext(rows: seq<Row>, log: Log, next: Log, i: nat, r: Loaded)
    requires rows != [] && Intact(rows[0]) && rows[0].sequence == Capped(i)
    requires next.entries == log.entries + [rows[0].payload] && LoadedRun(rows[1..], next, i + 1, r)
    ensures LoadedRun(rows, log, i, r)
  {
    var tail := rows[1..];
    assert forall j :: 0 <= j < |tail| ==> tail[j] == rows[j + 1];
    assert GoodRun(rows, i) == 1 + GoodRun(tail, i + 1);
    assert r.log.entries[|log.entries|] == next.entries[|log.entries|];
  }

  lemma {:induction false} AscendingGap(rows: seq<Row>, i: nat, j: nat)
    requires Ascending(rows) && i <= j < |rows|
    ensures rows[j].sequence - rows[i].sequence >= j - i
    decreases j
  {
    if i < j { AscendingGap(rows, i, j - 1); }
  }

  /** Ascending sequences that fill 0..n-1 are their positions. */
  lemma AscendingPositions(rows: seq<Row>)
    requires Ascending(rows) && forall r :: r in rows ==> 0 <= r.sequence < |rows|
    ensures forall i :: 0 <= i < |rows| ==> rows[i].sequence == i
  {
    assert forall i :: 0 <= i < |rows| ==> rows[i] in rows;
    forall i: nat | i < |rows| ensures rows[i].sequence == i {
      AscendingGap(rows, 0, i);
      AscendingGap(rows, i, |rows| - 1);
    }
  }

  /** Every row is intact and the sequences are 0, 1, ..., within the counter's range. */
  ghost predicate Wholesome(table: Table) {
    |table| <= U64_MAX + 1 && forall r :: r in table ==> Intact(r) && 0 <= r.sequence < |table|
  }

  /** `rows` lists the table, by ascending sequence. */
  ghost predicate Listing(table: Table, rows: seq<Row>) {
    Ascending(rows) && |rows| == |table| && forall r :: r in rows <==> r in table
  }

  /** What a reload of `rows` comes to: exactly the longest run of intact rows numbered from 0 is in memory, in
      order. */
  ghost predicate ReloadedAs(rows: seq<Row>, l: Loaded) {
    var k := |l.log.entries|;
    && k <= |rows| && k <= U64_MAX + 1
    && (forall i :: 0 <= i < k ==> Intact(rows[i]) && rows[i].sequence == i && l.log.entries[i] == rows[i].payload)
    && (k < |rows| ==> !(Intact(rows[k]) && rows[k].sequence == k <= U64_MAX))
    && l.result == (if k == |rows| then Ok(()) else Err(if Intact(rows[k]) then NotContiguous else RowMismatch))
  }

  lemma RunIsReload(rows: seq<Row>, l: Loaded)
    requires Ascending(rows) && LoadedRun(rows, EMPTY_LOG, 0, l)
    ensures ReloadedAs(rows, l)
  {
    hide GoodRun, Intact, Ascending;
    RunIsCounted(rows, |l.log.entries|);
  }

  /** Reloading any table brings back exactly its longest run of intact rows numbered from 0, succeeds exactly when
      every row is intact and the sequences are 0, 1, ..., and else tells a tampered row from a gap. */
  lemma ReloadExact(table: Table)
    requires Keyed(table)
    ensures Listing(table, InOrder(table)) && ReloadedAs(InOrder(table), LoadedFrom(table))
    ensures LoadedFrom(table).result.Ok? <==> Wholesome(table)
  {
    hide InOrder, LoadRows, Keyed, Ascending, LoadedRun, Wholesome;
    InOrderExact(table);
    LoadRowsExact(InOrder(table), EMPTY_LOG, 0);
    RunIsReload(InOrder(table), LoadedFrom(table));
    hide Intact;
    WholesomeIff(table, InOrder(table), |LoadedFrom(table).log.entries|);
  }

  lemma WholesomeIff(table: Table, rows: seq<Row>, k: nat)
    requires Listing(table, rows) && k <= |rows|
    requires k <= U64_MAX + 1 && forall i :: 0 <= i < k ==> Intact(rows[i]) && rows[i].sequence == i
    requires k < |rows| ==> !(Intact(rows[k]) && rows[k].sequence == k <= U64_MAX)
    ensures k == |rows| <==> Wholesome(table)
  {
    assert forall i :: 0 <= i < |rows| ==> rows[i] in rows;
    if Wholesome(table) { AscendingPositions(rows); }
    if k == |rows| {
      forall r | r in table ensures Intact(r) && 0 <= r.sequence < |table| {
        var i :| 0 <= i < |rows| && rows[i] == r;
      }
    }
  }

  /** Ascending rows numbered by capped position stay below the cap. */
  lemma RunIsCounted(rows: seq<Row>, k: nat)
    requires Ascending(rows) && k <= |rows| && forall j :: 0 <= j < k ==> rows[j].sequence == Capped(j)
    ensures k <= U64_MAX + 1 && forall j :: 0 <= j < k ==> rows[j].sequence == j
  {
    forall j: nat | j < k ensures j <= U64_MAX && rows[j].sequence == j { AscendingGap(rows, 0, j); }
    assert k > 0 ==> rows[k - 1].sequence == k - 1;
  }

  // ---------------------------------------------------------------- what the table holds

  /** The table stores `tape`, entry by entry, under the sequence numbers 0, 1, 2, ... */
  ghost predicate Holds(table: Table, tape: seq<AuditEntry>) {
    && (forall i :: 0 <= i < |tape| ==> tape[i].sequence == i)
    && (forall i, j :: 0 <= i < j < |tape| ==> tape[i].id != tape[j].id)
    && (forall i :: 0 <= i < |tape| ==> RowFor(tape[i]) in table)
    && (forall r :: r in table ==> 0 <= r.sequence < |tape| && r == RowFor(tape[r.sequence]))
    && |tape| <= I64_MAX + 1
  }

  /** A handle remembers a prefix of the tape. */
  ghost predicate Prefix(log: Log, tape: seq<AuditEntry>) {
    log.entries <= tape && log.next == |log.entries|
  }

  ghost function Rows(tape: seq<AuditEntry>, from: nat): seq<Row>
    requires from <= |tape|
  {
    seq(|tape| - from, i requires 0 <= i < |tape| - from => RowFor(tape[from + i]))
  }

  ghost function RowsFrom(table: Table, from: nat): Table {
    set r | r in table && from <= r.sequence
  }

  /** The row of `tape[from]` is the only first one among the rows from `from` on. */
  lemma FirstRow(table: Table, tape: seq<AuditEntry>, from: nat)
    requires Holds(table, tape) && from < |tape|
    ensures var rest, row := RowsFrom(table, from), RowFor(tape[from]);
            rest != {} && FirstOf(rest) == row && rest - {row} == RowsFrom(table, from + 1)
  {
    hide InOrder;
    var rest, row := RowsFrom(table, from), RowFor(tape[from]);
    assert row in rest;
    var first := FirstOf(rest);
    assert first in rest && first.sequence <= row.sequence;
    assert forall r :: r in rest && r.sequence == from ==> r == row;
  }

  lemma RowsUnfold(tape: seq<AuditEntry>, from: nat)
    requires from < |tape|
    ensures Rows(tape, from) == [RowFor(tape[from])] + Rows(tape, from + 1)
  {}

  lemma {:induction false} InOrderIsTape(table: Table, tape: seq<AuditEntry>, from: nat)
    requires Holds(table, tape) && from <= |tape|
    ensures InOrder(RowsFrom(table, from)) == Rows(tape, from)
    decreases |tape| - from
  {
    if from == |tape| {
      assert RowsFrom(table, from) == {};
    } else {
      hide Holds, RowsFrom, Rows;
      FirstRow(table, tape, from);
      RowsUnfold(tape, from);
      InOrderIsTape(table, tape, from + 1);
    }
  }

  lemma {:induction false} LoadTape(tape: seq<AuditEntry>, from: nat)
    requires from <= |tape| <= I64_MAX + 1 && forall i :: 0 <= i < |tape| ==> tape[i].sequence == i
    ensures LoadRows(Rows(tape, from), Log(tape[..from], from)) == Loaded(Log(tape, |tape|), Ok(()))
    decreases |tape| - from
  {
    if from == |tape| {
      assert tape[..from] == tape;
    } else {
      assert Rows(tape, from)[0] == RowFor(tape[from]) && Rows(tape, from)[1..] == Rows(tape, from + 1);
      assert tape[..from] + [tape[from]] == tape[..from + 1];
      assert LoadRow(Log(tape[..from], from), RowFor(tape[from])) == Ok(Log(tape[..from + 1], from + 1));
      LoadTape(tape, from + 1);
    }
  }

  /** Reload always succeeds and brings the whole tape into memory. */
  lemma ReloadSucceeds(table: Table, tape: seq<AuditEntry>)
    requires Holds(table, tape)
    ensures LoadedFrom(table) == Loaded(Log(tape, |tape|), Ok(()))
  {
    assert RowsFrom(table, 0) == table;
    InOrderIsTape(table, tape, 0);
    LoadTape(tape, 0);
    assert tape[..0] == [];
  }

  /** The tape is determined by the table. */
  lemma TapeUnique(table: Table, a: seq<AuditEntry>, b: seq<AuditEntry>)
    requires Holds(table, a) && Holds(table, b)
    ensures a == b
  {
    ReloadSucceeds(table, a);
    ReloadSucceeds(table, b);
  }

  /** An append is acknowledged exactly when nothing fails, the handle is up to date, the id is new and the column
      has room. */
  lemma AppendAckedIff(table: Table, tape: seq<AuditEntry>, log: Log, entry: AuditEntry, fault: Fault)
    requires Holds(table, tape) && Prefix(log, tape)
    ensures AppendEffect(table, log, entry, fault).answer == Some(Ok(entry.id)) <==>
            && fault.NoFault? && log.entries == tape && |tape| <= I64_MAX
            && forall i :: 0 <= i < |tape| ==> tape[i].id != entry.id
  {
    var e := Stamp(log, entry);
    if log.entries != tape {
      assert RowFor(tape[|log.entries|]) in table;
    }
    forall i | 0 <= i < |tape| && tape[i].id == entry.id ensures !Insertable(table, RowFor(e)) {
      assert RowFor(tape[i]) in table;
    }
  }

  /** An acknowledged append leaves memory as the plain in-memory append would, and equal to the new tape. */
  lemma AckedAppendIsAppend(table: Table, tape: seq<AuditEntry>, log: Log, entry: AuditEntry)
    requires Holds(table, tape) && Prefix(log, tape)
    requires AppendEffect(table, log, entry, NoFault).answer == Some(Ok(entry.id))
    ensures AppendEffect(table, log, entry, NoFault).log == Some(AppendTo(log, entry))
    ensures AppendTo(log, entry).entries == tape + [Stamp(log, entry)]
  {
    AppendAckedIff(table, tape, log, entry, NoFault);
  }

  /** A handle that another writer has overtaken changes nothing and is told so. */
  lemma StaleAppendRefused(table: Table, tape: seq<AuditEntry>, log: Log, entry: AuditEntry, fault: Fault)
    requires Holds(table, tape) && Prefix(log, tape) && log.entries != tape
    ensures AppendEffect(table, log, entry, fault).table == table
    ensures !fault.CrashBefore? ==>
            AppendEffect(table, log, entry, fault) == Appended(table, Some(log), Some(Err(Sqlite)))
  {
    assert RowFor(tape[|log.entries|]) in table;
  }

  /** Every refused append, whatever the reason, leaves table and memory as they were: no sequence number is
      consumed. */
  lemma RefusedAppendChangesNothing(table: Table, log: Log, entry: AuditEntry, fault: Fault)
    ensures var r := AppendEffect(table, log, entry, fault);
            r.answer.Some? && r.answer.value.Err? ==> r.table == table && r.log == Some(log)
  {}

  // ---------------------------------------------------------------- the whole system

  datatype Deployment = Deployment(table: Table, handles: map<nat, Log>)

  datatype Event =
    | Open(handle: nat)
    | Reload(handle: nat)
    | Append(handle: nat, entry: AuditEntry, fault: Fault)
    | Close(handle: nat)

  ghost function Step(s: Deployment, ev: Event): Deployment {
    match ev
    case Open(h) =>
      var loaded := LoadedFrom(s.table);
      if loaded.result.Ok? then s.(handles := s.handles[h := loaded.log]) else s
    case Reload(h) =>
      if h in s.handles then s.(handles := s.handles[h := LoadedFrom(s.table).log]) else s
    case Append(h, entry, fault) =>
      if h !in s.handles then s
      else
        var r := AppendEffect(s.table, s.handles[h], entry, fault);
        Deployment(r.table, if r.log.Some? then s.handles[h := r.log.value] else s.handles - {h})
    case Close(h) => s.(handles := s.handles - {h})
  }

  /** The entry that `ev` acknowledges to its caller. */
  function Acknowledged(s: Deployment, ev: Event): Option<AuditEntry> {
    if ev.Append? && ev.handle in s.handles then
      var r := AppendEffect(s.table, s.handles[ev.handle], ev.entry, ev.fault);
      if r.answer.Some? && r.answer.value.Ok? then Some(Stamp(s.handles[ev.handle], ev.entry)) else None
    else None
  }

  ghost predicate Inv(s: Deployment, tape: seq<AuditEntry>) {
    Holds(s.table, tape) && forall h :: h in s.handles ==> Prefix(s.handles[h], tape)
  }

  /** The tape after `ev`: one entry longer when its row reached the table. */
  ghost function TapeAfter(s: Deployment, tape: seq<AuditEntry>, ev: Event): seq<AuditEntry> {
    if ev.Append? && ev.handle in s.handles
       && AppendEffect(s.table, s.handles[ev.handle], ev.entry, ev.fault).table != s.table
    then tape + [Stamp(s.handles[ev.handle], ev.entry)] else tape
  }

  lemma HoldsNext(table: Table, tape: seq<AuditEntry>, e: AuditEntry)
    requires Holds(table, tape) && e.sequence == |tape| && |tape| <= I64_MAX && Insertable(table, RowFor(e))
    ensures Holds(table + {RowFor(e)}, tape + [e])
  {
    var tape' := tape + [e];
    forall i, j | 0 <= i < j < |tape'| ensures tape'[i].id != tape'[j].id {
      if j == |tape| { assert RowFor(tape[i]) in table; }
    }
  }

  /** One append by one handle: what reached the table extends the tape, and the handle still remembers a prefix. */
  lemma AppendKeeps(table: Table, tape: seq<AuditEntry>, log: Log, entry: AuditEntry, fault: Fault)
    requires Holds(table, tape) && Prefix(log, tape)
    ensures var r := AppendEffect(table, log, entry, fault);
            var tape' := if r.table != table then tape + [Stamp(log, entry)] else tape;
            && Holds(r.table, tape')
            && (r.log.Some? ==> Prefix(r.log.value, tape'))
            && (r.answer.Some? && r.answer.value.Ok? ==> r.table != table && Stamp(log, entry).sequence == |tape|)
  {
    var e := Stamp(log, entry);
    if log.entries != tape {
      StaleAppendRefused(table, tape, log, entry, fault);
    } else if e.sequence <= I64_MAX && Insertable(table, RowFor(e)) {
      HoldsNext(table, tape, e);
      assert RowFor(e) !in table;
      hide Holds;
    }
  }

  lemma StepInv(s: Deployment, tape: seq<AuditEntry>, ev: Event)
    requires Inv(s, tape)
    ensures Inv(Step(s, ev), TapeAfter(s, tape, ev))
    ensures tape <= TapeAfter(s, tape, ev)
    ensures Acknowledged(s, ev).Some? ==> TapeAfter(s, tape, ev) == tape + [Acknowledged(s, ev).value]
    ensures Acknowledged(s, ev).Some? ==> Acknowledged(s, ev).value.sequence == |tape|
  {
    hide Holds, AppendEffect, LoadedFrom;
    match ev
    case Open(h) => ReloadSucceeds(s.table, tape);
    case Reload(h) => ReloadSucceeds(s.table, tape);
    case Close(h) =>
    case Append(h, entry, fault) =>
      if h in s.handles {
        AppendKeeps(s.table, tape, s.handles[h], entry, fault);
      }
  }

  /** What an event does to the handles: an open or a reload brings the whole tape into one handle, a close or a
      crash ends one, an append leaves it with what it remembered or one entry more, and no other handle changes. */
  lemma EventEffects(s: Deployment, tape: seq<AuditEntry>, ev: Event)
    requires Inv(s, tape)
    ensures var s', h := Step(s, ev), ev.handle;
            && (forall k :: k != h ==> (k in s'.handles <==> k in s.handles))
            && (forall k :: k != h && k in s.handles ==> s'.handles[k] == s.handles[k])
            && (!ev.Append? ==> s'.table == s.table)
            && (ev.Open? || (ev.Reload? && h in s.handles) ==> h in s'.handles && s'.handles[h] == Log(tape, |tape|))
            && (ev.Close? || (ev.Reload? && h !in s.handles) ==> h !in s'.handles)
            && (ev.Append? && h !in s.handles ==> s' == s)
            && (ev.Append? && h in s.handles ==>
                  var r := AppendEffect(s.table, s.handles[h], ev.entry, ev.fault);
                  && s'.table == r.table && (h in s'.handles <==> r.log.Some?)
                  && (h in s'.handles ==> Some(s'.handles[h]) == r.log))
  {
    hide AppendEffect, LoadedFrom, Prefix;
    InvReloads(s, tape);
  }

  ghost function Run(s: Deployment, events: seq<Event>): Deployment {
    if events == [] then s else Step(Run(s, events[..|events| - 1]), events[|events| - 1])
  }

  ghost function TapeOf(s: Deployment, tape: seq<AuditEntry>, events: seq<Event>): seq<AuditEntry> {
    if events == [] then tape
    else TapeAfter(Run(s, events[..|events| - 1]), TapeOf(s, tape, events[..|events| - 1]), events[|events| - 1])
  }

  /** Everything acknowledged along a run, in order. */
  ghost function Acks(s: Deployment, events: seq<Event>): seq<AuditEntry> {
    if events == [] then []
    else
      var front := events[..|events| - 1];
      var ack := Acknowledged(Run(s, front), events[|events| - 1]);
      if ack.Some? then Acks(s, front) + [ack.value] else Acks(s, front)
  }

  /** `ev` is an append that answers with an error. */
  ghost predicate Refused(s: Deployment, ev: Event) {
    ev.Append? && ev.handle in s.handles &&
    var answer := AppendEffect(s.table, s.handles[ev.handle], ev.entry, ev.fault).answer;
    answer.Some? && answer.value.Err?
  }

  lemma RefusedStep(s: Deployment, ev: Event)
    requires Refused(s, ev)
    ensures Step(s, ev) == s && Acknowledged(s, ev) == None
  {
    RefusedAppendChangesNothing(s.table, s.handles[ev.handle], ev.entry, ev.fault);
    hide AppendEffect;
    assert s.handles[ev.handle := s.handles[ev.handle]] == s.handles;
  }

  /** A refused append may be struck from any history: retrying is as good as never having tried. */
  lemma {:induction false} RefusedErased(s: Deployment, before: seq<Event>, ev: Event, later: seq<Event>)
    requires Refused(Run(s, before), ev)
    ensures Run(s, before + [ev] + later) == Run(s, before + later)
    ensures Acks(s, before + [ev] + later) == Acks(s, before + later)
    decreases |later|
  {
    hide Refused, Step, Acknowledged, Run, Acks;
    if later == [] {
      RefusedStep(Run(s, before), ev);
      RunNext(s, before, ev);
      assert before + [ev] + later == before + [ev] && before + later == before;
    } else {
      var front, last := later[..|later| - 1], later[|later| - 1];
      assert later == front + [last];
      RefusedErased(s, before, ev, front);
      RunNext(s, before + [ev] + front, last);
      RunNext(s, before + front, last);
      assert before + [ev] + later == before + [ev] + front + [last] && before + later == before + front + [last];
    }
  }

  lemma RunNext(s: Deployment, events: seq<Event>, ev: Event)
    ensures Run(s, events + [ev]) == Step(Run(s, events), ev)
    ensures var ack := Acknowledged(Run(s, events), ev);
            Acks(s, events + [ev]) == Acks(s, events) + if ack.Some? then [ack.value] else []
  {
    hide Step, Acknowledged;
    assert (events + [ev])[..|events|] == events;
  }

  /** Every acknowledged entry sits on the tape under its number, and later acknowledgements have larger numbers. */
  ghost predicate Survive(acks: seq<AuditEntry>, tape: seq<AuditEntry>) {
    && (forall i :: 0 <= i < |acks| ==> acks[i].sequence < |tape| && tape[acks[i].sequence] == acks[i])
    && forall i, j :: 0 <= i < j < |acks| ==> acks[i].sequence < acks[j].sequence
  }

  lemma SurviveNext(acks: seq<AuditEntry>, tape: seq<AuditEntry>, ack: Option<AuditEntry>, tape': seq<AuditEntry>)
    requires Survive(acks, tape) && tape <= tape'
    requires ack.Some? ==> tape' == tape + [ack.value] && ack.value.sequence == |tape|
    ensures Survive(if ack.Some? then acks + [ack.value] else acks, tape')
  {}

  lemma InvReloads(s: Deployment, tape: seq<AuditEntry>)
    requires Inv(s, tape)
    ensures LoadedFrom(s.table) == Loaded(Log(tape, |tape|), Ok(()))
  {
    ReloadSucceeds(s.table, tape);
  }

  /** Safety over every interleaving of appends, failed writes, crashes, opens, reloads and closes. */
  lemma {:induction false} RunSafe(s: Deployment, tape: seq<AuditEntry>, events: seq<Event>)
    requires Inv(s, tape)
    ensures Inv(Run(s, events), TapeOf(s, tape, events))
    ensures tape <= TapeOf(s, tape, events)
    ensures Survive(Acks(s, events), TapeOf(s, tape, events))
    ensures LoadedFrom(Run(s, events).table) == Loaded(Log(TapeOf(s, tape, events), |TapeOf(s, tape, events)|), Ok(()))
  {
    hide Inv, Step, Acknowledged, TapeAfter, LoadedFrom;
    if events != [] {
      var front, ev := events[..|events| - 1], events[|events| - 1];
      RunSafe(s, tape, front);
      hide Survive;
      StepInv(Run(s, front), TapeOf(s, tape, front), ev);
      SurviveNext(Acks(s, front), TapeOf(s, tape, front), Acknowledged(Run(s, front), ev), TapeOf(s, tape, events));
    }
    InvReloads(Run(s, events), TapeOf(s, tape, events));
  }

  const FRESH := Deployment({}, map[])

  /** From a fresh database: whatever happens, the disk holds one sequence of entries numbered from 0 that every
      handle remembers a prefix of, every acknowledgement survives on it, and reload brings back all of it. */
  lemma FreshRunSafe(events: seq<Event>)
    ensures var s, tape := Run(FRESH, events), TapeOf(FRESH, [], events);
            && Holds(s.table, tape) && (forall h :: h in s.handles ==> Prefix(s.handles[h], tape))
            && Survive(Acks(FRESH, events), tape)
            && LoadedFrom(s.table) == Loaded(Log(tape, |tape|), Ok(()))
  {
    assert Holds(FRESH.table, []);
    hide Run, TapeOf, Holds, Prefix, Survive, Acks, LoadedFrom;
    RunSafe(FRESH, [], events);
  }

  // ---------------------------------------------------------------- the objects

  class Database {
    var rows: Table

    constructor ()
      ensures rows == {}
    {
      rows := {};
    }

    /** `INSERT`, refused on a key conflict or an I/O error. */
    method Insert(row: Row, ioOk: bool) returns (ok: bool)
      modifies this
      ensures ok <==> ioOk && Insertable(old(rows), row)
      ensures rows == if ok then old(rows) + {row} else old(rows)
      ensures Keyed(old(rows)) ==> Keyed(rows)
    {
      ok := ioOk && forall r :: r in rows ==> r.id != row.id && r.sequence != row.sequence;
      if ok { rows := rows + {row}; }
    }

    method SelectInOrder() returns (out: seq<Row>)
      requires Keyed(rows)
      ensures out == InOrder(rows)
    {
      hide InOrder, Keyed;
      out := [];
      var rest := rows;
      NothingInOrder();
      while rest != {}
        invariant rest <= rows
        invariant InOrder(rows) == out + InOrder(rest)
        decreases rest
      {
        ghost var first := FirstExists(rest);
        var r :| r in rest && forall s :: s in rest ==> r.sequence <= s.sequence;
        FirstUnique(rows, rest, r);
        out := out + [r];
        rest := rest - {r};
      }
    }
  }

  class PersistentAuditLog {
    var log: AuditLog
    const db: Database

    ghost predicate Valid()
      reads this, log, db
    {
      log.Valid() && Keyed(db.rows)
    }

    constructor (db: Database)
      requires Keyed(db.rows)
      ensures Valid() && this.db == db && fresh(log)
      ensures log.View() == EMPTY_LOG
    {
      this.db := db;
      this.log := new AuditLog();
    }

    method LoadAll() returns (r: Result<(), AuditError>)
      requires Valid()
      modifies this
      ensures Valid() && fresh(log)
      ensures Loaded(log.View(), r) == LoadedFrom(db.rows)
    {
      var rows := db.SelectInOrder();
      log := new AuditLog();
      for i := 0 to |rows|
        invariant Valid() && fresh(log)
        invariant LoadRows(rows, EMPTY_LOG) == LoadRows(rows[i..], log.View())
      {
        assert rows[i..][0] == rows[i] && rows[i..][1..] == rows[i + 1..];
        var entry := rows[i].payload;
        if entry.id != rows[i].id || rows[i].sequence < 0 || rows[i].sequence != entry.sequence {
          return Err(RowMismatch);
        }
        var replayed := log.ReplayPersisted(entry);
        if replayed.Err? {
          return Err(replayed.error);
        }
      }
      return Ok(());
    }

    /** Persist first, commit second. */
    method Append(entry: AuditEntry, ioOk: bool) returns (r: Result<EntryId, AuditError>)
      requires Valid()
      modifies log, db
      ensures Valid()
      ensures Appended(db.rows, Some(log.View()), Some(r))
           == AppendEffect(old(db.rows), old(log.View()), entry, if ioOk then NoFault else WriteFails)
    {
      var stamped := entry.(sequence := log.nextSequence);
      if stamped.sequence > I64_MAX {
        return Err(SequenceOverflow);
      }
      var written := db.Insert(Row(stamped.id, stamped.sequence, stamped), ioOk);
      if !written {
        return Err(Sqlite);
      }
      var replayed := log.ReplayPersisted(stamped);
      return Ok(stamped.id);
    }
  }

  /** `open`: a new handle, rehydrated from the table. */
  method OpenLog(db: Database) returns (handle: PersistentAuditLog, r: Result<(), AuditError>)
    requires Keyed(db.rows)
    ensures fresh(handle) && handle.Valid() && handle.db == db
    ensures Loaded(handle.log.View(), r) == LoadedFrom(db.rows)
  {
    handle := new PersistentAuditLog(db);
    r := handle.LoadAll();
  }
}
