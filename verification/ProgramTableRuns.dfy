/** What every run of the record table keeps, and what export and import preserve. */
module ProgramTableRuns {
  import opened Wrappers
  import opened Text
  import opened ProgramStatus
  import opened ProgramTables

  // ----- runs -----

  datatype Op = Apply(report: Report) | PromptStart | Reset

  function Step(entries: Entries, op: Op): Entries {
    match op
    case Apply(report) => Applied(entries, report)
    case PromptStart => PromptStarted(entries)
    case Reset => []
  }

  function Run(entries: Entries, ops: seq<Op>): Entries {
    if ops == [] then entries else Step(Run(entries, ops[..|ops| - 1]), ops[|ops| - 1])
  }

  function PutAll(entries: Entries, history: Entries): Entries {
    if history == [] then entries
    else
      var last := history[|history| - 1];
      Put(PutAll(entries, history[..|history| - 1]), last.id, last.record)
  }

  // ----- ids stay unique and the table stays bounded -----

  ghost predicate Bounded(entries: Entries) {
    Unique(entries) && |entries| <= MAX_RECORDS
  }

  lemma {:induction false} FilterUnique(entries: Entries, keep: Entry -> bool)
    requires Unique(entries)
    ensures Unique(Filter(entries, keep))
  {
    if entries != [] {
      assert Unique(entries[1..]);
      FilterUnique(entries[1..], keep);
      var rest := Filter(entries[1..], keep);
      forall i | 0 <= i < |rest|
        ensures rest[i].id != entries[0].id
      {
        assert rest[i] in entries[1..];
      }
    }
  }

  lemma {:induction false} PutBounded(entries: Entries, id: string, record: Record)
    requires Bounded(entries)
    ensures Bounded(Put(entries, id, record))
  {
  }

  lemma {:induction false} StepBounded(entries: Entries, op: Op)
    requires Bounded(entries)
    ensures Bounded(Step(entries, op))
  {
    match op
    case Apply(Set(id, record)) => PutBounded(entries, id, record);
    case Apply(Clear(id)) => FilterUnique(entries, OutsideSubtree(id));
    case PromptStart => FilterUnique(entries, SurvivesPrompt);
    case Reset =>
  }

  /** Whatever reports arrive, valid or not, ids stay unique and the count within the limit. */
  lemma {:induction false} RunBounded(entries: Entries, ops: seq<Op>)
    requires Bounded(entries)
    ensures Bounded(Run(entries, ops))
  {
    if ops != [] {
      RunBounded(entries, ops[..|ops| - 1]);
      StepBounded(Run(entries, ops[..|ops| - 1]), ops[|ops| - 1]);
    }
  }

  // ----- least recently updated -----

  predicate HasId(entries: Entries, id: string) {
    exists i :: 0 <= i < |entries| && entries[i].id == id
  }

  /** The entries that no later one with the same id replaces. */
  function Latest(history: Entries): Entries {
    if history == [] then []
    else
      var rest := Latest(history[1..]);
      if HasId(history[1..], history[0].id) then rest else [history[0]] + rest
  }

  function Last<T>(s: seq<T>, n: nat): seq<T> {
    if |s| <= n then s else s[|s| - n..]
  }

  function Removed(entries: Entries, id: string): Entries {
    match Position(entries, id)
    case Some(pos) => entries[..pos] + entries[pos + 1..]
    case None => entries
  }

  lemma {:induction false} LatestIds(history: Entries)
    ensures Unique(Latest(history))
    ensures forall e :: e in Latest(history) ==> e in history
  {
    if history != [] {
      LatestIds(history[1..]);
      var rest := Latest(history[1..]);
      if !HasId(history[1..], history[0].id) {
        forall i | 0 <= i < |rest|
          ensures rest[i].id != history[0].id
        {
          assert rest[i] in history[1..];
        }
      }
    }
  }

  /** One more update moves its id to the end. */
  lemma {:induction false} LatestGrows(history: Entries, e: Entry)
    ensures Latest(history + [e]) == Removed(Latest(history), e.id) + [e]
  {
    if history == [] {
      assert [] + [e] == [e];
    } else {
      var first, t := history[0], history[1..];
      LatestGrows(t, e);
      assert (history + [e])[1..] == t + [e];
      HasIdGrows(t, e, first.id);
      if !HasId(t, first.id) {
        RemovedFrom(first, Latest(t), e.id);
        if first.id == e.id {
          NotInLatest(t, e.id);
        }
      }
    }
  }

  lemma {:induction false} HasIdGrows(t: Entries, e: Entry, id: string)
    ensures HasId(t + [e], id) <==> HasId(t, id) || e.id == id
  {
    if HasId(t, id) {
      var i :| 0 <= i < |t| && t[i].id == id;
      assert (t + [e])[i].id == id;
    }
    assert (t + [e])[|t|] == e;
  }

  lemma {:induction false} PositionFrom(first: Entry, rest: Entries, id: string)
    ensures Position([first] + rest, id)
            == if first.id == id then Some(0)
               else if Position(rest, id).Some? then Some(Position(rest, id).value + 1)
               else None
  {
    assert ([first] + rest)[1..] == rest;
  }

  lemma {:induction false} RemovedFrom(first: Entry, rest: Entries, id: string)
    ensures Removed([first] + rest, id) == if first.id == id then rest else [first] + Removed(rest, id)
  {
    PositionFrom(first, rest, id);
    var pos := Position(rest, id);
    if first.id != id && pos.Some? {
      CutAt([first], rest, pos.value);
    }
  }

  /** Removing one element of a tail. */
  lemma {:induction false} CutAt<T>(a: seq<T>, b: seq<T>, k: nat)
    requires k < |b|
    ensures (a + b)[..|a| + k] + (a + b)[|a| + k + 1..] == a + (b[..k] + b[k + 1..])
  {
  }

  lemma {:induction false} NotInLatest(t: Entries, id: string)
    requires !HasId(t, id)
    ensures Removed(Latest(t), id) == Latest(t)
  {
    LatestIds(t);
    forall i | 0 <= i < |Latest(t)|
      ensures Latest(t)[i].id != id
    {
      assert Latest(t)[i] in t;
    }
  }

  /** `t` is the last 256 of `a + t`. */
  predicate IsWindow(a: Entries, t: Entries) {
    |t| == MAX_RECORDS || (a == [] && |t| < MAX_RECORDS)
  }

  lemma {:induction false} PutKnown(a: Entries, t: Entries, e: Entry)
    requires Unique(a + t) && IsWindow(a, t) && Position(t, e.id).Some?
    ensures Put(t, e.id, e.record) == Last(Removed(a + t, e.id) + [e], MAX_RECORDS)
  {
    var q := Position(t, e.id).value;
    var kept := t[..q] + t[q + 1..];
    PositionInTail(a, t, e.id);
    CutAt(a, t, q);
    LastOf(a, kept + [e], a + kept + [e]);
  }

  lemma {:induction false} PutEvicted(a: Entries, t: Entries, e: Entry)
    requires Unique(a + t) && IsWindow(a, t) && Position(t, e.id).None? && Position(a, e.id).Some?
    ensures Put(t, e.id, e.record) == Last(Removed(a + t, e.id) + [e], MAX_RECORDS)
  {
    var p := Position(a, e.id).value;
    var kept := a[..p] + a[p + 1..];
    PositionInHead(a, t, e.id);
    CutFirst(a, t, p);
    LastOf(kept + [t[0]], t[1..] + [e], kept + t + [e]);
  }

  lemma {:induction false} PutNew(a: Entries, t: Entries, e: Entry)
    requires Unique(a + t) && IsWindow(a, t) && Position(t, e.id).None? && Position(a, e.id).None?
    ensures Put(t, e.id, e.record) == Last(Removed(a + t, e.id) + [e], MAX_RECORDS)
  {
    PositionInHead(a, t, e.id);
    if |t| < MAX_RECORDS {
      LastOf([], t + [e], a + t + [e]);
    } else {
      LastOf(a + [t[0]], t[1..] + [e], a + t + [e]);
    }
  }

  /** Putting into the last 256 of a list is appending to the list and taking the last 256 again. */
  lemma {:induction false} PutIntoLast(d: Entries, e: Entry)
    requires Unique(d)
    ensures Put(Last(d, MAX_RECORDS), e.id, e.record) == Last(Removed(d, e.id) + [e], MAX_RECORDS)
  {
    var t := Last(d, MAX_RECORDS);
    var a := d[..|d| - |t|];
    assert d == a + t;
    if Position(t, e.id).Some? {
      PutKnown(a, t, e);
    } else if Position(a, e.id).Some? {
      PutEvicted(a, t, e);
    } else {
      PutNew(a, t, e);
    }
  }

  lemma {:induction false} PositionInTail(a: Entries, t: Entries, id: string)
    requires Unique(a + t) && Position(t, id).Some?
    ensures Position(a + t, id) == Some(|a| + Position(t, id).value)
  {
    var d := a + t;
    assert d[|a| + Position(t, id).value] == t[Position(t, id).value];
  }

  lemma {:induction false} PositionInHead(a: Entries, t: Entries, id: string)
    requires Position(t, id).None?
    ensures Position(a + t, id) == Position(a, id)
  {
    if a == [] {
      assert a + t == t;
    } else {
      assert (a + t)[1..] == a[1..] + t;
      PositionInHead(a[1..], t, id);
    }
  }

  lemma {:induction false} CutFirst<T>(a: seq<T>, b: seq<T>, k: nat)
    requires k < |a|
    ensures (a + b)[..k] + (a + b)[k + 1..] == a[..k] + a[k + 1..] + b
  {
  }

  lemma {:induction false} LastOf(a: Entries, t: Entries, all: Entries)
    requires all == a + t && IsWindow(a, t)
    ensures Last(all, MAX_RECORDS) == t
  {
  }

  /** After any history of sets the table is the last 256 distinct ids of it, ordered by last update,
      each with its last record. */
  lemma {:induction false} TableIsLatest(history: Entries)
    ensures PutAll([], history) == Last(Latest(history), MAX_RECORDS)
  {
    if history != [] {
      var init, e := history[..|history| - 1], history[|history| - 1];
      TableIsLatest(init);
      assert history == init + [e];
      LatestGrows(init, e);
      LatestIds(init);
      PutIntoLast(Latest(init), e);
    }
  }

  function Sets(history: Entries): seq<Op> {
    seq(|history|, i requires 0 <= i < |history| => Apply(Set(history[i].id, history[i].record)))
  }

  lemma {:induction false} SetsAreLatest(history: Entries)
    ensures Run([], Sets(history)) == Last(Latest(history), MAX_RECORDS)
  {
    SetsArePuts(history);
    TableIsLatest(history);
  }

  lemma {:induction false} SetsArePuts(history: Entries)
    ensures Run([], Sets(history)) == PutAll([], history)
  {
    if history != [] {
      var init := history[..|history| - 1];
      SetsArePuts(init);
      assert Sets(history)[..|history| - 1] == Sets(init);
    }
  }

  // ----- export and import -----

  function ExportOf(entries: Entries): seq<ExportedRecord> {
    seq(|entries|, i requires 0 <= i < |entries| => Exported(entries[i].id, entries[i].record))
  }

  /** The results of those elements that have one, in order. */
  function Collect<X, E>(xs: seq<X>, valid: X -> Option<E>): seq<E> {
    if xs == [] then []
    else
      var v := valid(xs[|xs| - 1]);
      Collect(xs[..|xs| - 1], valid) + if v.Some? then [v.value] else []
  }

  lemma {:induction false} CollectAll<X, E>(xs: seq<X>, valid: X -> Option<E>, es: seq<E>)
    requires |xs| == |es| && forall i :: 0 <= i < |xs| ==> valid(xs[i]) == Some(es[i])
    ensures Collect(xs, valid) == es
  {
    if xs != [] {
      CollectAll(xs[..|xs| - 1], valid, es[..|es| - 1]);
      assert es == es[..|es| - 1] + [es[|es| - 1]];
    }
  }

  lemma {:induction false} CollectedFrom<X, E>(xs: seq<X>, valid: X -> Option<E>, e: E)
    requires e in Collect(xs, valid)
    ensures exists x :: x in xs && valid(x) == Some(e)
  {
    var init, last := xs[..|xs| - 1], xs[|xs| - 1];
    if e in Collect(init, valid) {
      CollectedFrom(init, valid, e);
    } else {
      assert last in xs && valid(last) == Some(e);
    }
  }

  lemma {:induction false} CollectOneMore<X, E>(xs: seq<X>, valid: X -> Option<E>, i: nat)
    requires i < |xs|
    ensures Collect(xs[..i + 1], valid)
            == Collect(xs[..i], valid) + if valid(xs[i]).Some? then [valid(xs[i]).value] else []
  {
    assert xs[..i + 1][..i] == xs[..i];
  }

  function ValidEntry(x: ExportedRecord): Option<Entry> {
    var (id, record) :- Validated(x);
    Some(Entry(id, record))
  }

  function ValidEntries(records: seq<ExportedRecord>): Entries {
    Collect(records, ValidEntry)
  }

  function ImportOf(records: seq<ExportedRecord>): Entries {
    PutAll([], ValidEntries(records))
  }

  lemma {:induction false} PutOneMore(history: Entries, e: Entry)
    ensures PutAll([], history + [e]) == Put(PutAll([], history), e.id, e.record)
  {
    assert (history + [e])[..|history|] == history;
  }

  lemma {:induction false} ImportOneMore(records: seq<ExportedRecord>, i: nat)
    requires i < |records|
    ensures var v := ValidEntry(records[i]);
      ImportOf(records[..i + 1])
      == if v.Some? then Put(ImportOf(records[..i]), v.value.id, v.value.record) else ImportOf(records[..i])
  {
    var v, history := ValidEntry(records[i]), ValidEntries(records[..i]);
    CollectOneMore(records, ValidEntry, i);
    if v.Some? {
      PutOneMore(history, v.value);
    } else {
      assert history + [] == history;
    }
  }

  /** Importing any list keeps the last 256 distinct ids among its valid records. */
  lemma {:induction false} ImportIsLatest(records: seq<ExportedRecord>)
    ensures ImportOf(records) == Last(Latest(ValidEntries(records)), MAX_RECORDS)
  {
    TableIsLatest(ValidEntries(records));
  }

  ghost predicate AllStorable(entries: Entries) {
    forall e :: e in entries ==> ValidKey(e.id) && Storable(e.record)
  }

  lemma {:induction false} ExportIsValid(entries: Entries)
    requires AllStorable(entries)
    ensures ValidEntries(ExportOf(entries)) == entries
  {
    var records := ExportOf(entries);
    forall i | 0 <= i < |entries|
      ensures ValidEntry(records[i]) == Some(entries[i])
    {
      assert entries[i] in entries;
      ValidatedExactly(entries[i].id, entries[i].record);
    }
    CollectAll(records, ValidEntry, entries);
  }

  lemma {:induction false} UniqueIsLatest(entries: Entries)
    requires Unique(entries)
    ensures Latest(entries) == entries
  {
    if entries != [] {
      UniqueIsLatest(entries[1..]);
    }
  }

  /** Import undoes export, order included, exactly on the tables whose ids are unique, whose count is
      within the limit and whose records could have been stored. */
  lemma {:induction false} ImportExport(entries: Entries)
    ensures ImportOf(ExportOf(entries)) == entries <==> Bounded(entries) && AllStorable(entries)
  {
    var records := ExportOf(entries);
    ImportIsLatest(records);
    if Bounded(entries) && AllStorable(entries) {
      ExportIsValid(entries);
      UniqueIsLatest(entries);
    }
    if ImportOf(records) == entries {
      LatestIds(ValidEntries(records));
      ValidEntriesStorable(records);
    }
  }

  lemma {:induction false} ValidEntriesStorable(records: seq<ExportedRecord>)
    ensures AllStorable(ValidEntries(records))
  {
    forall e | e in ValidEntries(records)
      ensures ValidKey(e.id) && Storable(e.record)
    {
      CollectedFrom(records, ValidEntry, e);
      var x :| x in records && ValidEntry(x) == Some(e);
      ValidatedIsStorable(x);
    }
  }

  // ----- from the wire -----

  datatype Input = Body(bytes: seq<byte>, receivedLen: nat, terminator: Terminator) | LivePrompt | FullReset

  /** What a terminal does with its inputs: accepted reports are applied, queries and ignored bodies
      change nothing. */
  function Fed(base64: Base64, entries: Entries, inputs: seq<Input>): Entries {
    if inputs == [] then entries
    else
      var before := Fed(base64, entries, inputs[..|inputs| - 1]);
      match inputs[|inputs| - 1]
      case Body(bytes, len, terminator) =>
        (match ParsedOf(base64, bytes, len, terminator)
         case Accepted(report) => Applied(before, report)
         case _ => before)
      case LivePrompt => PromptStarted(before)
      case FullReset => []
  }

  lemma {:induction false} AppliedHas(entries: Entries, report: Report, e: Entry)
    requires e in Applied(entries, report)
    ensures e in entries || (report.Set? && e == Entry(report.id, report.record))
  {
    if report.Clear? && report.id != "" {
      FilterHas(entries, OutsideSubtree(report.id), e);
    }
  }

  lemma {:induction false} AppliedStorable(entries: Entries, report: Report)
    requires AllStorable(entries) && ValidKey(report.id) && (report.Set? ==> Storable(report.record))
    ensures AllStorable(Applied(entries, report))
  {
    forall e | e in Applied(entries, report)
      ensures ValidKey(e.id) && Storable(e.record)
    {
      AppliedHas(entries, report, e);
    }
  }

  lemma {:induction false} FedIsStorable(base64: Base64, inputs: seq<Input>)
    ensures Bounded(Fed(base64, [], inputs)) && AllStorable(Fed(base64, [], inputs))
  {
    if inputs != [] {
      var init, last := inputs[..|inputs| - 1], inputs[|inputs| - 1];
      FedIsStorable(base64, init);
      var before := Fed(base64, [], init);
      match last
      case Body(bytes, len, terminator) =>
        var parsed := ParsedOf(base64, bytes, len, terminator);
        AcceptedIsStorable(base64, bytes, len, terminator);
        if parsed.Accepted? {
          AppliedStorable(before, parsed.report);
          StepBounded(before, Apply(parsed.report));
        }
      case LivePrompt => StepBounded(before, PromptStart);
      case FullReset =>
    }
  }

  /** Every table that inputs can produce survives the handoff unchanged, whatever base64 does. */
  lemma {:induction false} HandoffKeepsTable(base64: Base64, inputs: seq<Input>)
    ensures ImportOf(ExportOf(Fed(base64, [], inputs))) == Fed(base64, [], inputs)
  {
    FedIsStorable(base64, inputs);
    ImportExport(Fed(base64, [], inputs));
  }

  /** After a prompt start a terminal holds exactly its done and error records, unchanged. */
  lemma {:induction false} PromptReaches(base64: Base64, inputs: seq<Input>, e: Entry)
    ensures e in Fed(base64, [], inputs + [LivePrompt])
            <==> e in Fed(base64, [], inputs) && (e.record.state == Done || e.record.state == Error)
  {
    assert (inputs + [LivePrompt])[..|inputs|] == inputs;
    FilterHas(Fed(base64, [], inputs), SurvivesPrompt, e);
  }

  lemma {:induction false} FedInParts(base64: Base64, entries: Entries, a: seq<Input>, b: seq<Input>)
    ensures Fed(base64, entries, a + b) == Fed(base64, Fed(base64, entries, a), b)
    decreases |b|
  {
    if b == [] {
      assert a + b == a;
    } else {
      assert (a + b)[..|a + b| - 1] == a + b[..|b| - 1];
      FedInParts(base64, entries, a, b[..|b| - 1]);
    }
  }

  lemma {:induction false} FedOne(base64: Base64, entries: Entries, input: Input)
    ensures input.FullReset? ==> Fed(base64, entries, [input]) == []
    ensures input.Body? && !ParsedOf(base64, input.bytes, input.receivedLen, input.terminator).Accepted?
      ==> Fed(base64, entries, [input]) == entries
  {
    assert [input][..0] == [];
  }

  /** A reset forgets everything before it, and a body that is no report changes nothing, whatever comes
      after. */
  lemma {:induction false} ResetAndIgnored(base64: Base64, a: seq<Input>, input: Input, b: seq<Input>)
    ensures input.FullReset? ==> Fed(base64, [], a + [input] + b) == Fed(base64, [], b)
    ensures input.Body? && !ParsedOf(base64, input.bytes, input.receivedLen, input.terminator).Accepted?
      ==> Fed(base64, [], a + [input] + b) == Fed(base64, [], a + b)
  {
    FedInParts(base64, [], a + [input], b);
    FedInParts(base64, [], a, [input]);
    FedInParts(base64, [], a, b);
    FedOne(base64, Fed(base64, [], a), input);
  }

  lemma {:induction false} CollectBoth<X, E>(a: seq<X>, b: seq<X>, valid: X -> Option<E>)
    ensures Collect(a + b, valid) == Collect(a, valid) + Collect(b, valid)
    decreases |b|
  {
    if b == [] {
      assert a + b == a;
    } else {
      assert (a + b)[..|a + b| - 1] == a + b[..|b| - 1];
      CollectBoth(a, b[..|b| - 1], valid);
    }
  }

  /** A record that does not pass counts for nothing wherever it stands in an imported list. */
  lemma {:induction false} InvalidIsDropped(a: seq<ExportedRecord>, x: ExportedRecord, b: seq<ExportedRecord>)
    requires Validated(x).None?
    ensures ImportOf(a + [x] + b) == ImportOf(a + b)
  {
    CollectBoth(a + [x], b, ValidEntry);
    CollectBoth(a, [x], ValidEntry);
    CollectBoth(a, b, ValidEntry);
    assert [x][..0] == [];
    assert Collect(a, ValidEntry) + [] == Collect(a, ValidEntry);
  }
}
