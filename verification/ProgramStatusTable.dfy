/** The record table as the program keeps it: one vector, updated in place. */
module ProgramStatusTable {
  import opened Wrappers
  import opened Text
  import opened ProgramStatus
  import opened ProgramTables
  import opened ProgramTableRuns

  class Table {
    var entries: Entries

    constructor ()
      ensures entries == []
    {
      entries := [];
    }

    method ApplyReport(report: Report)
      modifies this
      ensures entries == Step(old(entries), Apply(report))
    {
      match report
      case Set(id, record) => PutRecord(id, record);
      case Clear(id) =>
        if id == "" {
          entries := [];
        } else {
          entries := Filter(entries, OutsideSubtree(id));
        }
    }

    method StartPrompt() returns (removed: bool)
      modifies this
      ensures entries == Step(old(entries), PromptStart)
      ensures removed <==> exists e :: e in old(entries) && e !in entries
    {
      ghost var was := entries;
      var before := |entries|;
      entries := Filter(entries, SurvivesPrompt);
      removed := |entries| != before;
      if !removed {
        SameLength(was, SurvivesPrompt);
      } else if forall e :: e in was ==> e in entries {
        AllKept(was, SurvivesPrompt);
      }
    }

    method ResetAll() returns (existed: bool)
      modifies this
      ensures entries == Step(old(entries), Reset)
      ensures existed <==> old(entries) != []
    {
      existed := entries != [];
      entries := [];
    }

    method PutRecord(id: string, record: Record)
      modifies this
      ensures entries == Put(old(entries), id, record)
    {
      var pos := Position(entries, id);
      if pos.Some? {
        entries := entries[..pos.value] + entries[pos.value + 1..];
      } else if |entries| >= MAX_RECORDS {
        entries := entries[1..];
      }
      entries := entries + [Entry(id, record)];
    }

    method Summarize() returns (r: Option<Summary>)
      ensures r == SummaryOf(entries)
    {
      var deciding: Option<Entry> := None;
      for i := 0 to |entries|
        invariant deciding == if i == 0 then None else Some(entries[Deciding(entries[..i])])
      {
        var e := entries[i];
        assert entries[..i + 1][..i] == entries[..i];
        if deciding.None? || e.record.state.Rank() >= deciding.value.record.state.Rank() {
          deciding := Some(e);
        }
      }
      assert entries[..|entries|] == entries;
      if deciding.None? {
        return None;
      }
      var app := EffectiveApp(deciding.value);
      var record := deciding.value.record;
      return Some(Summary(record.state, ShownTitle(record.title), app));
    }

    method EffectiveApp(e: Entry) returns (r: Option<string>)
      ensures r == EffectiveAppOf(entries, e)
    {
      if e.record.app.Some? {
        return e.record.app;
      }
      var id := e.id;
      while id != ""
        invariant FirstApp(entries, Ancestors(e.id)) == FirstApp(entries, Ancestors(id))
        decreases |id|
      {
        var slash := LastIndexOf(id, '/');
        id := if slash.Some? then id[..slash.value] else "";
        var record := Get(entries, id);
        if record.Some? && record.value.app.Some? {
          return record.value.app;
        }
      }
      return None;
    }

    static method Import(records: seq<ExportedRecord>) returns (table: Table)
      ensures fresh(table) && table.entries == ImportOf(records)
    {
      table := new Table();
      for i := 0 to |records|
        invariant fresh(table) && table.entries == ImportOf(records[..i])
      {
        ImportOneMore(records, i);
        var valid := ValidEntry(records[i]);
        if valid.Some? {
          table.PutRecord(valid.value.id, valid.value.record);
        }
      }
      assert records[..|records|] == records;
    }

    /** Exported and rebuilt in the next process: the same table, order included, exactly when its ids
        are unique, its count within the limit and its records storable. */
    method HandOver() returns (table: Table)
      ensures fresh(table) && table.entries == ImportOf(ExportOf(entries))
      ensures table.entries == entries <==> Bounded(entries) && AllStorable(entries)
    {
      table := Import(ExportOf(entries));
      ImportExport(entries);
    }
  }

  lemma {:induction false} SameLength<T>(s: seq<T>, keep: T -> bool)
    requires |Filter(s, keep)| == |s|
    ensures Filter(s, keep) == s
  {
    if s != [] && keep(s[0]) {
      SameLength(s[1..], keep);
    }
  }

  lemma {:induction false} AllKept<T>(s: seq<T>, keep: T -> bool)
    requires forall x :: x in s ==> x in Filter(s, keep)
    ensures Filter(s, keep) == s
  {
    forall i | 0 <= i < |s|
      ensures keep(s[i])
    {
      FilterHas(s, keep, s[i]);
    }
    FilterAll(s, keep);
  }
}
