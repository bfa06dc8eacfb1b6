/** The record table of src-tauri/src/program_status.rs: least recently updated first, at most 256
    records. */
module ProgramTables {
  import opened Wrappers
  import opened Text
  import opened ProgramStatus

  const MAX_RECORDS := 256
  const MAX_NAME_TITLE_CHARS := 80

  datatype Entry = Entry(id: string, record: Record)

  type Entries = seq<Entry>

  // ----- ids -----

  /** `id` is `root` itself or lies below it on a segment boundary. */
  predicate InSubtree(id: string, root: string) {
    id == root || (root < id && id[|root|] == '/')
  }

  function LastIndexOf(s: string, c: char): (r: Option<nat>)
    ensures r.Some? ==> r.value < |s| && s[r.value] == c && c !in s[r.value + 1..]
    ensures r.None? ==> c !in s
  {
    if s == "" then None
    else if s[|s| - 1] == c then Some(|s| - 1)
    else
      assert s == s[..|s| - 1] + [s[|s| - 1]];
      var r := LastIndexOf(s[..|s| - 1], c);
      assert r.Some? ==> s[r.value + 1..] == s[..|s| - 1][r.value + 1..] + [s[|s| - 1]];
      r
  }

  /** One step of the parent walk; the root is every id's last ancestor. */
  function Parent(id: string): (p: string)
    requires id != ""
    ensures |p| < |id|
  {
    match LastIndexOf(id, '/') case Some(slash) => id[..slash] case None => ""
  }

  /** The ids the walk visits, nearest first. */
  function Ancestors(id: string): seq<string>
    decreases |id|
  {
    if id == "" then [] else [Parent(id)] + Ancestors(Parent(id))
  }

  /** `root` is `id` or an ancestor of it. */
  predicate Above(root: string, id: string) {
    root == "" || InSubtree(id, root)
  }

  /** The prefix test and the parent walk give the same ancestors. For the empty root the prefix test
      alone would accept only ids that are empty or begin with a slash. */
  lemma {:induction false} WalkIsAbove(id: string, root: string)
    ensures Above(root, id) <==> root == id || root in Ancestors(id)
    ensures InSubtree(id, "") <==> id == "" || id[0] == '/'
    decreases |id|
  {
    if id != "" {
      var p := Parent(id);
      WalkIsAbove(p, root);
      if root != "" && root != id {
        ParentStep(id, root);
      }
      if root == "" {
        RootIsLast(id);
      }
    }
  }

  lemma {:induction false} ParentStep(id: string, root: string)
    requires id != "" && root != "" && root != id
    ensures InSubtree(id, root) <==> InSubtree(Parent(id), root)
  {
    var p := Parent(id);
    if LastIndexOf(id, '/').Some? {
      var slash := LastIndexOf(id, '/').value;
      assert forall i :: slash < i < |id| ==> id[i] == id[slash + 1..][i - slash - 1];
      if InSubtree(id, root) {
        assert id[|root|] == '/' && |root| <= slash;
        assert root == id[..|root|] == p[..|root|];
      }
      if InSubtree(p, root) {
        assert root == p[..|root|] == id[..|root|];
        assert id[|root|] == '/';
      }
    }
  }

  lemma {:induction false} RootIsLast(id: string)
    requires id != ""
    ensures "" in Ancestors(id)
    decreases |id|
  {
    if Parent(id) != "" {
      RootIsLast(Parent(id));
    }
  }

  // ----- operations on the entries -----

  function Position(entries: Entries, id: string): (r: Option<nat>)
    ensures r.Some? ==> r.value < |entries| && entries[r.value].id == id
    ensures forall i :: 0 <= i < (if r.Some? then r.value else |entries|) ==> entries[i].id != id
  {
    if entries == [] then None
    else if entries[0].id == id then Some(0)
    else
      var r :- Position(entries[1..], id);
      Some(r + 1)
  }

  function Get(entries: Entries, id: string): Option<Record> {
    var pos :- Position(entries, id);
    Some(entries[pos].record)
  }

  function Put(entries: Entries, id: string, record: Record): Entries {
    var kept :=
      match Position(entries, id)
      case Some(pos) => entries[..pos] + entries[pos + 1..]
      case None => if |entries| >= MAX_RECORDS then entries[1..] else entries;
    kept + [Entry(id, record)]
  }

  function OutsideSubtree(id: string): Entry -> bool {
    (e: Entry) => !InSubtree(e.id, id)
  }

  function Applied(entries: Entries, report: Report): Entries {
    match report
    case Set(id, record) => Put(entries, id, record)
    case Clear(id) => if id == "" then [] else Filter(entries, OutsideSubtree(id))
  }

  predicate SurvivesPrompt(e: Entry) { e.record.state.Done? || e.record.state.Error? }

  function PromptStarted(entries: Entries): Entries {
    Filter(entries, SurvivesPrompt)
  }

  function NotUnder(id: string): Entry -> bool {
    (e: Entry) => !Above(id, e.id)
  }

  /** A clear removes the id and everything below it, the empty id included. */
  lemma {:induction false} ClearedExactly(entries: Entries, id: string)
    ensures Applied(entries, Clear(id)) == Filter(entries, NotUnder(id))
  {
    if id == "" {
      NothingKept(entries, NotUnder(id));
    } else {
      SameFilter(entries, OutsideSubtree(id), NotUnder(id));
    }
  }

  lemma {:induction false} NothingKept<T>(s: seq<T>, keep: T -> bool)
    requires forall x :: x in s ==> !keep(x)
    ensures Filter(s, keep) == []
  {
    if s != [] {
      NothingKept(s[1..], keep);
    }
  }

  lemma {:induction false} SameFilter<T>(s: seq<T>, p: T -> bool, q: T -> bool)
    requires forall x :: x in s ==> p(x) == q(x)
    ensures Filter(s, p) == Filter(s, q)
  {
    if s != [] {
      SameFilter(s[1..], p, q);
    }
  }

  // ----- the summary -----

  /** The last entry of the highest rank. */
  function Deciding(entries: Entries): (r: nat)
    requires entries != []
    ensures r < |entries|
  {
    var n := |entries| - 1;
    if n == 0 then 0
    else
      var best := Deciding(entries[..n]);
      if entries[n].record.state.Rank() < entries[best].record.state.Rank() then best else n
  }

  /** No record outranks the deciding one, and none updated later equals it. */
  lemma {:induction false} DecidingIs(entries: Entries)
    requires entries != []
    ensures var d := Deciding(entries);
      && (forall i :: 0 <= i < |entries| ==> entries[i].record.state.Rank() <= entries[d].record.state.Rank())
      && (forall i :: d < i < |entries| ==> entries[i].record.state.Rank() < entries[d].record.state.Rank())
  {
    if |entries| > 1 {
      var init := entries[..|entries| - 1];
      DecidingIs(init);
      assert forall i :: 0 <= i < |init| ==> init[i] == entries[i];
    }
  }

  predicate IsInvisibleFormat(c: char) {
    var n := c as int;
    n == 0xAD || n == 0x61C || n == 0x180E || 0x200B <= n <= 0x200F || 0x2028 <= n <= 0x202E || 0x2060 <= n <= 0x206F
    || n == 0xFEFF || 0xFFF9 <= n <= 0xFFFB || 0xE_0000 <= n <= 0xE_007F
  }

  function SanitizeTitle(title: string): string {
    Sanitize(title, (c: char) => !IsControl(c) && !IsInvisibleFormat(c), MAX_NAME_TITLE_CHARS)
  }

  datatype Summary = Summary(state: ProgramState, title: Option<string>, app: Option<string>)

  function ShownTitle(title: Option<string>): Option<string> {
    if title.Some? && SanitizeTitle(title.value) != "" then Some(SanitizeTitle(title.value)) else None
  }

  predicate HasApp(entries: Entries, id: string) {
    Get(entries, id).Some? && Get(entries, id).value.app.Some?
  }

  /** The place of the first id whose record has an app. */
  function FirstWithApp(entries: Entries, ids: seq<string>): (r: Option<nat>)
    ensures r.Some? ==> r.value < |ids| && HasApp(entries, ids[r.value])
    ensures forall j :: 0 <= j < (if r.Some? then r.value else |ids|) ==> !HasApp(entries, ids[j])
  {
    if ids == [] then None
    else if HasApp(entries, ids[0]) then Some(0)
    else
      var k :- FirstWithApp(entries, ids[1..]);
      Some(k + 1)
  }

  function FirstApp(entries: Entries, ids: seq<string>): Option<string> {
    var k :- FirstWithApp(entries, ids);
    Get(entries, ids[k]).value.app
  }

  function EffectiveAppOf(entries: Entries, e: Entry): Option<string> {
    if e.record.app.Some? then e.record.app else FirstApp(entries, Ancestors(e.id))
  }

  function SummaryOf(entries: Entries): Option<Summary> {
    if entries == [] then None
    else
      var e := entries[Deciding(entries)];
      Some(Summary(e.record.state, ShownTitle(e.record.title), EffectiveAppOf(entries, e)))
  }

  ghost predicate Unique(entries: Entries) {
    forall i, j :: 0 <= i < j < |entries| ==> entries[i].id != entries[j].id
  }

  lemma {:induction false} GetIs(entries: Entries, e: Entry)
    requires Unique(entries) && e in entries
    ensures Get(entries, e.id) == Some(e.record)
  {
    var i :| 0 <= i < |entries| && entries[i] == e;
  }

  lemma {:induction false} GetFrom(entries: Entries, id: string)
    requires Get(entries, id).Some?
    ensures Entry(id, Get(entries, id).value) in entries
  {
  }

  lemma {:induction false} AncestorsShrink(id: string)
    ensures forall k :: 0 <= k < |Ancestors(id)| ==> |Ancestors(id)[k]| < |id|
    ensures forall j, k :: 0 <= j < k < |Ancestors(id)| ==> |Ancestors(id)[k]| < |Ancestors(id)[j]|
    decreases |id|
  {
    if id != "" {
      AncestorsShrink(Parent(id));
    }
  }

  /** `f` decides the app below it: no record with an app stands between. */
  ghost predicate NearestApp(entries: Entries, id: string, f: Entry) {
    && f in entries && Above(f.id, id) && f.record.app.Some?
    && forall g :: g in entries && Above(g.id, id) && g.record.app.Some? ==> |g.id| <= |f.id|
  }

  lemma {:induction false} OnWalk(entries: Entries, e: Entry, f: Entry) returns (k: nat)
    requires Unique(entries) && e in entries && f in entries && Above(f.id, e.id)
    requires e.record.app.None? && f.record.app.Some?
    ensures k < |Ancestors(e.id)| && Ancestors(e.id)[k] == f.id && HasApp(entries, Ancestors(e.id)[k])
  {
    WalkIsAbove(e.id, f.id);
    GetIs(entries, e);
    GetIs(entries, f);
    k :| 0 <= k < |Ancestors(e.id)| && Ancestors(e.id)[k] == f.id;
  }

  lemma {:induction false} NothingNearer(entries: Entries, e: Entry, ids: seq<string>, k: nat, g: Entry)
    requires Unique(entries) && e in entries && g in entries && Above(g.id, e.id)
    requires e.record.app.None? && g.record.app.Some?
    requires ids == Ancestors(e.id) && k < |ids| && forall j :: 0 <= j < k ==> !HasApp(entries, ids[j])
    ensures |g.id| <= |ids[k]|
  {
    var m := OnWalk(entries, e, g);
    AncestorsShrink(e.id);
  }

  lemma {:induction false} WalkFindsNearest(entries: Entries, e: Entry)
    requires Unique(entries) && e in entries && e.record.app.None?
    ensures var k := FirstWithApp(entries, Ancestors(e.id));
      if k.None? then forall f :: f in entries && Above(f.id, e.id) ==> f.record.app.None?
      else NearestApp(entries, e.id, Entry(Ancestors(e.id)[k.value], Get(entries, Ancestors(e.id)[k.value]).value))
  {
    var ids, first := Ancestors(e.id), FirstWithApp(entries, Ancestors(e.id));
    if first.None? {
      forall f | f in entries && Above(f.id, e.id)
        ensures f.record.app.None?
      {
        if f.record.app.Some? {
          var k := OnWalk(entries, e, f);
        }
      }
    } else {
      var id := ids[first.value];
      GetFrom(entries, id);
      WalkIsAbove(e.id, id);
      forall g | g in entries && Above(g.id, e.id) && g.record.app.Some?
        ensures |g.id| <= |id|
      {
        NothingNearer(entries, e, ids, first.value, g);
      }
    }
  }

  /** The effective app is that of the longest id at or above the entry's whose record has one; there
      is none exactly when no such record has one. */
  lemma {:induction false} EffectiveAppIsNearest(entries: Entries, e: Entry)
    requires Unique(entries) && e in entries
    ensures var r := EffectiveAppOf(entries, e);
      if r.None? then forall f :: f in entries && Above(f.id, e.id) ==> f.record.app.None?
      else exists f :: NearestApp(entries, e.id, f) && f.record.app == r
  {
    if e.record.app.Some? {
      assert NearestApp(entries, e.id, e);
    } else {
      WalkFindsNearest(entries, e);
    }
  }

  // ----- what the summary shows -----

  ghost predicate HasState(entries: Entries, state: ProgramState) {
    exists e :: e in entries && e.record.state == state
  }

  /** The first of blocked, working, error, done and idle that some record has. */
  ghost predicate FirstState(entries: Entries, state: ProgramState) {
    && HasState(entries, state)
    && (HasState(entries, Blocked) ==> state == Blocked)
    && (HasState(entries, Working) ==> state == Blocked || state == Working)
    && (HasState(entries, Error) ==> state == Blocked || state == Working || state == Error)
    && (HasState(entries, Done) ==> state != Idle)
  }

  /** The last record with its state. */
  ghost predicate LastWithState(entries: Entries, d: nat) {
    d < |entries| && forall i :: d < i < |entries| ==> entries[i].record.state != entries[d].record.state
  }

  lemma {:induction false} RanksFirst(entries: Entries, d: nat)
    requires d < |entries|
    requires forall i :: 0 <= i < |entries| ==> entries[i].record.state.Rank() <= entries[d].record.state.Rank()
    ensures FirstState(entries, entries[d].record.state)
  {
    assert entries[d] in entries;
  }

  /** The summary shows the first of those states, with the title and app of the record that took it
      last: the title sanitized and dropped when nothing is left of it, the app its own or inherited. */
  lemma {:induction false} SummaryExactly(entries: Entries)
    ensures var r := SummaryOf(entries);
      && (r.None? <==> entries == [])
      && (r.Some? ==> FirstState(entries, r.value.state))
      && (r.Some? ==> exists d: nat :: LastWithState(entries, d) && entries[d].record.state == r.value.state
                                       && r.value.app == EffectiveAppOf(entries, entries[d])
                                       && TitleOf(entries[d].record.title, r.value.title))
  {
    if entries != [] {
      var d := Deciding(entries);
      DecidingIs(entries);
      RanksFirst(entries, d);
      assert LastWithState(entries, d);
      TitleShown(entries[d].record.title);
    }
  }

  ghost predicate TitleOf(title: Option<string>, shown: Option<string>) {
    if shown.Some? then title.Some? && shown.value != "" && shown.value == SanitizeTitle(title.value)
    else title.None? || SanitizeTitle(title.value) == ""
  }

  lemma {:induction false} TitleShown(title: Option<string>)
    ensures TitleOf(title, ShownTitle(title))
  {
  }

  /** A title is shown as it is exactly when it has at most 80 characters and none that is a control or
      invisible; such characters count for nothing, and what is over 80 is cut off. */
  lemma {:induction false} TitleSanitized(a: string, c: char, b: string)
    ensures SanitizeTitle(a) == a
            <==> |a| <= 80 && forall i :: 0 <= i < |a| ==> !IsControl(a[i]) && !IsInvisibleFormat(a[i])
    ensures IsControl(c) || IsInvisibleFormat(c) ==> SanitizeTitle(a + [c] + b) == SanitizeTitle(a + b)
    ensures SanitizeTitle(a) == a && |a| == 80 ==> SanitizeTitle(a + b) == a
  {
    var keep := (x: char) => !IsControl(x) && !IsInvisibleFormat(x);
    SanitizeExactly(a, keep, MAX_NAME_TITLE_CHARS);
    if !keep(c) {
      SanitizeDrops(a, c, b, keep, MAX_NAME_TITLE_CHARS);
    }
    if SanitizeTitle(a) == a && |a| == 80 {
      SanitizeCuts(a, b, keep);
    }
  }

  // ----- a prompt start -----

  /** A prompt start judges each record by itself, in order, and keeps those that are done or in error. */
  lemma {:induction false} PromptExactly(a: Entries, b: Entries, e: Entry)
    ensures PromptStarted(a + b) == PromptStarted(a) + PromptStarted(b)
    ensures PromptStarted([e]) == if e.record.state == Done || e.record.state == Error then [e] else []
  {
    FilterBoth(a, b, SurvivesPrompt);
    assert [e][1..] == [];
  }
}
