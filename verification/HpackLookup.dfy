/** Looking fields up in the static and the dynamic table (src/http/hpack.c;
    section 2.3 of RFC 7541), with the generated static lookup as
    tools/helper/src/hpack.ts writes it. */
module HpackLookup {
  import opened Wrappers
  import opened HpackTable

  /** A header field; a table entry is a field that was stored. */
  type Field = Entry

  /** A static entry may have no value (a null string, not an empty one). */
  datatype StaticEntry = StaticEntry(key: Str, value: Option<Str>)

  type StaticTable = seq<StaticEntry>

  /** One index space: the static entries from 1 on, the dynamic ones behind them. */
  function Lookup(statics: StaticTable, view: View, index: nat): Option<StaticEntry> {
    if index == 0 then None
    else if index <= |statics| then Some(statics[index - 1])
    else
      var dynamicIndex := index - |statics| - 1;
      if |view.entries| <= dynamicIndex then None
      else Some(StaticEntry(view.entries[dynamicIndex].key, Some(view.entries[dynamicIndex].value)))
  }

  datatype FindResult = NotFound | KeyFound(index: nat) | AllFound(index: nat)

  function FirstWithKey(statics: StaticTable, key: Str, from: nat): (r: Option<nat>)
    requires from <= |statics|
    ensures r.Some? ==> from <= r.value < |statics| && statics[r.value].key == key
    ensures r.None? ==> forall i | from <= i < |statics| :: statics[i].key != key
    decreases |statics| - from
  {
    if from == |statics| then None
    else if statics[from].key == key then Some(from)
    else FirstWithKey(statics, key, from + 1)
  }

  function FirstExact(statics: StaticTable, f: Field, from: nat): (r: Option<nat>)
    requires from <= |statics|
    ensures r.Some? ==> from <= r.value < |statics| && statics[r.value] == StaticEntry(f.key, Some(f.value))
    ensures r.None? ==> forall i | from <= i < |statics| :: statics[i] != StaticEntry(f.key, Some(f.value))
    decreases |statics| - from
  {
    if from == |statics| then None
    else if statics[from] == StaticEntry(f.key, Some(f.value)) then Some(from)
    else FirstExact(statics, f, from + 1)
  }

  /** The generated lookup. A key with one entry has its value compared by
      strncmp over the length of the static value, so a longer field value with
      that prefix counts as found; keys with several entries are compared whole. */
  function FindStatic(statics: StaticTable, f: Field): FindResult {
    match FirstWithKey(statics, f.key, 0)
    case None => NotFound
    case Some(i) =>
      if FirstWithKey(statics, f.key, i + 1).None? then
        match statics[i].value
        case None => KeyFound(i + 1)
        case Some(v) => if v <= f.value then AllFound(i + 1) else KeyFound(i + 1)
      else
        match FirstExact(statics, f, 0)
        case Some(j) => AllFound(j + 1)
        case None => KeyFound(i + 1)
  }

  /** The fields that lose the rest of their value to that comparison. */
  ghost predicate LosesValue(statics: StaticTable, f: Field) {
    exists i | 0 <= i < |statics| ::
      && statics[i].key == f.key
      && (forall j | 0 <= j < |statics| && j != i :: statics[j].key != f.key)
      && statics[i].value.Some?
      && statics[i].value.value < f.value
  }

  function DynamicExact(entries: seq<Entry>, f: Field, from: nat): (r: Option<nat>)
    requires from <= |entries|
    ensures r.Some? ==> from <= r.value < |entries| && entries[r.value] == f
    decreases |entries| - from
  {
    if from == |entries| then None
    else if entries[from] == f then Some(from)
    else DynamicExact(entries, f, from + 1)
  }

  function DynamicKey(entries: seq<Entry>, key: Str, from: nat): (r: Option<nat>)
    requires from <= |entries|
    ensures r.Some? ==> from <= r.value < |entries| && entries[r.value].key == key
    decreases |entries| - from
  {
    if from == |entries| then None
    else if entries[from].key == key then Some(from)
    else DynamicKey(entries, key, from + 1)
  }

  /** The best result of the entries from `from` on, given the best one so far:
      a whole match wins, then the result so far, then a match of the key. */
  function FindDynamic(offset: nat, entries: seq<Entry>, f: Field, from: nat, best: FindResult): FindResult
    requires from <= |entries|
  {
    match DynamicExact(entries, f, from)
    case Some(i) => AllFound(i + 1 + offset)
    case None =>
      if best != NotFound then best
      else
        match DynamicKey(entries, f.key, from)
        case Some(i) => KeyFound(i + 1 + offset)
        case None => NotFound
  }

  function Find(statics: StaticTable, view: View, f: Field, useAllTables: bool): FindResult {
    var best := FindStatic(statics, f);
    if best.AllFound? || !useAllTables then best
    else FindDynamic(|statics|, view.entries, f, 0, best)
  }

  /** A lookup result names an entry with the key of the field, and a full
      match one with its value, except for the fields that lose their value. */
  lemma FindIsSound(statics: StaticTable, view: View, f: Field, useAllTables: bool)
    ensures var r := Find(statics, view, f, useAllTables);
            && (r.KeyFound? ==>
                  && Lookup(statics, view, r.index).Some?
                  && Lookup(statics, view, r.index).value.key == f.key)
            && (r.AllFound? ==>
                  var entry := Lookup(statics, view, r.index);
                  && entry.Some? && entry.value.key == f.key && entry.value.value.Some?
                  && (entry.value.value.value == f.value <==> !LosesValue(statics, f)))
            && (LosesValue(statics, f) ==> r.AllFound?)
  {
    StaticIsSound(statics, f);
  }

  lemma StaticIsSound(statics: StaticTable, f: Field)
    ensures var r := FindStatic(statics, f);
            && (r.KeyFound? ==> 1 <= r.index <= |statics| && statics[r.index - 1].key == f.key)
            && (r.AllFound? ==>
                  && 1 <= r.index <= |statics|
                  && statics[r.index - 1].key == f.key && statics[r.index - 1].value.Some?
                  && (statics[r.index - 1].value.value == f.value <==> !LosesValue(statics, f)))
            && (LosesValue(statics, f) ==> r.AllFound?)
  {
    var first := FirstWithKey(statics, f.key, 0);
    if first.Some? {
      var i := first.value;
      FirstIsFirst(statics, f.key, 0);
      if FirstWithKey(statics, f.key, i + 1).None? {
        assert forall j | 0 <= j < |statics| && j != i :: statics[j].key != f.key;
      } else {
        var k := FirstWithKey(statics, f.key, i + 1).value;
        assert statics[i].key == statics[k].key == f.key && i != k;
        assert !LosesValue(statics, f);
      }
    }
  }

  lemma {:induction false} FirstIsFirst(statics: StaticTable, key: Str, from: nat)
    requires from <= |statics|
    ensures var r := FirstWithKey(statics, key, from);
            r.Some? ==> forall i | from <= i < r.value :: statics[i].key != key
    decreases |statics| - from
  {
    if from < |statics| && statics[from].key != key {
      FirstIsFirst(statics, key, from + 1);
    }
  }

  // ----- what a search must find

  /** Index `i` counts the static entries from 1 on, then the dynamic ones. */
  ghost predicate Searched(statics: StaticTable, view: View, useAllTables: bool, i: nat) {
    1 <= i <= |statics| + (if useAllTables then |view.entries| else 0)
  }

  ghost predicate KeyAt(statics: StaticTable, view: View, f: Field, i: nat)
    requires Searched(statics, view, true, i)
  {
    f.key == if i <= |statics| then statics[i - 1].key else view.entries[i - |statics| - 1].key
  }

  ghost predicate FieldAt(statics: StaticTable, view: View, f: Field, i: nat)
    requires Searched(statics, view, true, i)
  {
    if i <= |statics| then statics[i - 1] == StaticEntry(f.key, Some(f.value)) else view.entries[i - |statics| - 1] == f
  }

  lemma {:induction false} DynamicIsFirst(entries: seq<Entry>, f: Field, from: nat)
    requires from <= |entries|
    ensures match DynamicExact(entries, f, from)
            case Some(k) => forall i | from <= i < k :: entries[i] != f
            case None => forall i | from <= i < |entries| :: entries[i] != f
    ensures match DynamicKey(entries, f.key, from)
            case Some(k) => forall i | from <= i < k :: entries[i].key != f.key
            case None => forall i | from <= i < |entries| :: entries[i].key != f.key
    decreases |entries| - from
  {
    if from < |entries| {
      DynamicIsFirst(entries, f, from + 1);
    }
  }

  lemma {:induction false} ExactIsFirst(statics: StaticTable, f: Field, from: nat)
    requires from <= |statics|
    ensures var r := FirstExact(statics, f, from);
            r.Some? ==> forall i | from <= i < r.value :: statics[i] != StaticEntry(f.key, Some(f.value))
    decreases |statics| - from
  {
    if from < |statics| && statics[from] != StaticEntry(f.key, Some(f.value)) {
      ExactIsFirst(statics, f, from + 1);
    }
  }

  /** The static lookup misses nothing and prefers the smallest index. */
  lemma StaticIsComplete(statics: StaticTable, f: Field)
    ensures match FindStatic(statics, f)
            case NotFound => forall i | 0 <= i < |statics| :: statics[i].key != f.key
            case KeyFound(k) =>
              && 1 <= k <= |statics| && !LosesValue(statics, f)
              && (forall i | 0 <= i < k - 1 :: statics[i].key != f.key)
              && (forall i | 0 <= i < |statics| :: statics[i] != StaticEntry(f.key, Some(f.value)))
            case AllFound(k) =>
              && 1 <= k <= |statics|
              && (forall i | 0 <= i < k - 1 :: statics[i] != StaticEntry(f.key, Some(f.value)))
              && (LosesValue(statics, f) ==> forall i | 0 <= i < k - 1 :: statics[i].key != f.key)
  {
    StaticIsSound(statics, f);
    FirstIsFirst(statics, f.key, 0);
    ExactIsFirst(statics, f, 0);
    var first := FirstWithKey(statics, f.key, 0);
    if first.Some? && FirstWithKey(statics, f.key, first.value + 1).None? {
      assert forall j | 0 <= j < |statics| && j != first.value :: statics[j].key != f.key;
    }
  }

  /** A search misses nothing and prefers the smallest index: nothing is found
      exactly when no searched entry has the key, a whole match exactly when one
      is the field (or the field loses its value), and no entry with a smaller
      index would have done. */
  lemma FindIsComplete(statics: StaticTable, view: View, f: Field, useAllTables: bool)
    ensures var r := Find(statics, view, f, useAllTables);
            && (r.NotFound? <==>
                  forall i: nat | Searched(statics, view, useAllTables, i) :: !KeyAt(statics, view, f, i))
            && (r.AllFound? <==>
                  || LosesValue(statics, f)
                  || exists i: nat | Searched(statics, view, useAllTables, i) :: FieldAt(statics, view, f, i))
            && (r.KeyFound? || (r.AllFound? && LosesValue(statics, f)) ==>
                  forall i: nat | Searched(statics, view, useAllTables, i) && i < r.index ::
                    !KeyAt(statics, view, f, i))
            && (r.AllFound? ==>
                  forall i: nat | Searched(statics, view, useAllTables, i) && i < r.index ::
                    !FieldAt(statics, view, f, i))
  {
    hide FindStatic, LosesValue, FindDynamic;
    FindIsSound(statics, view, f, useAllTables);
    StaticIsSound(statics, f);
    StaticIsComplete(statics, f);
    var best := FindStatic(statics, f);
    if !best.AllFound? && useAllTables {
      DynamicSearch(|statics|, view.entries, f, best);
    }
    var r := Find(statics, view, f, useAllTables);
    if !r.NotFound? {
      assert Searched(statics, view, useAllTables, r.index);
      assert KeyAt(statics, view, f, r.index);
      assert r.AllFound? && !LosesValue(statics, f) ==> FieldAt(statics, view, f, r.index);
    }
  }

  lemma DynamicSearch(offset: nat, entries: seq<Entry>, f: Field, best: FindResult)
    requires !best.AllFound?
    ensures match FindDynamic(offset, entries, f, 0, best)
            case AllFound(k) =>
              && offset < k <= offset + |entries| && entries[k - offset - 1] == f
              && (forall i | 0 <= i < k - offset - 1 :: entries[i] != f)
            case KeyFound(k) =>
              && (forall i | 0 <= i < |entries| :: entries[i] != f)
              && (best.NotFound? ==>
                    && offset < k <= offset + |entries| && entries[k - offset - 1].key == f.key
                    && (forall i | 0 <= i < k - offset - 1 :: entries[i].key != f.key))
              && (best.KeyFound? ==> k == best.index)
            case NotFound => best.NotFound? && forall i | 0 <= i < |entries| :: entries[i].key != f.key
  {
    DynamicIsFirst(entries, f, 0);
  }

  /** The search loop over the dynamic table. */
  method FindInTables(statics: StaticTable, state: TableState, f: Field, useAllTables: bool) returns (r: FindResult)
    requires state.Valid()
    ensures r == Find(statics, state.Abstract(), f, useAllTables)
  {
    r := FindStatic(statics, f);
    if r.AllFound? || !useAllTables {
      return;
    }
    ghost var entries := state.table.contents;
    var i := 0;
    while i < state.table.count
      invariant 0 <= i <= state.table.count
      invariant !r.AllFound?
      invariant Find(statics, state.Abstract(), f, true) == FindDynamic(|statics|, entries, f, i, r)
    {
      var entry := state.table.At(i);
      if entry.value.key == f.key {
        if entry.value.value == f.value {
          return AllFound(i + 1 + |statics|);
        }
        if r == NotFound {
          r := KeyFound(i + 1 + |statics|);
        }
      }
      i := i + 1;
    }
  }
}
