/** The dynamic table with its byte accounting and eviction
    (src/http/hpack.c; sections 4.1 to 4.4 of RFC 7541). */
module HpackTable {
  import opened Wrappers
  import opened CyclicTable

  datatype Entry = Entry(key: Str, value: Str)

  const ENTRY_OVERHEAD: nat := 32

  function EntrySize(e: Entry): nat {
    |e.key| + |e.value| + ENTRY_OVERHEAD
  }

  function TotalSize(entries: seq<Entry>): nat {
    if entries == [] then 0
    else TotalSize(entries[..|entries| - 1]) + EntrySize(entries[|entries| - 1])
  }

  /** Every octet of the names and values. */
  function Octets(entries: seq<Entry>): nat {
    if entries == [] then 0 else |entries[0].key| + |entries[0].value| + Octets(entries[1..])
  }

  /** What section 4.1 of RFC 7541 charges for the entries: their octets, and
      32 for each. */
  function Footprint(entries: seq<Entry>): nat {
    Octets(entries) + 32 * |entries|
  }

  /** Evict from the end until the rest fits into `budget`. */
  function Fitting(entries: seq<Entry>, budget: nat): seq<Entry> {
    if TotalSize(entries) <= budget then entries
    else Fitting(entries[..|entries| - 1], budget)
  }

  /** The abstract table: newest entry first, and the maximum in bytes. */
  datatype View = View(entries: seq<Entry>, maxBytes: nat) {
    ghost predicate Valid() {
      TotalSize(entries) <= maxBytes
    }

    function Insert(e: Entry): View {
      if EntrySize(e) > maxBytes then this.(entries := [])
      else this.(entries := [e] + Fitting(entries, maxBytes - EntrySize(e)))
    }

    function Resize(newMax: nat): View {
      View(Fitting(entries, newMax), newMax)
    }
  }

  lemma {:induction false} TotalSizePrefix(entries: seq<Entry>, n: nat)
    requires n <= |entries|
    ensures TotalSize(entries[..n]) + ENTRY_OVERHEAD * (|entries| - n) <= TotalSize(entries)
    decreases |entries|
  {
    if n == |entries| {
      assert entries[..n] == entries;
    } else {
      var shorter := entries[..|entries| - 1];
      assert shorter[..n] == entries[..n];
      TotalSizePrefix(shorter, n);
    }
  }

  lemma {:induction false} TotalSizeCons(e: Entry, entries: seq<Entry>)
    ensures TotalSize([e] + entries) == EntrySize(e) + TotalSize(entries)
    decreases |entries|
  {
    if entries == [] {
      assert ([e] + entries)[..0] == [];
    } else {
      var last := |entries| - 1;
      assert ([e] + entries)[..|entries|] == [e] + entries[..last];
      TotalSizeCons(e, entries[..last]);
    }
  }

  /** The byte count is the footprint of the entries. */
  lemma {:induction false} TotalSizeIsFootprint(entries: seq<Entry>)
    ensures TotalSize(entries) == Footprint(entries)
    decreases |entries|
  {
    if entries != [] {
      assert entries == [entries[0]] + entries[1..];
      TotalSizeCons(entries[0], entries[1..]);
      TotalSizeIsFootprint(entries[1..]);
    }
  }

  /** Eviction keeps the longest prefix that fits. */
  lemma {:induction false} FittingIsLongestPrefix(entries: seq<Entry>, budget: nat)
    ensures Fitting(entries, budget) <= entries
    ensures Footprint(Fitting(entries, budget)) <= budget
    ensures forall n | |Fitting(entries, budget)| < n <= |entries| :: Footprint(entries[..n]) > budget
    decreases |entries|
  {
    hide Footprint;
    TotalSizeIsFootprint(entries);
    if TotalSize(entries) > budget {
      var shorter := entries[..|entries| - 1];
      FittingIsLongestPrefix(shorter, budget);
      forall n | |Fitting(entries, budget)| < n <= |entries|
        ensures Footprint(entries[..n]) > budget
      {
        if n == |entries| {
          assert entries[..n] == entries;
        } else {
          assert entries[..n] == shorter[..n];
        }
      }
    } else {
      assert entries[..|entries|] == entries;
    }
  }

  /** Section 4.4 of RFC 7541: an insertion keeps the newest entry and the
      longest prefix of the old ones that fits beside it; an oversized entry
      leaves the table empty. The bound on the size holds throughout. */
  lemma InsertKeepsLongestPrefix(v: View, e: Entry)
    requires v.Valid()
    ensures v.Insert(e).Valid() && v.Insert(e).maxBytes == v.maxBytes
    ensures Footprint(v.Insert(e).entries) <= v.maxBytes
    ensures v.Insert(e).entries == [] <==> |e.key| + |e.value| + 32 > v.maxBytes
    ensures |e.key| + |e.value| + 32 <= v.maxBytes ==>
              exists n | 0 <= n <= |v.entries| ::
                && v.Insert(e).entries == [e] + v.entries[..n]
                && (n < |v.entries| ==> |e.key| + |e.value| + 32 + Footprint(v.entries[..n + 1]) > v.maxBytes)
  {
    TotalSizeIsFootprint(v.Insert(e).entries);
    if EntrySize(e) <= v.maxBytes {
      var kept := Fitting(v.entries, v.maxBytes - EntrySize(e));
      FittingIsLongestPrefix(v.entries, v.maxBytes - EntrySize(e));
      TotalSizeIsFootprint(kept);
      TotalSizeCons(e, kept);
      var n := |kept|;
      assert v.Insert(e).entries == [e] + v.entries[..n];
      assert n < |v.entries| ==> Footprint(v.entries[..n + 1]) > v.maxBytes - EntrySize(e);
    }
  }

  /** Section 4.3 of RFC 7541: a new maximum keeps the longest prefix that fits it. */
  lemma ResizeKeepsLongestPrefix(v: View, newMax: nat)
    ensures v.Resize(newMax).Valid() && v.Resize(newMax).maxBytes == newMax
    ensures v.Resize(newMax).entries <= v.entries
    ensures Footprint(v.Resize(newMax).entries) <= newMax
    ensures forall n | |v.Resize(newMax).entries| < n <= |v.entries| :: Footprint(v.entries[..n]) > newMax
  {
    FittingIsLongestPrefix(v.entries, newMax);
    TotalSizeIsFootprint(v.Resize(newMax).entries);
  }

  /** The largest buffer a table limited to `limit` bytes can need. */
  function CapacityBound(limit: nat): nat {
    if limit / 16 > START_SIZE then limit / 16 else START_SIZE
  }

  lemma FewEntries(entries: seq<Entry>)
    ensures ENTRY_OVERHEAD * |entries| <= TotalSize(entries)
  {
    TotalSizePrefix(entries, 0);
  }

  class TableState {
    const table: Table<Entry>
    var maxBytes: nat
    var currentBytes: nat

    ghost predicate Valid()
      reads this, table, table.entries
    {
      && table.Valid()
      && currentBytes == TotalSize(table.contents)
      && currentBytes <= maxBytes
    }

    ghost function Abstract(): View
      reads this, table
    {
      View(table.contents, maxBytes)
    }

    constructor (maxBytes: nat)
      ensures Valid() && fresh(table) && fresh(table.entries)
      ensures Abstract() == View([], maxBytes)
      ensures table.capacity == 0
    {
      table := new Table<Entry>();
      this.maxBytes := maxBytes;
      currentBytes := 0;
    }

    /** Pop entries until `reserve` more bytes fit. The break of the source for
        a failed pop is an assertion here: it cannot be reached. */
    method EvictFor(reserve: nat)
      requires table.Valid() && currentBytes == TotalSize(table.contents)
      requires reserve <= maxBytes
      modifies `currentBytes, table, table.entries
      ensures table.Valid() && (table.entries == old(table.entries) || fresh(table.entries))
      ensures table.contents == Fitting(old(table.contents), maxBytes - reserve)
      ensures currentBytes == TotalSize(table.contents) && currentBytes + reserve <= maxBytes
      ensures table.capacity <= old(table.capacity)
    {
      while currentBytes + reserve > maxBytes
        invariant table.Valid() && (table.entries == old(table.entries) || fresh(table.entries))
        invariant currentBytes == TotalSize(table.contents)
        invariant Fitting(table.contents, maxBytes - reserve) == Fitting(old(table.contents), maxBytes - reserve)
        invariant table.capacity <= old(table.capacity)
        decreases currentBytes
      {
        ghost var before := table.contents;
        var popped := table.PopAtEnd();
        assert popped.Some?;
        assert before[..|before| - 1] == table.contents;
        currentBytes := currentBytes - EntrySize(popped.value);
      }
    }

    method Insert(e: Entry)
      requires Valid()
      modifies this, table, table.entries
      ensures Valid() && (table.entries == old(table.entries) || fresh(table.entries))
      ensures Abstract() == old(Abstract()).Insert(e)
      ensures table.contents == [] <==> |e.key| + |e.value| + 32 > maxBytes
      ensures currentBytes == Footprint(table.contents) <= maxBytes
      ensures forall limit: nat | maxBytes <= limit && old(table.capacity) <= CapacityBound(limit) ::
                table.capacity <= CapacityBound(limit)
    {
      hide Footprint, Fitting;
      TotalSizeIsFootprint([]);
      if EntrySize(e) > maxBytes {
        table.Free();
        currentBytes := 0;
        return;
      }
      EvictFor(EntrySize(e));
      TotalSizeCons(e, table.contents);
      FewEntries(table.contents);
      TotalSizeIsFootprint([e] + table.contents);
      table.InsertAtStart(e);
      currentBytes := currentBytes + EntrySize(e);
    }

    method Resize(newMax: nat)
      requires Valid()
      modifies this, table, table.entries
      ensures Valid() && (table.entries == old(table.entries) || fresh(table.entries))
      ensures Abstract() == old(Abstract()).Resize(newMax)
      ensures currentBytes == Footprint(table.contents) <= newMax
      ensures table.capacity <= old(table.capacity)
    {
      maxBytes := newMax;
      if newMax == 0 {
        FittingNothing(table.contents);
        table.Free();
        currentBytes := 0;
        return;
      }
      EvictFor(0);
      TotalSizeIsFootprint(table.contents);
    }
  }

  lemma FittingNothing(entries: seq<Entry>)
    ensures Fitting(entries, 0) == []
  {
    FittingIsLongestPrefix(entries, 0);
  }

  /** What a header block or a settings change asks of the table. */
  datatype Change = Add(entry: Entry) | SetMax(maxBytes: nat)

  function Changed(v: View, c: Change): View {
    match c
    case Add(e) => v.Insert(e)
    case SetMax(n) => v.Resize(n)
  }

  function ChangedAll(v: View, cs: seq<Change>): View {
    if cs == [] then v else Changed(ChangedAll(v, cs[..|cs| - 1]), cs[|cs| - 1])
  }

  /** Over every run of insertions and size changes whose maximum stays within
      `limit`: the table is the abstract one, holds at most a 32nd of the
      maximum in entries, and its buffer stays within the capacity bound. */
  method RunChanges(initialMax: nat, cs: seq<Change>, limit: nat) returns (state: TableState)
    requires initialMax <= limit
    requires forall i | 0 <= i < |cs| :: cs[i].SetMax? ==> cs[i].maxBytes <= limit
    ensures state.Valid()
    ensures state.Abstract() == ChangedAll(View([], initialMax), cs)
    ensures state.currentBytes == Footprint(state.table.contents) <= state.maxBytes
    ensures |state.table.contents| <= state.maxBytes / 32 <= limit / 32
    ensures state.table.capacity <= if limit / 16 > 32 then limit / 16 else 32
  {
    state := new TableState(initialMax);
    for i := 0 to |cs|
      invariant state.Valid() && fresh(state) && fresh(state.table) && fresh(state.table.entries)
      invariant state.maxBytes <= limit
      invariant state.Abstract() == ChangedAll(View([], initialMax), cs[..i])
      invariant state.table.capacity <= CapacityBound(limit)
    {
      assert cs[..i + 1][..i] == cs[..i];
      match cs[i] {
        case Add(e) => state.Insert(e);
        case SetMax(n) => state.Resize(n);
      }
    }
    assert cs[..|cs|] == cs;
    TotalSizeIsFootprint(state.table.contents);
    FewEntries(state.table.contents);
  }
}
