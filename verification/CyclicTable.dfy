/** The cyclic buffer behind the HPACK dynamic table
    (src/http/dynamic_hpack_table.c), in its fortified form: an unused slot
    holds the null entry `None`, and every assertion of the source is an
    `assert` here. */
module CyclicTable {
  import opened Wrappers
  import opened Numbers

  const START_SIZE: nat := 32

  function Grown(capacity: nat): nat {
    if capacity == 0 then START_SIZE else capacity * 2
  }

  predicate ShouldShrink(count: nat, capacity: nat) {
    count < capacity / 4
  }

  /** The capacities that growing and shrinking can reach: 0 and 32 * 2^k. */
  predicate IsCapacity(capacity: nat) {
    || capacity == 0
    || capacity == START_SIZE
    || (capacity > START_SIZE && capacity % 2 == 0 && IsCapacity(capacity / 2))
  }

  /** The slot of element `i`, without the modulo. */
  function Slot(start: nat, i: nat, capacity: nat): nat {
    if start + i < capacity then start + i else if start + i < 2 * capacity then start + i - capacity else 0
  }

  /** The source's modulo lands on that slot. */
  method WrapIndex(start: nat, i: nat, capacity: nat) returns (k: nat)
    requires start < capacity && i <= capacity
    ensures k == Slot(start, i, capacity) < capacity
  {
    k := (start + i) % capacity;
    if start + i < capacity {
      ModuloUnique(0, capacity, start + i);
    } else {
      ModuloUnique(1, capacity, start + i - capacity);
    }
  }

  /** What slot `k` holds when the first `n` elements of `s` lie from `start` on. */
  ghost function Held<T>(s: seq<T>, n: nat, start: nat, capacity: nat, k: nat): Option<T>
    requires n <= |s|
  {
    if start <= k < start + n then Some(s[k - start])
    else if start <= k + capacity < start + n then Some(s[k + capacity - start])
    else None
  }

  /** The slots while `i` elements of the wrapped prefix have been moved behind the others. */
  ghost function HalfwayGrown<T>(s: seq<T>, i: nat, start: nat, k: nat): Option<T>
    requires i <= start <= |s|
  {
    if k < i then None
    else if k < start then Some(s[|s| - start + k])
    else if k < |s| + i then Some(s[k - start])
    else None
  }

  /** The slots while the elements from `i` on have been copied to the front. */
  ghost function HalfwayDown<T>(s: seq<T>, i: nat, start: nat, capacity: nat, k: nat): Option<T>
    requires i <= |s|
  {
    if i <= k < |s| then Some(s[k]) else Held(s, i, start, capacity, k)
  }

  /** The slots while the elements before `i` have been copied to the front. */
  ghost function HalfwayUp<T>(s: seq<T>, i: nat, start: nat, k: nat): Option<T>
    requires i <= |s|
  {
    if k < i then Some(s[k])
    else if start + i <= k < start + |s| then Some(s[k - start])
    else None
  }

  /** Banker's potential: what earlier operations have saved up for the next
      relocation. */
  function Potential(count: nat, capacity: nat): nat {
    if 2 * count >= capacity then 2 * count - capacity
    else if capacity > START_SIZE then capacity / 2 - count
    else 0
  }

  class Table<T> {
    var entries: array<Option<T>>
    var start: nat
    var count: nat
    var capacity: nat
    /** The table as the plain sequence it stands for. */
    ghost var contents: seq<T>
    /** Entry copies made so far by growth relocation and by shrinking. */
    ghost var moves: nat

    ghost predicate Valid()
      reads this, entries
    {
      && entries.Length == capacity
      && IsCapacity(capacity)
      && count == |contents| <= capacity
      && (if capacity == 0 then start == 0 else start < capacity)
      && forall k | 0 <= k < capacity :: entries[k] == Held(contents, count, start, capacity, k)
    }

    constructor ()
      ensures Valid() && fresh(entries)
      ensures contents == [] && capacity == 0 && moves == 0
    {
      entries := new Option<T>[0];
      start, count, capacity := 0, 0, 0;
      contents, moves := [], 0;
    }

    method At(index: nat) returns (r: Option<T>)
      requires Valid()
      ensures r == if index < |contents| then Some(contents[index]) else None
    {
      if index >= count {
        return None;
      }
      var idx := WrapIndex(start, index, capacity);
      r := entries[idx];
    }

    method Size() returns (n: nat)
      requires Valid()
      ensures n == |contents|
    {
      n := count;
    }

    /** realloc: the first entries survive, an enlarged tail is null. */
    method Reallocate(newCapacity: nat)
      requires entries.Length == capacity
      modifies this`entries, this`capacity
      ensures fresh(entries) && entries.Length == capacity == newCapacity
      ensures forall k | 0 <= k < newCapacity ::
                entries[k] == if k < old(capacity) then old(entries[k]) else None
    {
      var from := entries;
      var to := new Option<T>[newCapacity];
      for k := 0 to newCapacity
        invariant forall j | 0 <= j < k :: to[j] == if j < from.Length then from[j] else None
        invariant unchanged(from) && unchanged(this)
        modifies to
      {
        to[k] := if k < from.Length then from[k] else None;
      }
      entries, capacity := to, newCapacity;
    }

    method Free()
      requires Valid()
      modifies this, entries
      ensures Valid() && fresh(entries)
      ensures contents == [] && capacity == 0 && moves == old(moves)
    {
      var i, rest: nat := start, count;
      while rest != 0
        invariant rest <= count
        invariant capacity > 0 ==> i == Slot(start, count - rest, capacity) < capacity
        invariant forall k | 0 <= k < capacity ::
                    entries[k] == if Held(contents, count - rest, start, capacity, k).Some? then None
                                  else Held(contents, count, start, capacity, k)
        modifies entries
        decreases rest
      {
        entries[i] := None;
        i := WrapIndex(i, 1, capacity);
        rest := rest - 1;
      }
      for k := 0 to capacity
      {
        assert entries[k] == None;
      }
      entries := new Option<T>[0];
      start, count, capacity := 0, 0, 0;
      contents := [];
    }

    method InsertAtStart(entry: T)
      requires Valid()
      modifies this, entries
      ensures Valid() && (entries == old(entries) || fresh(entries))
      ensures contents == [entry] + old(contents)
      ensures capacity == if |old(contents)| < old(capacity) then old(capacity)
                          else if old(capacity) == 0 then 32 else 2 * old(capacity)
      ensures moves + Potential(count, capacity) <= old(moves + Potential(count, capacity)) + 2
    {
      if count >= capacity {
        Grow();
      }
      PushFront(entry);
    }

    method Grow()
      requires Valid() && count == capacity
      modifies this, entries
      ensures Valid() && fresh(entries)
      ensures contents == old(contents) && start == old(start)
      ensures capacity == Grown(old(capacity))
      ensures moves == old(moves + start)
    {
      Reallocate(Grown(capacity));
      var amount := start;
      for i := 0 to amount
        invariant moves == old(moves) + i
        invariant forall k | 0 <= k < capacity :: entries[k] == HalfwayGrown(contents, i, start, k)
        modifies entries, this`moves
      {
        Relocate(i, count + i);
      }
      assert IsCapacity(capacity);
    }

    /** One entry copy, with the vacated slot reset. */
    method Relocate(from: nat, to: nat)
      requires from < entries.Length && to < entries.Length && from != to
      modifies entries, this`moves
      ensures forall k | 0 <= k < entries.Length ::
                entries[k] == if k == to then old(entries[from]) else if k == from then None else old(entries[k])
      ensures moves == old(moves) + 1
    {
      entries[to] := entries[from];
      entries[from] := None;
      moves := moves + 1;
    }

    method PushFront(entry: T)
      requires Valid() && count < capacity
      modifies this`start, this`count, this`contents, entries
      ensures Valid()
      ensures contents == [entry] + old(contents)
    {
      var firstFree := WrapIndex(start, capacity - 1, capacity);
      assert entries[firstFree] == None;
      start := firstFree;
      entries[firstFree] := Some(entry);
      count := count + 1;
      contents := [entry] + contents;
    }

    method PopAtEnd() returns (r: Option<T>)
      requires Valid()
      modifies this, entries
      ensures Valid() && (entries == old(entries) || fresh(entries))
      ensures old(contents) == [] ==> r == None && contents == [] && capacity == old(capacity) && moves == old(moves)
      ensures old(contents) != [] ==> r.Some? && old(contents) == contents + [r.value]
      ensures capacity == if |contents| < |old(contents)| && |contents| < old(capacity) / 4 && old(capacity) >= 64
                          then old(capacity) / 2 else old(capacity)
      ensures moves + Potential(count, capacity) <= old(moves + Potential(count, capacity)) + 1
    {
      if count == 0 {
        return None;
      }
      r := DropLast();
      if ShouldShrink(count, capacity) {
        var newCapacity := capacity / 2;
        if newCapacity >= START_SIZE {
          Shrink(newCapacity);
        }
      }
    }

    method DropLast() returns (r: Option<T>)
      requires Valid() && count > 0
      modifies this`count, this`contents, entries
      ensures Valid()
      ensures r.Some? && old(contents) == contents + [r.value]
    {
      var lastIdx := WrapIndex(start, count - 1, capacity);
      r := entries[lastIdx];
      entries[lastIdx] := None;
      count := count - 1;
      contents := contents[..count];
    }

    /** Move everything into the first half, then give the second half back. */
    method Shrink(newCapacity: nat)
      requires Valid() && ShouldShrink(count, capacity)
      requires newCapacity == capacity / 2 >= START_SIZE
      modifies this, entries
      ensures Valid() && fresh(entries)
      ensures contents == old(contents) && capacity == newCapacity
      ensures moves <= old(moves) + count
    {
      assert newCapacity != 0;
      if start >= newCapacity {
        MoveDown();
      } else if start != 0 {
        MoveUp();
      }
      Reallocate(newCapacity);
    }

    /** Start lies in the half that goes away: copy from the last element to the first. */
    method MoveDown()
      requires Valid() && ShouldShrink(count, capacity)
      requires start >= capacity / 2 >= START_SIZE
      modifies this`start, this`moves, entries
      ensures Valid() && start == 0
      ensures moves == old(moves) + count
    {
      var i := count;
      while i != 0
        invariant 0 <= i <= count
        invariant moves == old(moves) + count - i && start == old(start)
        invariant forall k | 0 <= k < capacity ::
                    entries[k] == HalfwayDown(contents, i, start, capacity, k)
        modifies entries, this`moves
      {
        var oldIdx := WrapIndex(start, i - 1, capacity);
        var newIdx := i - 1;
        assert newIdx < count && newIdx < capacity / 2;
        assert entries[newIdx] == None;
        assert oldIdx != newIdx;
        Relocate(oldIdx, newIdx);
        i := i - 1;
      }
      start := 0;
    }

    /** Start lies in the half that stays: copy from the first element to the last. */
    method MoveUp()
      requires Valid() && ShouldShrink(count, capacity)
      requires 0 < start < capacity / 2
      modifies this`start, this`moves, entries
      ensures Valid() && start == 0
      ensures moves == old(moves) + count
    {
      for i := 0 to count
        invariant moves == old(moves) + i && start == old(start)
        invariant forall k | 0 <= k < capacity ::
                    entries[k] == HalfwayUp(contents, i, start, k)
        modifies entries, this`moves
      {
        assert start + i < capacity;
        var oldIdx := WrapIndex(start, i, capacity);
        assert i < count && i < capacity / 2;
        assert entries[i] == None;
        assert oldIdx != i;
        Relocate(oldIdx, i);
      }
      start := 0;
    }
  }

  /** One call on the table, and what a plain sequence would answer. */
  datatype Op<T> = Insert(entry: T) | Pop | At(index: nat) | Free

  function Apply<T>(s: seq<T>, op: Op<T>): seq<T> {
    match op
    case Insert(entry) => [entry] + s
    case Pop => if s == [] then [] else s[..|s| - 1]
    case At(_) => s
    case Free => []
  }

  function Answer<T>(s: seq<T>, op: Op<T>): Option<T> {
    match op
    case Insert(_) => None
    case Pop => if s == [] then None else Some(s[|s| - 1])
    case At(index) => if index < |s| then Some(s[index]) else None
    case Free => None
  }

  function ApplyAll<T>(s: seq<T>, ops: seq<Op<T>>): seq<T> {
    if ops == [] then s else Apply(ApplyAll(s, ops[..|ops| - 1]), ops[|ops| - 1])
  }

  function Answers<T>(s: seq<T>, ops: seq<Op<T>>): (answers: seq<Option<T>>)
    ensures |answers| == |ops|
  {
    if ops == [] then []
    else
      var before := ops[..|ops| - 1];
      Answers(s, before) + [Answer(ApplyAll(s, before), ops[|ops| - 1])]
  }

  /** Every run of calls on an empty table answers as a plain sequence would,
      and relocates at most two entries per call. */
  method Run<T>(ops: seq<Op<T>>) returns (table: Table<T>, answers: seq<Option<T>>)
    ensures table.Valid() && fresh(table) && fresh(table.entries)
    ensures table.contents == ApplyAll([], ops)
    ensures answers == Answers([], ops)
    ensures table.moves <= 2 * |ops|
  {
    table := new Table<T>();
    answers := [];
    for i := 0 to |ops|
      invariant table.Valid() && fresh(table) && fresh(table.entries)
      invariant table.contents == ApplyAll([], ops[..i])
      invariant answers == Answers([], ops[..i])
      invariant table.moves + Potential(table.count, table.capacity) <= 2 * i
    {
      assert ops[..i + 1][..i] == ops[..i];
      var answer := Step(table, ops[i]);
      answers := answers + [answer];
    }
    assert ops[..|ops|] == ops;
  }

  method Step<T>(table: Table<T>, op: Op<T>) returns (answer: Option<T>)
    requires table.Valid()
    modifies table, table.entries
    ensures table.Valid() && (table.entries == old(table.entries) || fresh(table.entries))
    ensures table.contents == Apply(old(table.contents), op)
    ensures answer == Answer(old(table.contents), op)
    ensures table.moves + Potential(table.count, table.capacity)
         <= old(table.moves + Potential(table.count, table.capacity)) + 2
  {
    answer := None;
    match op
    case Insert(entry) => table.InsertAtStart(entry);
    case Pop => answer := table.PopAtEnd();
    case At(index) => answer := table.At(index);
    case Free => table.Free();
  }
}
