/**
 The process table: a map from process name to the resource the process holds
 and the resource it requests.

 A Python dict remembers the order in which its keys were first inserted, and
 the resolution policy depends on that order to break ties, so the table is
 modelled as the dict's key sequence together with the map itself.
 */
module ProcessTable {
  import opened Wrappers

  /** What one process declares: the resource it holds and the one it waits for. */
  datatype Entry = Entry(holds: string, requests: string)

  /** `order` lists the process names in insertion order; `table` maps each
      name to its entry. */
  datatype Store = Store(order: seq<string>, table: map<string, Entry>)

  /** No name occurs twice. */
  predicate Distinct(xs: seq<string>) {
    forall i, j :: 0 <= i < j < |xs| ==> xs[i] != xs[j]
  }

  /** The order lists exactly the keys of the table, each once, and every
      stored string is non-empty (the add operation never stores an empty one). */
  ghost predicate Valid(s: Store) {
    && Distinct(s.order)
    && (forall k :: k in s.order ==> k in s.table)
    && (forall k :: k in s.table ==> k in s.order)
    && (forall k :: k in s.table ==> k != "" && s.table[k].holds != "" && s.table[k].requests != "")
  }

  /** The table at start-up. */
  const Empty := Store([], map[])

  /** Reads back the entry stored for `name`, if any. */
  function Lookup(s: Store, name: string): (r: Option<Entry>)
    ensures r.Some? <==> name in s.table
    ensures r.Some? ==> r.value == s.table[name]
  {
    if name in s.table then Some(s.table[name]) else None
  }

  /** A request field counts as given when it is present and not the empty string. */
  predicate Given(f: Option<string>) {
    f.Some? && f.value != ""
  }

  datatype AddOutcome = Added(process: string) | InvalidInput

  datatype AddReply = AddReply(outcome: AddOutcome, store: Store)

  /** Adds (or overwrites) the process `name`, after checking that all three
      fields are given. */
  function Add(s: Store, name: Option<string>, holds: Option<string>, requests: Option<string>): (r: AddReply)
    requires Valid(s)
    ensures Valid(r.store)
    ensures r.outcome == InvalidInput <==> !(Given(name) && Given(holds) && Given(requests))
    ensures r.outcome == InvalidInput ==> r.store == s
    ensures r.outcome.Added? ==> r.outcome.process == name.value
    ensures r.outcome.Added? ==> Lookup(r.store, name.value) == Some(Entry(holds.value, requests.value))
    ensures r.outcome.Added? ==> forall k :: k != name.value ==> Lookup(r.store, k) == Lookup(s, k)
    ensures r.outcome.Added? && name.value in s.table ==> r.store.order == s.order
    ensures r.outcome.Added? && name.value !in s.table ==> r.store.order == s.order + [name.value]
  {
    if !(Given(name) && Given(holds) && Given(requests)) then
      AddReply(InvalidInput, s)
    else
      var n := name.value;
      var order := if n in s.table then s.order else s.order + [n];
      AddReply(Added(n), Store(order, s.table[n := Entry(holds.value, requests.value)]))
  }

  /** Adding a process and reading it back immediately yields exactly the
      fields that were given. */
  lemma AddThenLookup(s: Store, name: string, holds: string, requests: string)
    requires Valid(s)
    requires name != "" && holds != "" && requests != ""
    ensures Add(s, Some(name), Some(holds), Some(requests)).outcome == Added(name)
    ensures Lookup(Add(s, Some(name), Some(holds), Some(requests)).store, name) == Some(Entry(holds, requests))
  {
  }

  /** Removes every process. */
  function Clear(s: Store): (r: Store)
    ensures Valid(r)
    ensures |r.table| == 0 && |r.order| == 0
    ensures forall k :: Lookup(r, k) == None
  {
    Empty
  }

  /** Clearing twice is the same as clearing once; clearing an empty table
      leaves it empty. */
  lemma ClearIdempotent(s: Store)
    ensures Clear(Clear(s)) == Clear(s)
    ensures s == Empty ==> Clear(s) == s
  {
  }

  /** `xs` with every occurrence of `x` removed, the rest kept in order. */
  function Without(xs: seq<string>, x: string): (ys: seq<string>)
    ensures forall y :: y in ys <==> y in xs && y != x
    ensures x !in xs ==> ys == xs
    ensures Distinct(xs) ==> Distinct(ys)
    ensures |ys| <= |xs|
  {
    if xs == [] then []
    else if xs[0] == x then Without(xs[1..], x)
    else
      var rest := Without(xs[1..], x);
      assert Distinct(xs) ==> xs[0] !in xs[1..] by {
        if Distinct(xs) {
          forall j | 0 <= j < |xs[1..]| ensures xs[1..][j] != xs[0] {
            assert xs[1..][j] == xs[j + 1];
          }
        }
      }
      var ys := [xs[0]] + rest;
      assert forall j :: 1 <= j < |ys| ==> ys[j] == rest[j - 1];
      ys
  }

  /** In a sequence without repetitions, removing the element at position `i`
      by value is the same as cutting that position out. */
  lemma {:induction false} WithoutAt(xs: seq<string>, i: int)
    requires Distinct(xs) && 0 <= i < |xs|
    ensures Without(xs, xs[i]) == xs[..i] + xs[i + 1..]
    decreases |xs|
  {
    if i == 0 {
      assert xs[0] !in xs[1..];
    } else {
      assert xs[0] != xs[i];
      WithoutAt(xs[1..], i - 1);
      assert xs[1..][i - 1] == xs[i];
      assert xs[1..][..i - 1] == xs[1..i];
      assert xs[1..][i - 1 + 1..] == xs[i + 1..];
      assert [xs[0]] + xs[1..i] == xs[..i];
    }
  }

  /** Deletes the process `name`; the caller passes a name that is present,
      as a Python `del` on a missing key would raise. */
  function Delete(s: Store, name: string): (r: Store)
    requires Valid(s) && name in s.table
    ensures Valid(r)
    ensures name !in r.table && |r.table| == |s.table| - 1
    ensures forall k :: k != name ==> Lookup(r, k) == Lookup(s, k)
    ensures forall i :: 0 <= i < |s.order| && s.order[i] == name ==> r.order == s.order[..i] + s.order[i + 1..]
  {
    forall i | 0 <= i < |s.order| && s.order[i] == name
      ensures Without(s.order, name) == s.order[..i] + s.order[i + 1..]
    {
      WithoutAt(s.order, i);
    }
    Store(Without(s.order, name), s.table - {name})
  }

  /** Deleting a process that was just added under a new name restores the
      table exactly, insertion order included. */
  lemma AddThenDelete(s: Store, name: string, holds: string, requests: string)
    requires Valid(s) && name !in s.table
    requires name != "" && holds != "" && requests != ""
    ensures name in Add(s, Some(name), Some(holds), Some(requests)).store.table
    ensures Delete(Add(s, Some(name), Some(holds), Some(requests)).store, name) == s
  {
    var a := Add(s, Some(name), Some(holds), Some(requests)).store;
    assert a.order == s.order + [name];
    assert a.order[|s.order|] == name;
    assert a.order[..|s.order|] + a.order[|s.order| + 1..] == s.order;
    assert a.table - {name} == s.table;
  }
}
