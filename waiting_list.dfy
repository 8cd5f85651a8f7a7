/**
 * The per-title waiting list. Its implementation is not part of this model;
 * what the lending engine relies on is a plain FIFO queue of requester names:
 * adding appends at the tail, removing pops the head or reports that there was
 * nobody (Python's `None`).
 */
module WaitingList {
  import opened Wrappers

  type Queue = seq<string>

  /** `add_to_waiting_list(name)`: the name joins at the tail; duplicates are kept. */
  function Add(q: Queue, name: string): (r: Queue)
    ensures |r| == |q| + 1 && r[..|q|] == q && r[|q|] == name
  {
    q + [name]
  }

  /** `remove_from_waiting_list()`: the head and the rest, or `None` on an empty queue. */
  function Remove(q: Queue): (r: (Option<string>, Queue))
    ensures q == [] ==> r == (None, [])
    ensures q != [] ==> r.0 == Some(q[0]) && [q[0]] + r.1 == q
  {
    if q == [] then (None, []) else (Some(q[0]), q[1..])
  }

  /** Adding every name of `names` in turn. */
  function AddAll(q: Queue, names: seq<string>): (r: Queue)
    decreases |names|
  {
    if names == [] then q else AddAll(Add(q, names[0]), names[1..])
  }

  /** The heads popped by `k` successive removals, oldest first, and what is left. */
  function RemoveMany(q: Queue, k: nat): (r: (seq<string>, Queue))
    decreases k
  {
    if k == 0 then ([], q)
    else
      var (head, rest) := Remove(q);
      var (more, left) := RemoveMany(rest, k - 1);
      (if head.Some? then [head.value] + more else more, left)
  }

  /** Adding a batch of names puts them behind what was already queued, in order. */
  lemma {:induction false} AddAllAppends(q: Queue, names: seq<string>)
    ensures AddAll(q, names) == q + names
    decreases |names|
  {
    if names != [] {
      AddAllAppends(Add(q, names[0]), names[1..]);
      assert q + [names[0]] + names[1..] == q + names;
    }
  }

  /** FIFO: `k` removals pop exactly the first `k` entries, in queue order, and leave the rest. */
  lemma {:induction false} RemoveManyIsPrefix(q: Queue, k: nat)
    ensures RemoveMany(q, k) == (q[..if k <= |q| then k else |q|], q[if k <= |q| then k else |q|..])
    decreases k
  {
    if k > 0 {
      RemoveManyIsPrefix(Remove(q).1, k - 1);
      if q != [] {
        var m := if k <= |q| then k else |q|;
        assert [q[0]] + q[1..][..m - 1] == q[..m];
        assert q[1..][m - 1..] == q[m..];
      }
    }
  }

  /** Whoever queued first is removed first: a batch added to an empty queue comes back in order. */
  lemma {:induction false} FirstComeFirstServed(names: seq<string>)
    ensures RemoveMany(AddAll([], names), |names|) == (names, [])
  {
    AddAllAppends([], names);
    assert AddAll([], names) == names;
    RemoveManyIsPrefix(names, |names|);
    assert names[..|names|] == names;
    assert names[|names|..] == [];
  }
}
