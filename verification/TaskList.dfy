/** The Time Manager's list of descriptors, each named by its task, and the position of a pointer
    into it. */
module TaskList {
  import opened Bytes

  /** A Time Manager task, named by its address. */
  type Task = nat

  predicate Distinct(order: seq<Task>) {
    order == [] || (order[0] !in order[1..] && Distinct(order[1..]))
  }

  function Without(order: seq<Task>, t: Task): (r: seq<Task>)
    ensures forall u :: u in r <==> u in order && u != t
    ensures |r| <= |order|
  {
    if order == [] then [] else
    if order[0] == t then Without(order[1..], t) else [order[0]] + Without(order[1..], t)
  }

  function HeadOf(order: seq<Task>): Option<Task> {
    if order == [] then None else Some(order[0])
  }

  /** The list from the descriptor of `t` on. */
  function TailFrom(order: seq<Task>, t: Task): (r: seq<Task>)
    ensures t in order ==> r != [] && r[0] == t
    ensures t !in order ==> r == []
    ensures forall u :: u in r ==> u in order
  {
    if order == [] then [] else if order[0] == t then order else TailFrom(order[1..], t)
  }

  /** The descriptors a pointer into the list has still to pass. */
  function Tail(order: seq<Task>, desc: Option<Task>): seq<Task> {
    if desc.None? then [] else TailFrom(order, desc.value)
  }

  /** The `next` pointer of the descriptor of `t`, as it is in the list now. */
  function NextOf(order: seq<Task>, t: Task): Option<Task> {
    var r := TailFrom(order, t);
    if |r| > 1 then Some(r[1]) else None
  }

  lemma {:induction false} TailIsSuffix(order: seq<Task>, t: Task)
    ensures exists k | 0 <= k <= |order| :: TailFrom(order, t) == order[k..]
  {
    if order == [] || order[0] == t {
      assert TailFrom(order, t) == order[0..];
    } else {
      TailIsSuffix(order[1..], t);
      var k :| 0 <= k <= |order| - 1 && TailFrom(order[1..], t) == order[1..][k..];
      assert TailFrom(order, t) == order[k + 1..];
    }
  }

  /** Following the pointer passes one descriptor. */
  lemma {:induction false} TailOfNext(order: seq<Task>, t: Task)
    requires Distinct(order) && t in order
    ensures Tail(order, NextOf(order, t)) == TailFrom(order, t)[1..]
    ensures NextOf(order, t).Some? ==> NextOf(order, t).value in order
    ensures t !in TailFrom(order, t)[1..]
  {
    if order[0] == t {
      if |order| > 1 {
        assert order[1] in order[1..];
        assert TailFrom(order, order[1]) == TailFrom(order[1..], order[1]);
      }
    } else {
      TailOfNext(order[1..], t);
      var next := NextOf(order[1..], t);
      if next.Some? {
        assert next.value != order[0];
      }
    }
  }

  /** Inserting a new descriptor in front leaves the tail alone. */
  lemma TailOfInserted(order: seq<Task>, t: Task, u: Task)
    requires t != u
    ensures TailFrom([u] + order, t) == TailFrom(order, t)
  {
    assert ([u] + order)[1..] == order;
  }

  /** Removing another descriptor takes it out of the tail. */
  lemma {:induction false} TailWithout(order: seq<Task>, t: Task, u: Task)
    requires t != u
    ensures TailFrom(Without(order, u), t) == Without(TailFrom(order, t), u)
  {
    if order != [] && order[0] != t {
      TailWithout(order[1..], t, u);
    }
  }

  lemma {:induction false} WithoutKeepsDistinct(order: seq<Task>, t: Task)
    requires Distinct(order)
    ensures Distinct(Without(order, t))
  {
    if order != [] {
      WithoutKeepsDistinct(order[1..], t);
      var rest := Without(order[1..], t);
      if order[0] != t {
        assert ([order[0]] + rest)[1..] == rest;
      }
    }
  }

  lemma {:induction false} WithoutSplits(order: seq<Task>, i: nat)
    requires Distinct(order) && i < |order|
    ensures Without(order, order[i]) == order[..i] + order[i + 1..]
  {
    if i == 0 {
      WithoutAbsent(order[1..], order[0]);
    } else {
      var first, rest := order[0], order[1..];
      WithoutSplits(rest, i - 1);
      CutFromRest(order, i);
      WithoutLater(order, order[i]);
      hide *;
    }
  }

  lemma CutFromRest(order: seq<Task>, i: nat)
    requires 0 < i < |order|
    ensures order[i] == order[1..][i - 1] && order[i] in order[1..]
    ensures order[..i] + order[i + 1..] == [order[0]] + (order[1..][..i - 1] + order[1..][i - 1 + 1..])
  {
  }

  lemma WithoutLater(order: seq<Task>, t: Task)
    requires Distinct(order) && order != [] && t in order[1..]
    ensures Without(order, t) == [order[0]] + Without(order[1..], t)
  {
  }

  lemma {:induction false} WithoutAbsent(order: seq<Task>, t: Task)
    requires t !in order
    ensures Without(order, t) == order
  {
    if order != [] {
      WithoutAbsent(order[1..], t);
    }
  }
}
