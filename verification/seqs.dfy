/** Sequence helpers: Python's slicing bound and `str.join`. */
module Seqs {

  function Min(a: int, b: int): (m: int)
    ensures m <= a && m <= b
    ensures m == a || m == b
  {
    if a <= b then a else b
  }

  /** All parts one after the other (`"".join(parts)`). */
  function Concat<T>(parts: seq<seq<T>>): (flat: seq<T>)
  {
    if parts == [] then [] else parts[0] + Concat(parts[1..])
  }

  /** The parts with `sep` between neighbours (`sep.join(parts)`). */
  function Join<T>(parts: seq<seq<T>>, sep: seq<T>): (joined: seq<T>)
  {
    if |parts| == 0 then []
    else if |parts| == 1 then parts[0]
    else parts[0] + sep + Join(parts[1..], sep)
  }

  /** Total length of the parts. */
  function TotalLength<T>(parts: seq<seq<T>>): (total: nat)
  {
    if parts == [] then 0 else |parts[0]| + TotalLength(parts[1..])
  }

  /** Joining one more part at the end puts one more separator before it. */
  lemma {:induction false} JoinSnoc<T>(parts: seq<seq<T>>, last: seq<T>, sep: seq<T>)
    ensures Join(parts + [last], sep) == if parts == [] then last else Join(parts, sep) + sep + last
  {
    if |parts| <= 1 {
    } else {
      assert (parts + [last])[1..] == parts[1..] + [last];
      JoinSnoc(parts[1..], last, sep);
    }
  }

  /** A join is as long as its parts plus one separator between each pair of neighbours. */
  lemma {:induction false} JoinLength<T>(parts: seq<seq<T>>, sep: seq<T>)
    requires parts != []
    ensures |Join(parts, sep)| == TotalLength(parts) + (|parts| - 1) * |sep|
  {
    if |parts| == 1 {
      assert parts[1..] == [];
    } else {
      JoinLength(parts[1..], sep);
    }
  }

  /** With no empty part, a join is empty exactly when there is nothing to join. */
  lemma {:induction false} JoinEmptyIff<T>(parts: seq<seq<T>>, sep: seq<T>)
    requires forall i :: 0 <= i < |parts| ==> parts[i] != []
    ensures Join(parts, sep) == [] <==> parts == []
  {
    if parts != [] {
      JoinLength(parts, sep);
      assert TotalLength(parts) >= |parts[0]| > 0;
    }
  }

  lemma ConcatCons<T>(head: seq<T>, rest: seq<seq<T>>)
    ensures Concat([head] + rest) == head + Concat(rest)
  {
    assert ([head] + rest)[1..] == rest;
  }
}
