/** Allocation of vertex identifiers from a counter that skips the occupied ones and never wraps. */
module VertexIds {
  import opened Prelude

  /** The first free identifier from `n` on, unless the counter would have to leave its type. */
  function NextFree(used: set<Id>, n: Id): (r: Option<Id>)
    ensures r.Some? ==> r.value !in used && n <= r.value < U64_MAX && forall m: Id :: n <= m < r.value ==> m in used
    ensures r.None? ==> forall m: Id :: n <= m < U64_MAX ==> m in used
    decreases U64_MAX - n
  {
    if n == U64_MAX then None
    else if n in used then NextFree(used, n + 1)
    else Some(n)
  }

  /** The counter after `k` allocations against a fixed set of occupied identifiers. */
  function CounterAfter(used: set<Id>, n: Id, k: nat): Option<Id>
    decreases k
  {
    if k == 0 then Some(n)
    else match NextFree(used, n)
      case None => None
      case Some(id) => CounterAfter(used, id + 1, k - 1)
  }

  method NextFreeVertexId(used: set<Id>, next: Id) returns (r: Option<(Id, Id)>)
    ensures r.None? <==> NextFree(used, next).None?
    ensures r.Some? ==> NextFree(used, next) == Some(r.value.0) && r.value.1 == r.value.0 + 1
  {
    var n := next;
    while n in used
      invariant NextFree(used, next) == NextFree(used, n)
      decreases U64_MAX - n
    {
      if n == U64_MAX {
        return None;
      }
      n := n + 1;
    }
    if n == U64_MAX {
      return None;
    }
    return Some((n, n + 1));
  }

  lemma {:induction false} CounterAfterOneMore(used: set<Id>, n: Id, k: nat)
    ensures CounterAfter(used, n, k + 1) ==
      (match CounterAfter(used, n, k)
       case None => None
       case Some(m) => CounterAfter(used, m, 1))
    decreases k
  {
    if k > 0 {
      match NextFree(used, n)
      case None =>
      case Some(id) => CounterAfterOneMore(used, id + 1, k - 1);
    }
  }

  /** Fewer occupied identifiers and an earlier counter: allocation still succeeds, and ends no later. */
  lemma {:induction false} AllocationIsMonotone(used: set<Id>, n: Id, k: nat, used': set<Id>, n': Id, k': nat)
    requires used' <= used && n' <= n && k' <= k
    requires CounterAfter(used, n, k).Some?
    ensures CounterAfter(used', n', k').Some?
    ensures CounterAfter(used', n', k').value <= CounterAfter(used, n, k).value
    decreases k
  {
    if k' == 0 {
      CounterGrows(used, n, k);
    } else {
      var id := NextFree(used, n).value;
      assert id !in used';
      assert NextFree(used', n').Some? && NextFree(used', n').value <= id;
      AllocationIsMonotone(used, id + 1, k - 1, used', NextFree(used', n').value + 1, k' - 1);
    }
  }

  lemma {:induction false} CounterGrows(used: set<Id>, n: Id, k: nat)
    requires CounterAfter(used, n, k).Some?
    ensures n <= CounterAfter(used, n, k).value
    decreases k
  {
    if k > 0 {
      CounterGrows(used, NextFree(used, n).value + 1, k - 1);
    }
  }
}
