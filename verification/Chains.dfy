/** Entries of a table that lead to one another, and the chains they make: those that end, and how long
    they are. */
module Chains {
  import opened Wrappers

  /** Where each entry leads, if anywhere. */
  type Links = seq<Option<nat>>

  function NextOf(links: Links, id: nat): Option<nat> {
    if id < |links| then links[id] else None
  }

  /** Whether the chain from an entry ends within `n` links. */
  predicate EndsIn(links: Links, id: nat, n: nat)
    decreases n
  {
    NextOf(links, id).None? || (n > 0 && EndsIn(links, NextOf(links, id).value, n - 1))
  }

  /** Whether it ends: if it does, it does within as many links as there are entries. */
  predicate Ends(links: Links, id: nat) {
    EndsIn(links, id, |links|)
  }

  predicate AllEnd(links: Links) {
    forall id {:trigger Ends(links, id)} :: 0 <= id < |links| ==> Ends(links, id)
  }

  function LengthIn(links: Links, id: nat, n: nat): nat
    requires EndsIn(links, id, n)
    decreases n
  {
    if NextOf(links, id).None? then 0 else 1 + LengthIn(links, NextOf(links, id).value, n - 1)
  }

  /** The length of a chain that ends does not depend on how long it was given. */
  lemma {:induction false} LengthIsOne(links: Links, id: nat, n: nat, m: nat)
    requires EndsIn(links, id, n) && LengthIn(links, id, n) <= m
    ensures EndsIn(links, id, m) && LengthIn(links, id, m) == LengthIn(links, id, n)
    decreases n
  {
    if NextOf(links, id).Some? {
      LengthIsOne(links, NextOf(links, id).value, n - 1, m - 1);
    }
  }

  lemma {:induction false} LengthIsShort(links: Links, id: nat, n: nat)
    requires EndsIn(links, id, n)
    ensures LengthIn(links, id, n) <= n
    decreases n
  {
    if NextOf(links, id).Some? {
      LengthIsShort(links, NextOf(links, id).value, n - 1);
    }
  }

  /** The entries of a chain that ends are distinct: it meets none of a length twice. */
  lemma {:induction false} ChainIsDistinct(links: Links, id: nat, n: nat) returns (met: set<nat>)
    requires EndsIn(links, id, n)
    ensures |met| == LengthIn(links, id, n)
    ensures forall x :: x in met ==>
              x < |links| && EndsIn(links, x, n) && LengthIn(links, x, n) <= LengthIn(links, id, n)
    decreases n
  {
    if NextOf(links, id).None? {
      met := {};
    } else {
      var next := NextOf(links, id).value;
      var rest := ChainIsDistinct(links, next, n - 1);
      forall x | x in rest
        ensures EndsIn(links, x, n) && LengthIn(links, x, n) < LengthIn(links, id, n)
      {
        LengthIsShort(links, x, n - 1);
        LengthIsOne(links, x, n - 1, n);
      }
      met := rest + {id};
    }
  }

  lemma {:induction false} FewBelow(met: set<nat>, n: nat)
    requires forall x :: x in met ==> x < n
    ensures |met| <= n
  {
    if n == 0 {
      assert met == {};
    } else {
      FewBelow(met - {n - 1}, n - 1);
      assert met <= (met - {n - 1}) + {n - 1};
    }
  }

  /** A chain that ends at all ends within as many links as there are entries. */
  lemma EndsSoon(links: Links, id: nat, n: nat)
    requires EndsIn(links, id, n)
    ensures Ends(links, id)
  {
    var met := ChainIsDistinct(links, id, n);
    FewBelow(met, |links|);
    LengthIsOne(links, id, n, |links|);
  }

  function Length(links: Links, id: nat): nat
    requires Ends(links, id)
  {
    LengthIn(links, id, |links|)
  }

  /** Each link takes one off what is left of a chain that ends. */
  lemma NextIsShorter(links: Links, id: nat)
    requires Ends(links, id) && NextOf(links, id).Some?
    ensures Ends(links, NextOf(links, id).value)
    ensures Length(links, NextOf(links, id).value) == Length(links, id) - 1
  {
    var next := NextOf(links, id).value;
    LengthIsShort(links, next, |links| - 1);
    LengthIsOne(links, next, |links| - 1, |links|);
  }
}
