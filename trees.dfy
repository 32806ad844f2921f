/**
 * The sorted unique-key collection. Its comparator is modelled as a rank
 * function: two elements compare equal exactly when their ranks are equal,
 * and the collection holds its elements in strictly ascending rank order.
 */
module Trees {
  import opened Wire

  ghost predicate StrictlySorted<E>(rank: E -> int, s: seq<E>) {
    forall i, j :: 0 <= i < j < |s| ==> rank(s[i]) < rank(s[j])
  }

  /** Some element of s compares equal to e. */
  ghost predicate HasRank<E>(rank: E -> int, s: seq<E>, e: E) {
    exists i :: 0 <= i < |s| && rank(s[i]) == rank(e)
  }

  /** An element ranked below the first of a sorted collection compares equal to none of it. */
  lemma BelowFirst<E>(rank: E -> int, s: seq<E>, e: E)
    requires StrictlySorted(rank, s) && s != [] && rank(e) < rank(s[0])
    ensures !HasRank(rank, s, e)
  {
    forall i | 0 <= i < |s| ensures rank(s[i]) != rank(e) {
      assert i == 0 || rank(s[0]) < rank(s[i]);
    }
  }

  /** Past a first element of another rank, only the rest can compare equal. */
  lemma HasRankTail<E>(rank: E -> int, s: seq<E>, e: E)
    requires s != [] && rank(e) != rank(s[0])
    ensures HasRank(rank, s, e) <==> HasRank(rank, s[1..], e)
  {
    if HasRank(rank, s, e) {
      var i :| 0 <= i < |s| && rank(s[i]) == rank(e);
      assert s[1..][i - 1] == s[i];
    }
    if HasRank(rank, s[1..], e) {
      var i :| 0 <= i < |s[1..]| && rank(s[1..][i]) == rank(e);
      assert s[i + 1] == s[1..][i];
    }
  }

  /** What inserting into the rest yields still lies above the first element. */
  lemma AboveFirst<E>(rank: E -> int, s: seq<E>, e: E, t: seq<E>)
    requires StrictlySorted(rank, s) && s != [] && rank(s[0]) < rank(e)
    requires multiset(t) == multiset(s[1..]) + multiset{e}
    ensures forall k :: 0 <= k < |t| ==> rank(s[0]) < rank(t[k])
  {
    forall k | 0 <= k < |t| ensures rank(s[0]) < rank(t[k]) {
      assert t[k] in multiset(t);
      if t[k] != e {
        assert t[k] in multiset(s[1..]);
        var m :| 0 <= m < |s[1..]| && s[1..][m] == t[k];
        assert s[m + 1] == t[k];
      }
    }
  }

  /**
   * Ordered insertion into a sorted collection: it fails, leaving the
   * collection as it was, when an element comparing equal is present.
   */
  function InsertSorted<E>(rank: E -> int, s: seq<E>, e: E): (r: Option<seq<E>>)
    requires StrictlySorted(rank, s)
    ensures r.None? <==> HasRank(rank, s, e)
    ensures r.Some? ==> StrictlySorted(rank, r.value)
    ensures r.Some? ==> multiset(r.value) == multiset(s) + multiset{e} && |r.value| == |s| + 1
  {
    if s == [] then Some([e])
    else if rank(e) < rank(s[0]) then
      BelowFirst(rank, s, e);
      Some([e] + s)
    else if rank(e) == rank(s[0]) then None
    else
      HasRankTail(rank, s, e);
      assert s == [s[0]] + s[1..];
      match InsertSorted(rank, s[1..], e)
      case None => None
      case Some(t) =>
        AboveFirst(rank, s, e, t);
        Some([s[0]] + t)
  }

  /**
   * The collection obtained by inserting the elements one after the other
   * into t, or None at the first element that compares equal to one already
   * present.
   */
  function Build<E>(rank: E -> int, t: seq<E>, elems: seq<E>): (r: Option<seq<E>>)
    requires StrictlySorted(rank, t)
    ensures r.Some? ==> StrictlySorted(rank, r.value)
    ensures r.Some? ==> multiset(r.value) == multiset(t) + multiset(elems)
    decreases |elems|
  {
    if elems == [] then Some(t)
    else match InsertSorted(rank, t, elems[0])
      case None => None
      case Some(t') =>
        assert elems == [elems[0]] + elems[1..];
        Build(rank, t', elems[1..])
  }

  /** Building from one more element inserts it into what the others built. */
  lemma {:induction false} BuildSnoc<E>(rank: E -> int, t: seq<E>, elems: seq<E>, e: E)
    requires StrictlySorted(rank, t) && Build(rank, t, elems).Some?
    ensures Build(rank, t, elems + [e]) == InsertSorted(rank, Build(rank, t, elems).value, e)
    decreases |elems|
  {
    if elems == [] {
      assert elems + [e] == [e] && [e][1..] == [];
    } else {
      var t' := InsertSorted(rank, t, elems[0]).value;
      assert (elems + [e])[0] == elems[0] && (elems + [e])[1..] == elems[1..] + [e];
      BuildSnoc(rank, t', elems[1..], e);
    }
  }

  /** Inserting an element greater than all present appends it. */
  lemma {:induction false} InsertGreatest<E>(rank: E -> int, s: seq<E>, e: E)
    requires StrictlySorted(rank, s)
    requires forall i :: 0 <= i < |s| ==> rank(s[i]) < rank(e)
    ensures InsertSorted(rank, s, e) == Some(s + [e])
  {
    if s != [] {
      assert rank(s[0]) < rank(e);
      InsertGreatest(rank, s[1..], e);
      assert InsertSorted(rank, s[1..], e) == Some(s[1..] + [e]);
      assert InsertSorted(rank, s, e) == Some([s[0]] + (s[1..] + [e]));
      assert [s[0]] + (s[1..] + [e]) == s + [e];
    } else {
      assert s + [e] == [e];
    }
  }

  /**
   * Inserting elements that continue the ascending order of t appends
   * them: restoring the elements of a sorted collection in their stored
   * order rebuilds the same collection.
   */
  lemma {:induction false} BuildAscending<E>(rank: E -> int, t: seq<E>, elems: seq<E>)
    requires StrictlySorted(rank, t + elems)
    ensures StrictlySorted(rank, t)
    ensures Build(rank, t, elems) == Some(t + elems)
    decreases |elems|
  {
    var all := t + elems;
    assert forall i, j :: 0 <= i < j < |t| ==> t[i] == all[i] && t[j] == all[j];
    if elems != [] {
      var e := elems[0];
      assert forall i :: 0 <= i < |t| ==> t[i] == all[i] && e == all[|t|];
      InsertGreatest(rank, t, e);
      assert (t + [e]) + elems[1..] == all;
      BuildAscending(rank, t + [e], elems[1..]);
    } else {
      assert t + elems == t;
    }
  }

  /** Once an element of rank equal to elems[j] is present, building fails. */
  lemma {:induction false} BuildRejectsPresent<E>(rank: E -> int, t: seq<E>, elems: seq<E>, j: nat)
    requires StrictlySorted(rank, t)
    requires j < |elems| && HasRank(rank, t, elems[j])
    ensures Build(rank, t, elems).None?
    decreases |elems|
  {
    if j > 0 {
      match InsertSorted(rank, t, elems[0])
      case None =>
      case Some(t') =>
        var i :| 0 <= i < |t| && rank(t[i]) == rank(elems[j]);
        assert t[i] in multiset(t');
        var k :| 0 <= k < |t'| && t'[k] == t[i];
        assert elems[1..][j - 1] == elems[j];
        assert HasRank(rank, t', elems[1..][j - 1]);
        BuildRejectsPresent(rank, t', elems[1..], j - 1);
    }
  }

  /** Two elements that compare equal make building fail: duplicates are rejected. */
  lemma {:induction false} BuildRejectsDuplicates<E>(rank: E -> int, t: seq<E>, elems: seq<E>, i: nat, j: nat)
    requires StrictlySorted(rank, t)
    requires i < j < |elems| && rank(elems[i]) == rank(elems[j])
    ensures Build(rank, t, elems).None?
    decreases |elems|
  {
    match InsertSorted(rank, t, elems[0])
    case None =>
    case Some(t') =>
      assert elems[1..][j - 1] == elems[j];
      if i == 0 {
        assert elems[0] in multiset(t');
        var k :| 0 <= k < |t'| && t'[k] == elems[0];
        assert HasRank(rank, t', elems[1..][j - 1]);
        BuildRejectsPresent(rank, t', elems[1..], j - 1);
      } else {
        assert elems[1..][i - 1] == elems[i];
        BuildRejectsDuplicates(rank, t', elems[1..], i - 1, j - 1);
      }
  }

  /**
   * Elements of pairwise distinct rank, none comparing equal to an element
   * of t, always build, whatever their order.
   */
  lemma {:induction false} BuildDistinct<E>(rank: E -> int, t: seq<E>, elems: seq<E>)
    requires StrictlySorted(rank, t)
    requires forall i, j :: 0 <= i < j < |elems| ==> rank(elems[i]) != rank(elems[j])
    requires forall i :: 0 <= i < |elems| ==> !HasRank(rank, t, elems[i])
    ensures Build(rank, t, elems).Some?
    decreases |elems|
  {
    if elems != [] {
      var e := elems[0];
      var t' := InsertSorted(rank, t, e).value;
      var rest := elems[1..];
      forall i | 0 <= i < |rest| ensures !HasRank(rank, t', rest[i]) {
        assert rest[i] == elems[i + 1];
        forall k | 0 <= k < |t'| ensures rank(t'[k]) != rank(rest[i]) {
          assert t'[k] in multiset(t');
          if t'[k] != e {
            assert t'[k] in multiset(t);
            var m :| 0 <= m < |t| && t[m] == t'[k];
          }
        }
      }
      forall i, j | 0 <= i < j < |rest| ensures rank(rest[i]) != rank(rest[j]) {
        assert rest[i] == elems[i + 1] && rest[j] == elems[j + 1];
      }
      BuildDistinct(rank, t', rest);
    }
  }

  /** AVS_RBTREE: a sorted unique-key collection updated in place. */
  class Tree<E> {
    const rank: E -> int
    var elems: seq<E>

    ghost predicate Valid()
      reads this
    {
      StrictlySorted(rank, elems)
    }

    constructor (rank: E -> int)
      ensures Valid() && this.rank == rank && elems == []
    {
      this.rank := rank;
      elems := [];
    }

    /** AVS_RBTREE_INSERT: e goes in unless an element comparing equal is present. */
    method Insert(e: E) returns (inserted: bool)
      requires Valid()
      modifies this
      ensures Valid()
      ensures inserted <==> InsertSorted(rank, old(elems), e).Some?
      ensures elems == if inserted then InsertSorted(rank, old(elems), e).value else old(elems)
    {
      match InsertSorted(rank, elems, e)
      case None =>
        inserted := false;
      case Some(t) =>
        elems, inserted := t, true;
    }

    /** AVS_RBTREE_CLEAR, once every element has been cleaned up. */
    method Clear()
      modifies this
      ensures Valid() && elems == []
    {
      elems := [];
    }
  }
}
