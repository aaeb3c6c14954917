/**
 `InspectNodeComponentRequest` (Source/Tools/Editor/Project/ProjectRequest.h):
 a request to inspect scene nodes and components. Its constructor keeps
 the non-null inputs, in input order, and then sorts each list by the
 identity of the referenced object. Nothing removes duplicates.

 A `WeakPtr` is modelled by the address it refers to, `Null` (0) for a
 null pointer; whether the referent is still alive belongs to the engine.
 */
module NodeComponentRequest {
  import CallbackQueue

  type NodeId = int
  type ComponentId = int

  /** The null pointer. */
  const Null: int := 0

  /** The non-null elements of `s`, in their order in `s`, repeats kept. */
  function NonNull(s: seq<int>): (r: seq<int>)
    ensures forall i | 0 <= i < |r| :: r[i] != Null
    ensures multiset(r) == multiset(s)[Null := 0]
  {
    if s == [] then []
    else
      var init, last := s[..|s| - 1], s[|s| - 1];
      assert s == init + [last];
      NonNull(init) + (if last != Null then [last] else [])
  }

  /** Nothing survives the filter exactly when every input is null. */
  lemma {:induction false} NonNullIsEmptyIffAllNull(s: seq<int>)
    ensures NonNull(s) == [] <==> forall i | 0 <= i < |s| :: s[i] == Null
  {
    if forall i | 0 <= i < |s| :: s[i] == Null {
      assert multiset(s)[Null := 0] == multiset{} by {
        forall x | x in multiset(s) ensures x == Null {
          var i :| 0 <= i < |s| && s[i] == x;
        }
      }
    } else {
      var i :| 0 <= i < |s| && s[i] != Null;
      assert s[i] in multiset(s)[Null := 0];
    }
  }

  /** `s` is in ascending order of identity. */
  predicate Sorted(s: seq<int>)
  {
    forall i, j | 0 <= i < j < |s| :: s[i] <= s[j]
  }

  /** The first element of an ascending list is its least. */
  lemma SortedHeadIsLeast(s: seq<int>, x: int)
    requires Sorted(s) && x in multiset(s)
    ensures s[0] <= x
  {
    var i :| 0 <= i < |s| && s[i] == x;
  }

  /**
   Two ascending lists with the same elements, counted with multiplicity,
   are equal: the sorted lists do not depend on the order of the inputs.
   */
  lemma {:induction false} SortedPermutationIsUnique(a: seq<int>, b: seq<int>)
    requires Sorted(a) && Sorted(b) && multiset(a) == multiset(b)
    ensures a == b
    decreases |a|
  {
    if a != [] {
      assert a[0] in multiset(a);
      assert b != [];
      assert b[0] in multiset(b);
      SortedHeadIsLeast(a, b[0]);
      SortedHeadIsLeast(b, a[0]);
      var a', b' := a[1..], b[1..];
      assert a[0] == b[0];
      assert a == [a[0]] + a' && b == [b[0]] + b';
      assert multiset(a') == multiset(a) - multiset{a[0]};
      assert multiset(b') == multiset(b) - multiset{b[0]};
      assert Sorted(a') && Sorted(b');
      SortedPermutationIsUnique(a', b');
    }
  }

  /** The contents of the request depend only on the non-null inputs, not on their order. */
  lemma InputOrderIsIrrelevant(s: seq<int>, t: seq<int>, a: seq<int>, b: seq<int>)
    requires multiset(s) == multiset(t)
    requires Sorted(a) && multiset(a) == multiset(NonNull(s))
    requires Sorted(b) && multiset(b) == multiset(NonNull(t))
    ensures a == b
  {
    SortedPermutationIsUnique(a, b);
  }

  /** The constructor's filtering loop: append each non-null input in turn. */
  method KeepNonNull(input: seq<int>) returns (kept: seq<int>)
    ensures kept == NonNull(input)
  {
    kept := [];
    for i := 0 to |input|
      invariant kept == NonNull(input[..i])
    {
      assert input[..i + 1][..i] == input[..i];
      if input[i] != Null {
        kept := kept + [input[i]];
      }
    }
    assert input[..|input|] == input;
  }

  /** Exchange `a[j - 1]` and `a[j]`. */
  method SwapWithPrevious(a: array<int>, j: int)
    requires 0 < j < a.Length
    modifies a
    ensures a[..] == old(a[..])[j - 1 := old(a[j])][j := old(a[j - 1])]
    ensures multiset(a[..]) == old(multiset(a[..]))
  {
    a[j - 1], a[j] := a[j], a[j - 1];
  }

  /**
   One step of the sort: with `a[..i]` ascending, move `a[i]` left past the
   larger elements so that `a[..i + 1]` is ascending.
   */
  method InsertAt(a: array<int>, i: int)
    requires 0 <= i < a.Length
    requires forall k, l | 0 <= k < l < i :: a[k] <= a[l]
    modifies a
    ensures forall k, l | 0 <= k < l <= i :: a[k] <= a[l]
    ensures forall k | i < k < a.Length :: a[k] == old(a[k])
    ensures multiset(a[..]) == old(multiset(a[..]))
  {
    var j := i;
    while 0 < j && a[j] < a[j - 1]
      invariant 0 <= j <= i
      invariant forall k, l | 0 <= k < l <= i && k != j && l != j :: a[k] <= a[l]
      invariant forall l | j < l <= i :: a[j] <= a[l]
      invariant forall k | i < k < a.Length :: a[k] == old(a[k])
      invariant multiset(a[..]) == old(multiset(a[..]))
    {
      SwapWithPrevious(a, j);
      j := j - 1;
    }
  }

  /** `ea::sort`: sort `a` in place into ascending order. */
  method SortIds(a: array<int>)
    modifies a
    ensures Sorted(a[..])
    ensures multiset(a[..]) == old(multiset(a[..]))
  {
    for i := 0 to a.Length
      invariant forall k, l | 0 <= k < l < i :: a[k] <= a[l]
      invariant multiset(a[..]) == old(multiset(a[..]))
    {
      InsertAt(a, i);
    }
  }

  /**
   What the constructor does to each of its two inputs: keep the non-null
   pointers, then sort them in place.
   */
  method CollectSorted(input: seq<int>) returns (r: seq<int>)
    ensures forall i | 0 <= i < |r| :: r[i] != Null
    ensures Sorted(r) && multiset(r) == multiset(input)[Null := 0]
    ensures r != [] <==> exists i | 0 <= i < |input| :: input[i] != Null
  {
    var kept := KeepNonNull(input);
    var a := new int[|kept|](k requires 0 <= k < |kept| => kept[k]);
    assert a[..] == kept;
    SortIds(a);
    r := a[..];
    assert |r| == |kept|;
    NonNullIsEmptyIffAllNull(input);
    assert multiset(r) == multiset(kept);
    forall i | 0 <= i < |r| ensures r[i] != Null {
      assert r[i] in multiset(kept);
    }
  }

  /** A request to inspect scene nodes and components. */
  class InspectNodeComponentRequest {
    /** The `ProjectRequest` part: the request's callback queue. */
    const request: CallbackQueue.ProjectRequest
    /** `nodes_`. */
    const nodes: seq<NodeId>
    /** `components_`. */
    const components: seq<ComponentId>

    /** The request has neither nodes nor components. */
    predicate IsEmpty()
      ensures IsEmpty() <==> !HasNodes() && !HasComponents()
    {
      |nodes| == 0 && |components| == 0
    }

    /** The request has at least one node. */
    predicate HasNodes()
    {
      |nodes| != 0
    }

    /** The request has at least one component. */
    predicate HasComponents()
    {
      |components| != 0
    }

    /**
     Keep the non-null `nodesIn` and `componentsIn`, then sort each list by
     identity.
     */
    constructor (nodesIn: seq<NodeId>, componentsIn: seq<ComponentId>)
      ensures fresh(request) && request.callbacks == multiset{}
      ensures forall i | 0 <= i < |nodes| :: nodes[i] != Null
      ensures Sorted(nodes) && multiset(nodes) == multiset(nodesIn)[Null := 0]
      ensures forall i | 0 <= i < |components| :: components[i] != Null
      ensures Sorted(components) && multiset(components) == multiset(componentsIn)[Null := 0]
      ensures HasNodes() <==> exists i | 0 <= i < |nodesIn| :: nodesIn[i] != Null
      ensures HasComponents() <==> exists i | 0 <= i < |componentsIn| :: componentsIn[i] != Null
    {
      request := new CallbackQueue.ProjectRequest();

      var ns := CollectSorted(nodesIn);
      var cs := CollectSorted(componentsIn);
      nodes, components := ns, cs;
    }
  }
}
