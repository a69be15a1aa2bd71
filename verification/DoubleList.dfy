/** The doubly linked list of ds.c. */
module DoubleList {
  import opened Basics

  /** The two links embedded in a user's record. */
  class Element {
    var next: Element?
    var previous: Element?

    constructor ()
      ensures next == null && previous == null
    {
      next, previous := null, null;
    }
  }

  ghost predicate Distinct(xs: seq<Element>) {
    forall i, j :: 0 <= i < j < |xs| ==> xs[i] != xs[j]
  }

  /** The element at an index; none outside the list. */
  ghost function At(xs: seq<Element>, i: int): Element? {
    if 0 <= i < |xs| then xs[i] else null
  }

  /** The element at the index points at its neighbours. */
  ghost predicate Placed(xs: seq<Element>, i: nat)
    requires i < |xs|
    reads xs
  {
    xs[i].next == At(xs, i + 1) && xs[i].previous == At(xs, i - 1)
  }

  ghost predicate Chained(xs: seq<Element>)
    reads xs
  {
    forall i :: 0 <= i < |xs| ==> Placed(xs, i)
  }

  /** The element at the index points at its neighbours once the one at `gap` is gone. */
  ghost predicate PlacedAround(xs: seq<Element>, gap: nat, i: nat)
    requires i < |xs|
    reads xs
  {
    && xs[i].next == At(xs, if i + 1 == gap then gap + 1 else i + 1)
    && xs[i].previous == At(xs, if i == gap + 1 then gap - 1 else i - 1)
  }

  /** What unlinking does: it returns an element or null, or it dereferences null. */
  datatype Unlinked = Out(element: Element?) | NullDereferenced

  class List {
    var head: Element?
    ghost var elements: seq<Element>

    ghost predicate Valid()
      reads this, elements
    {
      head == At(elements, 0) && Distinct(elements) && Chained(elements)
    }

    constructor ()
      ensures Valid() && elements == []
    {
      head := null;
      elements := [];
    }

    /** Links an element that is in no list behind the last one. */
    method Link(ptr: Element?)
      requires Valid()
      requires ptr != null ==> ptr !in elements && ptr.next == null && ptr.previous == null
      modifies this, elements, if ptr == null then {} else {ptr}
      ensures Valid()
      ensures elements == old(elements) + if ptr == null then [] else [ptr]
    {
      if ptr == null {
        return;
      }
      if head == null {
        head := ptr;
        elements := [ptr];
        return;
      }
      var current: Element := head;
      ghost var i := 0;
      while current.next != null
        invariant i < |elements| && current == elements[i]
        decreases |elements| - i
      {
        assert Placed(elements, i);
        current := current.next;
        i := i + 1;
      }
      assert Placed(elements, i);
      ghost var xs := elements;
      current.next := ptr;
      ptr.previous := current;
      elements := xs + [ptr];
      forall k | 0 <= k < |elements| ensures Placed(elements, k) {
        assert k < |xs| ==> old(Placed(xs, k));
      }
    }

    /** Takes out the first element that the test accepts.  Taking out the only element of a
        list dereferences the null that became the head. */
    method Unlink(test: Element -> bool) returns (outcome: Unlinked)
      requires Valid()
      modifies this, elements
      ensures outcome.NullDereferenced? <==> |old(elements)| == 1 && test(old(elements)[0])
      ensures outcome.Out? ==> Valid()
      ensures outcome.Out? && outcome.element == null ==>
        elements == old(elements) && forall e <- elements :: !test(e)
      ensures outcome.Out? && outcome.element != null ==>
        var i := First(old(elements), test);
        && i < |old(elements)| && outcome.element == old(elements)[i] && elements == Without(old(elements), i)
        && outcome.element.next == null && outcome.element.previous == null
    {
      var current := head;
      ghost var i := 0;
      while current != null
        invariant i <= |elements| && current == At(elements, i)
        invariant forall j :: 0 <= j < i ==> !test(elements[j])
        invariant Valid() && elements == old(elements)
        decreases |elements| - i
      {
        if test(current) {
          assert i == First(elements, test);
          outcome := TakeOut(current, i);
          return;
        }
        assert Placed(elements, i);
        current := current.next;
        i := i + 1;
      }
      return Out(null);
    }

    /** Closes the gap that an element leaves and clears its links. */
    method TakeOut(current: Element, ghost i: nat) returns (outcome: Unlinked)
      requires Valid() && i < |elements| && current == elements[i]
      modifies this, elements
      ensures if old(elements) == [current] then outcome == NullDereferenced else outcome == Out(current)
      ensures outcome.Out? ==> Valid() && elements == Without(old(elements), i)
      ensures outcome.Out? ==> current.next == null && current.previous == null
    {
      assert Placed(elements, i);
      ghost var xs := elements;
      if current.previous == null {
        head := current.next;
        if head == null {
          return NullDereferenced;
        }
        head.previous := null;
      } else {
        current.previous.next := current.next;
        if current.next != null {
          current.next.previous := current.previous;
        }
      }
      current.previous := null;
      current.next := null;
      forall k | 0 <= k < |xs| && k != i ensures PlacedAround(xs, i, k) {
        assert old(Placed(xs, k));
      }
      Closed(xs, i);
      elements := Without(elements, i);
      return Out(current);
    }
  }

  lemma Closed(xs: seq<Element>, i: nat)
    requires i < |xs| && Distinct(xs)
    requires forall k :: 0 <= k < |xs| && k != i ==> PlacedAround(xs, i, k)
    ensures Chained(Without(xs, i)) && Distinct(Without(xs, i))
  {
    var ys := Without(xs, i);
    forall k | 0 <= k < |ys| ensures Placed(ys, k) {
      assert PlacedAround(xs, i, if k < i then k else k + 1);
    }
  }

  /** In a list, next and previous undo each other, and only the ends have no neighbour. */
  lemma MutuallyInverse(xs: seq<Element>, e: Element)
    requires Chained(xs) && Distinct(xs) && e in xs
    ensures e.next != null ==> e.next in xs && e.next.previous == e
    ensures e.previous != null ==> e.previous in xs && e.previous.next == e
    ensures e.next == null <==> e == xs[|xs| - 1]
    ensures e.previous == null <==> e == xs[0]
  {
    var i :| 0 <= i < |xs| && xs[i] == e;
    assert Placed(xs, i);
    assert i + 1 < |xs| ==> Placed(xs, i + 1);
    assert i > 0 ==> Placed(xs, i - 1);
  }

  /** Unlinking what was just linked gives the list back, if nothing before it matches. */
  lemma UnlinkUndoesLink(xs: seq<Element>, e: Element, test: Element -> bool)
    ensures First(xs + [e], test) == |xs| <==> test(e) && forall x <- xs :: !test(x)
    ensures Without(xs + [e], |xs|) == xs
  {
    var all := xs + [e];
    var i := First(all, test);
    assert all[|xs|] == e;
    assert i < |xs| ==> all[i] in xs;
    forall x | i == |xs| && x in xs ensures !test(x) {
      var j :| 0 <= j < |xs| && xs[j] == x;
      assert all[j] == x;
    }
  }
}
