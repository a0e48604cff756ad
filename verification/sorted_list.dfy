/**
 * The address-ordered free lists of the buddy allocator (FreeList::insertBlock
 * and FreeList::removeBlock in VM/malloc_3.cpp). A doubly linked list of
 * headers is modelled as the sequence of header addresses from head to tail.
 */
module SortedList {

  /** Strictly ascending by address, as every free list is kept. */
  predicate Ascending(s: seq<nat>)
  {
    forall i, j | 0 <= i < j < |s| :: s[i] < s[j]
  }

  lemma ConsAscending(h: nat, rest: seq<nat>)
    requires Ascending(rest)
    requires forall x | x in rest :: h < x
    ensures Ascending([h] + rest)
  {
    var s := [h] + rest;
    forall i, j | 0 <= i < j < |s|
      ensures s[i] < s[j]
    {
      if i == 0 {
        assert s[j] == rest[j - 1] && rest[j - 1] in rest;
      } else {
        assert s[i] == rest[i - 1] && s[j] == rest[j - 1];
      }
    }
  }

  lemma AscendingTail(s: seq<nat>)
    requires Ascending(s) && s != []
    ensures Ascending(s[1..]) && forall x | x in s[1..] :: s[0] < x
  {
  }

  /**
   * insertBlock: walk from the head past every entry below `a` and link `a`
   * in front of the first entry that is not below it, or at the tail.
   */
  function Insert(s: seq<nat>, a: nat): (r: seq<nat>)
    ensures forall x {:trigger x in r} :: x in r <==> x in s || x == a
    ensures |r| == |s| + 1
    ensures Ascending(s) && a !in s ==> Ascending(r)
  {
    if s == [] then [a]
    else if s[0] < a then
      var rest := Insert(s[1..], a);
      assert s == [s[0]] + s[1..];
      assert Ascending(s) && a !in s ==> Ascending([s[0]] + rest) by {
        if Ascending(s) && a !in s {
          AscendingTail(s);
          ConsAscending(s[0], rest);
        }
      }
      [s[0]] + rest
    else
      assert Ascending(s) && a !in s ==> Ascending([a] + s) by {
        if Ascending(s) && a !in s {
          ConsAscending(a, s);
        }
      }
      [a] + s
  }

  /**
   * removeBlock: unlink `a` from the list. The source unlinks through the
   * block's own prev/next pointers, which removes that one node; for an
   * address that is not in the list the model leaves the list unchanged.
   */
  function Remove(s: seq<nat>, a: nat): (r: seq<nat>)
    ensures a !in s ==> r == s
    ensures a in s ==> |r| == |s| - 1
    ensures forall x {:trigger x in r} | x != a :: x in r <==> x in s
    ensures Ascending(s) ==> Ascending(r) && a !in r
  {
    if s == [] then []
    else if s[0] == a then
      assert Ascending(s) ==> a !in s[1..];
      s[1..]
    else
      var rest := Remove(s[1..], a);
      assert s == [s[0]] + s[1..];
      assert Ascending(s) ==> Ascending([s[0]] + rest) by {
        if Ascending(s) {
          AscendingTail(s);
          ConsAscending(s[0], rest);
        }
      }
      [s[0]] + rest
  }

  /** Two ascending sequences with the same elements are the same sequence. */
  lemma {:induction false} AscendingUnique(s: seq<nat>, t: seq<nat>)
    requires Ascending(s) && Ascending(t)
    requires forall x :: x in s <==> x in t
    ensures s == t
    decreases |s|
  {
    assert |s| > 0 ==> s[0] in s;
    assert |t| > 0 ==> t[0] in t;
    if s != [] && t != [] {
      AscendingTail(s);
      AscendingTail(t);
      assert s == [s[0]] + s[1..] && t == [t[0]] + t[1..];
      assert s[0] in t && t[0] in s;
      assert s[0] == t[0];
      forall x
        ensures x in s[1..] <==> x in t[1..]
      {
        assert x in s <==> x == s[0] || x in s[1..];
        assert x in t <==> x == t[0] || x in t[1..];
      }
      AscendingUnique(s[1..], t[1..]);
      assert s == [s[0]] + s[1..];
      assert t == [t[0]] + t[1..];
    }
  }

  /**
   * Insert agrees with an independent definition: the result is the one
   * ascending sequence holding the old elements and `a`.
   */
  lemma InsertIsSortedUnion(s: seq<nat>, a: nat, t: seq<nat>)
    requires Ascending(s) && a !in s
    requires Ascending(t) && forall x :: x in t <==> x in s || x == a
    ensures Insert(s, a) == t
  {
    AscendingUnique(Insert(s, a), t);
  }

  /** Removing an element just inserted gives the list back. */
  lemma {:induction false} RemoveInsert(s: seq<nat>, a: nat)
    requires a !in s
    ensures Remove(Insert(s, a), a) == s
    decreases |s|
  {
    if s != [] && s[0] < a {
      assert a !in s[1..];
      RemoveInsert(s[1..], a);
      assert Insert(s, a) == [s[0]] + Insert(s[1..], a);
      assert s == [s[0]] + s[1..];
    }
  }

  /** Re-inserting an element just removed from an ascending list gives the list back. */
  lemma {:induction false} InsertRemove(s: seq<nat>, a: nat)
    requires Ascending(s) && a in s
    ensures Insert(Remove(s, a), a) == s
    decreases |s|
  {
    AscendingTail(s);
    if s[0] != a {
      assert a in s[1..];
      InsertRemove(s[1..], a);
      assert Remove(s, a) == [s[0]] + Remove(s[1..], a);
      assert s == [s[0]] + s[1..];
    } else if s[1..] != [] {
      assert s[1..][0] > a;
    }
  }

  /** removeBlock on the head of a list pops the head. */
  lemma RemoveHead(s: seq<nat>)
    requires s != []
    ensures Remove(s, s[0]) == s[1..]
  {
  }
}
