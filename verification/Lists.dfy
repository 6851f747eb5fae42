/** The intrusive circular doubly linked list under every queue of the kernel. A ring is described by
    the sequence of its nodes, from the list head on. */
module Lists {

  class List {
    var prev: List?
    var next: List?

    constructor ()
      ensures prev == null && next == null
    {
      prev, next := null, null;
    }
  }

  function After(s: seq<List>, i: nat): List
    requires i < |s|
  {
    if i + 1 < |s| then s[i + 1] else s[0]
  }

  function Before(s: seq<List>, i: nat): List
    requires i < |s|
  {
    if i > 0 then s[i - 1] else s[|s| - 1]
  }

  /** The node at place i is linked to its neighbours. */
  ghost predicate Linked(s: seq<List>, i: nat)
    requires i < |s|
    reads s[i]
  {
    s[i].next == After(s, i) && s[i].prev == Before(s, i)
  }

  ghost predicate Distinct(s: seq<List>) {
    forall i, j :: 0 <= i < j < |s| ==> s[i] != s[j]
  }

  /** The nodes are distinct and linked both ways in this order, the last one back to the first. */
  ghost predicate Ring(s: seq<List>)
    reads s
  {
    |s| > 0 && Distinct(s) && forall i: nat :: i < |s| ==> Linked(s, i)
  }

  /** A ring may be read from any of its nodes. */
  lemma RingRotates(s: seq<List>, k: nat)
    requires Ring(s) && k <= |s|
    ensures Ring(s[k..] + s[..k])
  {
    var t := s[k..] + s[..k];
    forall i: nat | i < |t|
      ensures Linked(t, i)
    {
      var j := if i < |s| - k then i + k else i + k - |s|;
      assert Linked(s, j) && t[i] == s[j];
    }
  }

  /** The links determine the order: two descriptions that start at the same node agree. */
  lemma RingIsUnique(s: seq<List>, t: seq<List>)
    requires Ring(s) && Ring(t) && s[0] == t[0]
    ensures s == t
  {
    var n := if |s| <= |t| then |s| else |t|;
    RingPrefix(s, t, n);
    assert s[n - 1] == s[..n][n - 1] == t[n - 1];
    assert Linked(s, n - 1) && Linked(t, n - 1);
  }

  lemma {:induction false} RingPrefix(s: seq<List>, t: seq<List>, n: nat)
    requires Ring(s) && Ring(t) && s[0] == t[0] && n <= |s| && n <= |t|
    ensures s[..n] == t[..n]
  {
    if n > 1 {
      RingPrefix(s, t, n - 1);
      assert s[n - 2] == s[..n - 1][n - 2] == t[n - 2];
      assert Linked(s, n - 2) && Linked(t, n - 2);
    }
  }

  method Init(list: List)
    modifies list
    ensures Ring([list])
  {
    list.prev := list;
    list.next := list;
  }

  /** list_add_to_behind: the node goes behind place i. */
  method AddToBehind(entry: List, node: List, ghost s: seq<List>, ghost i: nat)
    requires Ring(s) && i < |s| && s[i] == entry && node !in s
    modifies entry, entry.next, node
    ensures Ring(s[..i + 1] + [node] + s[i + 1..])
  {
    ghost var t := s[i + 1..] + s[..i + 1];
    RingRotates(s, i + 1);
    assert Linked(t, 0) && Linked(t, |t| - 1);
    node.prev := entry;
    node.next := entry.next;
    node.next.prev := node;
    entry.next := node;
    assert Ring(t + [node]) by {
      forall j: nat | j < |t| + 1
        ensures Linked(t + [node], j)
      {
        assert j < |t| ==> old(Linked(t, j));
      }
    }
    RingRotates(t + [node], |s| - i - 1);
    assert (t + [node])[|s| - i - 1..] + (t + [node])[..|s| - i - 1] == s[..i + 1] + [node] + s[i + 1..];
  }

  /** list_add_to_before: in front of place i; in front of the head is the end of the list. */
  method AddToBefore(entry: List, node: List, ghost s: seq<List>, ghost i: nat)
    requires Ring(s) && i < |s| && s[i] == entry && node !in s
    modifies entry, entry.prev, node
    ensures Ring(if i == 0 then s + [node] else s[..i] + [node] + s[i..])
  {
    ghost var t := s[i..] + s[..i];
    RingRotates(s, i);
    assert Linked(t, 0) && Linked(t, |t| - 1);
    node.next := entry;
    node.prev := entry.prev;
    node.prev.next := node;
    entry.prev := node;
    assert Ring(t + [node]) by {
      forall j: nat | j < |t| + 1
        ensures Linked(t + [node], j)
      {
        assert j < |t| ==> old(Linked(t, j));
      }
    }
    if i == 0 {
      assert t == s;
    } else {
      RingRotates(t + [node], |s| - i);
      assert (t + [node])[|s| - i..] + (t + [node])[..|s| - i] == s[..i] + [node] + s[i..];
    }
  }

  /** list_del: the rest stays a ring; the node itself still points into it. */
  method Del(entry: List, ghost s: seq<List>, ghost i: nat)
    requires Ring(s) && 0 < i < |s| && s[i] == entry
    modifies entry.prev, entry.next
    ensures Ring(s[..i] + s[i + 1..])
    ensures entry.prev == old(entry.prev) && entry.next == old(entry.next)
  {
    ghost var t := s[i + 1..] + s[..i];
    RingRotates(s, i + 1);
    assert s[i + 1..] + s[..i + 1] == t + [entry];
    assert Linked(t + [entry], |t|) && Linked(t + [entry], 0) && Linked(t + [entry], |t| - 1);
    entry.next.prev := entry.prev;
    entry.prev.next := entry.next;
    assert Ring(t) by {
      forall j: nat | j < |t|
        ensures Linked(t, j)
      {
        assert old(Linked(t + [entry], j));
      }
    }
    RingRotates(t, |s| - i - 1);
    assert t[|s| - i - 1..] + t[..|s| - i - 1] == s[..i] + s[i + 1..];
  }

  method IsEmpty(entry: List, ghost s: seq<List>) returns (empty: bool)
    requires Ring(s) && s[0] == entry
    ensures empty <==> s == [entry]
  {
    assert Linked(s, 0);
    empty := entry == entry.next && entry == entry.prev;
  }

  method Prev(entry: List, ghost s: seq<List>, ghost i: nat) returns (r: List?)
    requires Ring(s) && i < |s| && s[i] == entry
    ensures r == Before(s, i)
  {
    assert Linked(s, i);
    r := if entry.prev != null then entry.prev else null;
  }

  method Next(entry: List, ghost s: seq<List>, ghost i: nat) returns (r: List?)
    requires Ring(s) && i < |s| && s[i] == entry
    ensures r == After(s, i)
  {
    assert Linked(s, i);
    r := if entry.next != null then entry.next else null;
  }
}
