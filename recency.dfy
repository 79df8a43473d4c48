/** The recency list used by the LRU policy (part2.c:35-43, 160-196, 225-228): a doubly
    linked list of (logical page, frame) nodes, most recently touched first. It is
    modelled as a sequence, head first, with the operations' literal behaviour:
    `removeP` never examines the head node, and `removeLast` detaches the tail without
    decrementing `sizeOfNodes`. */
module Recency {

  /** `struct Node`, without its links. */
  datatype Node = Node(page: int, frame: int)

  /** s without its first node for `page`; s itself when there is none. */
  function DropFirst(s: seq<Node>, page: int): seq<Node> {
    if s == [] then []
    else if s[0].page == page then s[1..]
    else [s[0]] + DropFirst(s[1..], page)
  }

  /** The list `removeP(page)` leaves: the search starts at the node after the head. */
  function RemoveAfterHead(s: seq<Node>, page: int): seq<Node> {
    if s == [] then [] else [s[0]] + DropFirst(s[1..], page)
  }

  /** The list `updateOrder(page, frame)` leaves. */
  function Touch(s: seq<Node>, page: int, frame: int): seq<Node> {
    [Node(page, frame)] + RemoveAfterHead(s, page)
  }

  /** The pages that have at least one node. */
  function Pages(s: seq<Node>): set<int> {
    set n | n in s :: n.page
  }

  /** Node i is the first node of s, from index `from` on, for `page`. */
  predicate FirstPageAt(s: seq<Node>, page: int, from: int, i: int) {
    0 <= from <= i < |s| && s[i].page == page &&
    forall j :: from <= j < i ==> s[j].page != page
  }

  /** DropFirst removes exactly the first node for the page, or nothing. */
  lemma {:induction false} DropFirstSpec(s: seq<Node>, page: int)
    ensures (forall i :: 0 <= i < |s| ==> s[i].page != page) ==> DropFirst(s, page) == s
    ensures forall i :: FirstPageAt(s, page, 0, i) ==> DropFirst(s, page) == s[..i] + s[i + 1..]
  {
    if s != [] && s[0].page != page {
      var t := s[1..];
      DropFirstSpec(t, page);
      if forall i :: 0 <= i < |s| ==> s[i].page != page {
        assert forall i :: 0 <= i < |t| ==> t[i].page != page by {
          forall i | 0 <= i < |t| ensures t[i].page != page { assert t[i] == s[i + 1]; }
        }
        assert DropFirst(s, page) == [s[0]] + t == s;
      }
      forall i | FirstPageAt(s, page, 0, i)
        ensures DropFirst(s, page) == s[..i] + s[i + 1..]
      {
        assert i > 0;
        assert FirstPageAt(t, page, 0, i - 1) by {
          forall j | 0 <= j < i - 1 ensures t[j].page != page { assert t[j] == s[j + 1]; }
        }
        assert [s[0]] + (t[..i - 1] + t[i..]) == s[..i] + s[i + 1..];
      }
    }
  }

  /** `removeP`: the head stays; the first node for the page after the head is removed,
      or nothing is when there is none. */
  lemma RemoveAfterHeadSpec(s: seq<Node>, page: int)
    ensures s != [] ==> |RemoveAfterHead(s, page)| > 0 && RemoveAfterHead(s, page)[0] == s[0]
    ensures (forall i :: 1 <= i < |s| ==> s[i].page != page) ==> RemoveAfterHead(s, page) == s
    ensures forall i :: FirstPageAt(s, page, 1, i) ==> RemoveAfterHead(s, page) == s[..i] + s[i + 1..]
  {
    if s != [] {
      var t := s[1..];
      DropFirstSpec(t, page);
      if forall i :: 1 <= i < |s| ==> s[i].page != page {
        assert forall i :: 0 <= i < |t| ==> t[i].page != page by {
          forall i | 0 <= i < |t| ensures t[i].page != page { assert t[i] == s[i + 1]; }
        }
        assert [s[0]] + t == s;
      }
      forall i | FirstPageAt(s, page, 1, i)
        ensures RemoveAfterHead(s, page) == s[..i] + s[i + 1..]
      {
        assert FirstPageAt(t, page, 0, i - 1) by {
          forall j | 0 <= j < i - 1 ensures t[j].page != page { assert t[j] == s[j + 1]; }
        }
        assert [s[0]] + (t[..i - 1] + t[i..]) == s[..i] + s[i + 1..];
      }
    }
  }

  /** DropFirst keeps every other page, and adds none. */
  lemma {:induction false} DropFirstPages(s: seq<Node>, page: int)
    ensures Pages(s) - {page} <= Pages(DropFirst(s, page)) <= Pages(s)
  {
    if s != [] {
      var t := s[1..];
      assert s == [s[0]] + t;
      assert Pages(s) == {s[0].page} + Pages(t);
      if s[0].page != page {
        DropFirstPages(t, page);
        assert Pages(DropFirst(s, page)) == {s[0].page} + Pages(DropFirst(t, page));
      }
    }
  }

  /** After `updateOrder(page, frame)` the head is (page, frame) and the list holds a node
      for exactly the pages it held before plus `page`. */
  lemma TouchPages(s: seq<Node>, page: int, frame: int)
    ensures Touch(s, page, frame)[0] == Node(page, frame)
    ensures Pages(Touch(s, page, frame)) == Pages(s) + {page}
  {
    var r := Touch(s, page, frame);
    if s == [] {
      assert r == [Node(page, frame)];
    } else {
      var t := s[1..];
      DropFirstPages(t, page);
      assert s == [s[0]] + t;
      assert Pages(s) == {s[0].page} + Pages(t);
      assert r == [Node(page, frame)] + ([s[0]] + DropFirst(t, page));
      assert Pages(r) == {page} + {s[0].page} + Pages(DropFirst(t, page));
    }
  }

  /** Touching the page that is already at the head keeps the old head right behind the
      new one, so the list then holds two nodes for that page; when no later node holds
      the page, nothing else changes. */
  lemma TouchHeadDuplicates(s: seq<Node>, page: int, frame: int)
    requires s != [] && s[0].page == page
    ensures |Touch(s, page, frame)| >= 2
    ensures Touch(s, page, frame)[0] == Node(page, frame) && Touch(s, page, frame)[1] == s[0]
    ensures (forall i :: 1 <= i < |s| ==> s[i].page != page) ==>
              Touch(s, page, frame) == [Node(page, frame)] + s
  {
    RemoveAfterHeadSpec(s, page);
  }

  /** DropFirst only ever removes nodes. */
  lemma {:induction false} DropFirstElements(s: seq<Node>, page: int)
    ensures forall n :: n in DropFirst(s, page) ==> n in s
  {
    if s != [] && s[0].page != page {
      DropFirstElements(s[1..], page);
    }
  }

  /** Every node after `updateOrder(page, frame)` is the new head or a node from before. */
  lemma TouchElements(s: seq<Node>, page: int, frame: int)
    ensures forall n :: n in Touch(s, page, frame) ==> n == Node(page, frame) || n in s
  {
    if s != [] {
      DropFirstElements(s[1..], page);
      assert forall n :: n in Touch(s, page, frame) ==>
        n == Node(page, frame) || n == s[0] || n in DropFirst(s[1..], page);
    }
  }

  /** Detaching the tail loses at most the tail's page. */
  lemma PagesDropLast(s: seq<Node>)
    requires s != []
    ensures Pages(s) - {s[|s| - 1].page} <= Pages(s[..|s| - 1])
  {
    var t := s[..|s| - 1];
    forall q | q in Pages(s) - {s[|s| - 1].page}
      ensures q in Pages(t)
    {
      var n :| n in s && n.page == q;
      var i :| 0 <= i < |s| && s[i] == n;
      assert i < |s| - 1 && t[i] == n;
    }
  }

  /** A list has at least as many nodes as pages it covers. */
  lemma {:induction false} PagesBound(s: seq<Node>)
    ensures |Pages(s)| <= |s|
  {
    if s != [] {
      var t := s[1..];
      assert s == [s[0]] + t;
      assert Pages(s) == {s[0].page} + Pages(t);
      PagesBound(t);
    }
  }

  /** The global `head` list and its counter `sizeOfNodes`. */
  class RecencyList {
    var nodes: seq<Node>
    var size: int

    constructor ()
      ensures nodes == [] && size == 0
    {
      nodes := [];
      size := 0;
    }

    /** `pushP`: a new head node, and one more counted. */
    method Push(page: int, frame: int)
      modifies this
      ensures nodes == [Node(page, frame)] + old(nodes)
      ensures size == old(size) + 1
    {
      nodes := [Node(page, frame)] + nodes;
      size := size + 1;
    }

    /** `removeP`: walk from the head's successor to the first node for `page`; unlink it
        and count one fewer if there is one. */
    method Remove(page: int)
      modifies this
      ensures nodes == RemoveAfterHead(old(nodes), page)
      ensures size - |nodes| == old(size) - |old(nodes)|
    {
      if nodes == [] {
        return;
      }
      var i := 0;
      var found := false;
      while i < |nodes|
        invariant 0 <= i <= |nodes| && nodes == old(nodes) && size == old(size)
        invariant !found
        invariant forall j :: 1 <= j <= i && j < |nodes| ==> nodes[j].page != page
      {
        i := i + 1;
        if i < |nodes| && nodes[i].page == page {
          found := true;
          size := size - 1;
          break;
        }
      }
      RemoveAfterHeadSpec(nodes, page);
      if found {
        assert FirstPageAt(nodes, page, 1, i);
        nodes := nodes[..i] + nodes[i + 1..];
      }
    }

    /** `removeLast`: walk to the tail and detach it; `sizeOfNodes` is left alone. On a
        one-node list the C code would read the head's never-set `prev` link, so the
        model asks for two nodes at least. */
    method RemoveLast() returns (last: Node)
      requires |nodes| >= 2
      modifies this
      ensures last == old(nodes)[|old(nodes)| - 1]
      ensures nodes == old(nodes)[..|old(nodes)| - 1]
      ensures size == old(size)
    {
      var i := 0;
      while i + 1 < |nodes|
        invariant 0 <= i < |nodes|
      {
        i := i + 1;
      }
      last := nodes[i];
      nodes := nodes[..i];
    }

    /** `updateOrder`: `removeP` then `pushP`. */
    method UpdateOrder(page: int, frame: int)
      modifies this
      ensures nodes == Touch(old(nodes), page, frame)
      ensures size - |nodes| == old(size) - |old(nodes)|
    {
      Remove(page);
      Push(page, frame);
    }
  }
}
