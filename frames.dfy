/** The frame pool as plain values: what the page table, the FIFO ring, the recency list
    and physical memory must satisfy between two translations, and how one page fault
    changes each of them (part2.c:122-139, 230-242). The class in module Pager keeps
    these facts about its arrays. */
module Frames {
  import opened Address
  import opened Recency

  /** The pages a page table maps to some frame. */
  ghost function MappedIn(pt: seq<int>): set<int> {
    set p | 0 <= p < |pt| && pt[p] != -1
  }

  /** Every page-table entry is -1 or a frame. */
  predicate TableInRange(pt: seq<int>) {
    forall p :: 0 <= p < |pt| ==> pt[p] == -1 || 0 <= pt[p] < FRAMES
  }

  /** Every ring slot names a page. */
  predicate RingInRange(ft: seq<int>) {
    forall k :: 0 <= k < |ft| ==> 0 <= ft[k] < PAGES
  }

  /** Every list node names a page and a frame. */
  predicate NodesInRange(nodes: seq<Node>) {
    forall n :: n in nodes ==> 0 <= n.page < PAGES && 0 <= n.frame < FRAMES
  }

  /** Frame f of `mem` holds the bytes of page p of `backing`. */
  predicate Holds(mem: seq<Int8>, backing: seq<Int8>, f: int, p: int)
    requires |mem| == |backing| == MEMORY_SIZE && 0 <= f < FRAMES && 0 <= p < PAGES
  {
    mem[f * PAGE_SIZE..f * PAGE_SIZE + PAGE_SIZE] == backing[p * PAGE_SIZE..p * PAGE_SIZE + PAGE_SIZE]
  }

  /** Every mapped page's frame holds that page's bytes. */
  predicate Resident(pt: seq<int>, mem: seq<Int8>, backing: seq<Int8>)
    requires |pt| == PAGES && |mem| == |backing| == MEMORY_SIZE
  {
    forall p :: 0 <= p < PAGES && 0 <= pt[p] < FRAMES ==> Holds(mem, backing, pt[p], p)
  }

  /** The FIFO pairing of page table and ring after `index` faults: each slot filled so far
      names the page mapped to the frame of the same number, and each mapped page sits in
      the slot of its frame, a slot already filled. */
  predicate FifoTables(pt: seq<int>, ft: seq<int>, index: int)
    requires |pt| == PAGES && |ft| == FRAMES
  {
    (forall k :: 0 <= k < FRAMES && k < index ==> 0 <= ft[k] < PAGES && pt[ft[k]] == k) &&
    (forall p :: 0 <= p < PAGES && pt[p] != -1 ==> 0 <= pt[p] < FRAMES && pt[p] < index && ft[pt[p]] == p)
  }

  /** The pages recorded in the first n ring slots. */
  ghost function RingPages(ft: seq<int>, n: nat): set<int>
    requires n <= |ft|
  {
    if n == 0 then {} else RingPages(ft, n - 1) + {ft[n - 1]}
  }

  /** The first n ring slots record at most n pages, and each of theirs. */
  lemma {:induction false} RingPagesBound(ft: seq<int>, n: nat)
    requires n <= |ft|
    ensures |RingPages(ft, n)| <= n
    ensures forall k :: 0 <= k < n ==> ft[k] in RingPages(ft, n)
  {
    if n > 0 {
      RingPagesBound(ft, n - 1);
    }
  }

  /** Under the FIFO pairing every mapped page is recorded in the slot of its frame, so at
      most 256 pages are mapped at any time. */
  lemma FifoBound(pt: seq<int>, ft: seq<int>, index: int)
    requires |pt| == PAGES && |ft| == FRAMES && FifoTables(pt, ft, index)
    ensures |MappedIn(pt)| <= FRAMES
  {
    RingPagesBound(ft, FRAMES);
    assert MappedIn(pt) <= RingPages(ft, FRAMES) by {
      forall p | p in MappedIn(pt) ensures p in RingPages(ft, FRAMES) {
        assert ft[pt[p]] == p;
      }
    }
    SubsetCard(MappedIn(pt), RingPages(ft, FRAMES));
  }

  /** The page table after a FIFO fault on `page`, the `index`-th fault: the frame is ring
      slot index % 256; from the 257th fault on, the page recorded in that slot loses it. */
  function FifoFaultTable(pt: seq<int>, ft: seq<int>, index: nat, page: int): (r: seq<int>)
    requires |pt| == PAGES && |ft| == FRAMES && RingInRange(ft) && 0 <= page < PAGES
    ensures |r| == PAGES && r[page] == index % FRAMES
    ensures forall p :: 0 <= p < PAGES && p != page ==>
              r[p] == (if index >= FRAMES && p == ft[index % FRAMES] then -1 else pt[p])
  {
    (if index >= FRAMES then pt[ft[index % FRAMES] := -1] else pt)[page := index % FRAMES]
  }

  /** A FIFO fault keeps the pairing: the reclaimed frame is the slot's own number, every
      other mapped page keeps a frame other than that slot, and the ring, with the slot
      overwritten by the new page, pairs with the new table. */
  lemma FifoFault(pt: seq<int>, ft: seq<int>, index: nat, page: int)
    requires |pt| == PAGES && |ft| == FRAMES && RingInRange(ft) && 0 <= page < PAGES
    requires FifoTables(pt, ft, index) && pt[page] == -1
    ensures index >= FRAMES ==> pt[ft[index % FRAMES]] == index % FRAMES
    ensures TableInRange(FifoFaultTable(pt, ft, index, page)) && RingInRange(ft[index % FRAMES := page])
    ensures FifoTables(FifoFaultTable(pt, ft, index, page), ft[index % FRAMES := page], index + 1)
    ensures forall p :: 0 <= p < PAGES && p != page && FifoFaultTable(pt, ft, index, page)[p] != -1 ==>
              FifoFaultTable(pt, ft, index, page)[p] == pt[p] != index % FRAMES
  {
    var s := index % FRAMES;
    var r := FifoFaultTable(pt, ft, index, page);
    var ft' := ft[s := page];
    forall k | 0 <= k < FRAMES && k < index + 1
      ensures 0 <= ft'[k] < PAGES && r[ft'[k]] == k
    {
      if k != s {
        assert k < index;
        assert ft[k] != page;
      }
    }
    forall p | 0 <= p < PAGES && p != page && r[p] != -1
      ensures r[p] == pt[p] != s
    {
      if index >= FRAMES {
        assert pt[ft[s]] == s;
      }
    }
  }

  /** Loading a page into frame s keeps every mapped page resident, provided the new table
      maps the loaded page to s and keeps every other mapping, none of them to s. */
  lemma ResidentAfterLoad(pt: seq<int>, mem: seq<Int8>, pt': seq<int>, mem': seq<Int8>,
                          backing: seq<Int8>, s: int, page: int)
    requires |pt| == |pt'| == PAGES && |mem| == |mem'| == |backing| == MEMORY_SIZE
    requires 0 <= s < FRAMES && 0 <= page < PAGES
    requires Resident(pt, mem, backing)
    requires forall i :: 0 <= i < MEMORY_SIZE && !(s * PAGE_SIZE <= i < s * PAGE_SIZE + PAGE_SIZE) ==> mem'[i] == mem[i]
    requires Holds(mem', backing, s, page) && pt'[page] == s
    requires forall p :: 0 <= p < PAGES && p != page && pt'[p] != -1 ==> pt'[p] == pt[p] != s
    ensures Resident(pt', mem', backing)
  {
    forall p | 0 <= p < PAGES && 0 <= pt'[p] < FRAMES
      ensures Holds(mem', backing, pt'[p], p)
    {
      if p != page {
        OtherBlockUnchanged(mem', mem, s, pt[p]);
      }
    }
  }

  /** Memory that agrees with an older copy outside block f agrees with it on every other
      block g. */
  lemma OtherBlockUnchanged(mem: seq<Int8>, was: seq<Int8>, f: int, g: int)
    requires |mem| == |was| == MEMORY_SIZE && 0 <= f < PAGES && 0 <= g < PAGES && f != g
    requires forall i :: 0 <= i < MEMORY_SIZE && !(f * PAGE_SIZE <= i < f * PAGE_SIZE + PAGE_SIZE) ==> mem[i] == was[i]
    ensures mem[g * PAGE_SIZE..g * PAGE_SIZE + PAGE_SIZE] == was[g * PAGE_SIZE..g * PAGE_SIZE + PAGE_SIZE]
  {
    forall k | g * PAGE_SIZE <= k < g * PAGE_SIZE + PAGE_SIZE
      ensures mem[k] == was[k]
    {
      assert !(f * PAGE_SIZE <= k < f * PAGE_SIZE + PAGE_SIZE) by {
        if g < f { assert k < f * PAGE_SIZE; } else { assert k >= f * PAGE_SIZE + PAGE_SIZE; }
      }
    }
  }

  /** Unmapping or mapping one page changes the mapped set by exactly that page. */
  lemma MappedUpdate(pt: seq<int>, q: int, x: int)
    requires 0 <= q < |pt|
    ensures MappedIn(pt[q := x]) == if x == -1 then MappedIn(pt) - {q} else MappedIn(pt) + {q}
  {
    var r := pt[q := x];
    assert forall p :: p in MappedIn(r) <==> 0 <= p < |pt| && (if p == q then x != -1 else pt[p] != -1);
  }

  /** A subset is no larger than its superset. */
  lemma SubsetCard(a: set<int>, b: set<int>)
    requires a <= b
    ensures |a| <= |b|
  {
    assert b == a + (b - a);
    assert a * (b - a) == {};
  }

  /** The LRU bookkeeping after `faults` faults: every mapped page has a node, and at least
      min(faults, 256) pages are mapped. */
  ghost predicate LruCovers(pt: seq<int>, nodes: seq<Node>, faults: nat) {
    MappedIn(pt) <= Pages(nodes) &&
    |MappedIn(pt)| >= (if faults < FRAMES then faults else FRAMES)
  }

  /** A table with every page unmapped, before any fault, meets the bookkeeping of both
      policies, whatever the ring and the memory hold. */
  lemma NothingMapped(pt: seq<int>, ft: seq<int>, mem: seq<Int8>, backing: seq<Int8>)
    requires |pt| == PAGES && |ft| == FRAMES && |mem| == |backing| == MEMORY_SIZE
    requires forall p :: 0 <= p < PAGES ==> pt[p] == -1
    ensures MappedIn(pt) == {}
    ensures TableInRange(pt) && FifoTables(pt, ft, 0) && Resident(pt, mem, backing)
    ensures LruCovers(pt, [], 0)
  {
    assert forall p :: p in MappedIn(pt) ==> false;
  }

  /** Once 256 pages have faulted, the list holds at least 256 nodes, so `removeLast` always
      finds a tail distinct from the head. */
  lemma LruListLong(pt: seq<int>, nodes: seq<Node>, faults: nat)
    requires LruCovers(pt, nodes, faults) && faults >= FRAMES
    ensures |nodes| >= FRAMES
  {
    SubsetCard(MappedIn(pt), Pages(nodes));
    PagesBound(nodes);
  }

  /** The page table after an LRU fault on `page` that was handed `frame`: from the 257th
      fault on, the page of the list's tail is unmapped first. */
  function LruFaultTable(pt: seq<int>, nodes: seq<Node>, faults: nat, page: int, frame: int): (r: seq<int>)
    requires |pt| == PAGES && 0 <= page < PAGES && NodesInRange(nodes)
    ensures |r| == PAGES && r[page] == frame
    ensures forall p :: 0 <= p < PAGES && p != page ==>
              r[p] == (if faults >= FRAMES && nodes != [] && p == nodes[|nodes| - 1].page then -1 else pt[p])
  {
    (if faults >= FRAMES && nodes != [] then pt[nodes[|nodes| - 1].page := -1] else pt)[page := frame]
  }

  /** The list an LRU fault leaves: the tail detached once all frames are in use, then the
      page touched. */
  function LruFaultList(nodes: seq<Node>, faults: nat, page: int, frame: int): seq<Node> {
    Touch(if faults >= FRAMES && nodes != [] then nodes[..|nodes| - 1] else nodes, page, frame)
  }

  /** The pages an LRU fault leaves mapped: those mapped before, minus the tail's page
      once all frames are in use, plus the faulting page. */
  lemma LruFaultMapped(pt: seq<int>, nodes: seq<Node>, faults: nat, page: int, frame: int)
    requires |pt| == PAGES && 0 <= page < PAGES && 0 <= frame < FRAMES
    requires NodesInRange(nodes) && (faults >= FRAMES ==> nodes != [])
    ensures MappedIn(LruFaultTable(pt, nodes, faults, page, frame)) ==
            (if faults >= FRAMES then MappedIn(pt) - {nodes[|nodes| - 1].page} else MappedIn(pt)) + {page}
  {
    var mid := if faults >= FRAMES then pt[nodes[|nodes| - 1].page := -1] else pt;
    assert LruFaultTable(pt, nodes, faults, page, frame) == mid[page := frame];
    if faults >= FRAMES {
      MappedUpdate(pt, nodes[|nodes| - 1].page, -1);
    }
    MappedUpdate(mid, page, frame);
  }

  /** An LRU fault on an unmapped page keeps the bookkeeping, and the list still names only
      pages and frames. */
  lemma LruFault(pt: seq<int>, nodes: seq<Node>, faults: nat, page: int, frame: int)
    requires |pt| == PAGES && 0 <= page < PAGES && pt[page] == -1 && 0 <= frame < FRAMES
    requires TableInRange(pt) && NodesInRange(nodes) && LruCovers(pt, nodes, faults)
    ensures TableInRange(LruFaultTable(pt, nodes, faults, page, frame))
    ensures LruCovers(LruFaultTable(pt, nodes, faults, page, frame), LruFaultList(nodes, faults, page, frame), faults + 1)
    ensures NodesInRange(LruFaultList(nodes, faults, page, frame))
  {
    if faults >= FRAMES {
      LruListLong(pt, nodes, faults);
    }
    var base := if faults >= FRAMES then nodes[..|nodes| - 1] else nodes;
    var kept := if faults >= FRAMES then MappedIn(pt) - {nodes[|nodes| - 1].page} else MappedIn(pt);
    LruFaultMapped(pt, nodes, faults, page, frame);
    if faults >= FRAMES {
      PagesDropLast(nodes);
    }
    assert kept <= Pages(base);
    assert page !in kept;
    assert |kept + {page}| == |kept| + 1;
    TouchPages(base, page, frame);
    TouchElements(base, page, frame);
    assert forall n :: n in base ==> n in nodes;
  }

  /** Touching a page on a TLB hit keeps the LRU bookkeeping: the list only gains nodes. */
  lemma LruTouch(pt: seq<int>, nodes: seq<Node>, faults: nat, page: int, frame: int)
    requires NodesInRange(nodes) && LruCovers(pt, nodes, faults)
    requires 0 <= page < PAGES && 0 <= frame < FRAMES
    ensures NodesInRange(Touch(nodes, page, frame)) && LruCovers(pt, Touch(nodes, page, frame), faults)
  {
    TouchPages(nodes, page, frame);
    TouchElements(nodes, page, frame);
  }
}
