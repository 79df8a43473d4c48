/** The translation engine: the page table, the frame pool with its FIFO ring and LRU
    list, physical memory, and one translation step per address (part2.c:42-158,
    225-242). */
module Pager {
  import opened Address
  import opened Tlb
  import opened Recency
  import opened Frames

  /** The replacement-policy code that selects FIFO; any other code selects LRU. */
  const FIFO: int := 0

  /** How one address was resolved. */
  datatype Outcome = TlbHit | TableHit | Fault

  /** One output line: the address read, where it was found, and the byte there. */
  datatype Translation = Translation(virtualAddress: Int32, physicalAddress: int, value: Int8, outcome: Outcome)

  /** Every TLB entry names a page and a frame. */
  predicate EntriesInRange(w: seq<Entry>) {
    forall k :: 0 <= k < |w| ==> 0 <= w[k].logical < PAGES && 0 <= w[k].physical < FRAMES
  }

  /** How many of the lines were resolved by `o`. */
  function CountOf(lines: seq<Translation>, o: Outcome): (n: nat)
    ensures n <= |lines|
  {
    if lines == [] then 0
    else CountOf(lines[..|lines| - 1], o) + (if lines[|lines| - 1].outcome == o then 1 else 0)
  }

  /** Appending a line adds one to the count of its own outcome only. */
  lemma CountOfAppend(lines: seq<Translation>, line: Translation, o: Outcome)
    ensures CountOf(lines + [line], o) == CountOf(lines, o) + (if line.outcome == o then 1 else 0)
  {
    assert (lines + [line])[..|lines|] == lines;
  }

  /** Every line is a TLB hit, a page-table hit or a fault. */
  lemma {:induction false} OutcomesPartition(lines: seq<Translation>)
    ensures CountOf(lines, TlbHit) + CountOf(lines, TableHit) + CountOf(lines, Fault) == |lines|
  {
    if lines != [] {
      OutcomesPartition(lines[..|lines| - 1]);
    }
  }

  /** What one output line promises about the address it translates: the physical address
      keeps the offset and lies in physical memory, and a byte read after a fault, or
      after a page-table hit under FIFO, is the backing store's byte at the address
      reduced to 20 bits. */
  predicate LineFaithful(line: Translation, backing: seq<Int8>, replacementMethod: int)
    requires |backing| == MEMORY_SIZE
  {
    0 <= line.physicalAddress < FRAMES * PAGE_SIZE &&
    line.physicalAddress % PAGE_SIZE == Offset(line.virtualAddress) &&
    (line.outcome == Fault || (line.outcome == TableHit && replacementMethod == FIFO) ==>
       line.value == backing[line.virtualAddress as int % MEMORY_SIZE])
  }

  /** A search of in-range entries answers -1 exactly when no entry holds the page, and a
      frame otherwise. */
  lemma SearchAnswer(w: seq<Entry>, page: int)
    requires EntriesInRange(w)
    ensures FirstMatch(w, page) == -1 <==> forall k :: 0 <= k < |w| ==> w[k].logical != page
    ensures FirstMatch(w, page) != -1 ==> 0 <= FirstMatch(w, page) < FRAMES
  {
    FirstMatchSpec(w, page);
  }

  /** Caching an in-range translation for a page the TLB does not hold keeps the TLB
      half of the invariant. */
  lemma TlbInsert(h: seq<Entry>, page: int, frame: int)
    requires EntriesInRange(LiveWindow(h)) && DistinctPages(LiveWindow(h))
    requires 0 <= page < PAGES && 0 <= frame < FRAMES
    requires forall k :: 0 <= k < |LiveWindow(h)| ==> LiveWindow(h)[k].logical != page
    ensures EntriesInRange(LiveWindow(h + [Entry(page, frame)])) && DistinctPages(LiveWindow(h + [Entry(page, frame)]))
  {
    LiveWindowAppend(h, Entry(page, frame));
    InsertKeepsDistinct(h, Entry(page, frame));
  }

  /** The byte at offset o of a frame that holds page p is the backing store's byte at the
      address whose page is p and whose offset is o. */
  lemma ReadFromHeldFrame(mem: seq<Int8>, backing: seq<Int8>, frame: int, address: Int32)
    requires |mem| == |backing| == MEMORY_SIZE && 0 <= frame < FRAMES
    requires Holds(mem, backing, frame, Page(address))
    ensures mem[frame * PAGE_SIZE + Offset(address)] == backing[address as int % MEMORY_SIZE]
  {
    DecodeTruncates(address);
    var o := Offset(address);
    var p := Page(address);
    assert mem[frame * PAGE_SIZE..frame * PAGE_SIZE + PAGE_SIZE][o] ==
           backing[p * PAGE_SIZE..p * PAGE_SIZE + PAGE_SIZE][o];
  }

  /** The simulator's state: the globals of part2.c and the counters of its `main`. */
  class VirtualMemory {
    /** `replacementMethod`: FIFO when 0, LRU otherwise. */
    const replacementMethod: int
    /** The backing store, mapped read-only for the whole run. */
    const backing: seq<Int8>
    const tlb: Tlb
    const recency: RecencyList
    /** `pagetable[page]` is the page's frame, or -1 when it is not resident. */
    const pagetable: array<int>
    /** `fifoTable[k]` is the page that last faulted into ring slot k. */
    const fifoTable: array<int>
    const mainMemory: array<Int8>
    var insertionIndex: nat
    /** The next never-used frame; counts every fault. */
    var freePage: nat
    var totalAddresses: nat
    var tlbHits: nat
    var pageFaults: nat

    /** The sizes of the tables and of the memories. */
    ghost predicate Shape()
      reads this
    {
      pagetable.Length == PAGES && fifoTable.Length == FRAMES && pagetable != fifoTable &&
      mainMemory.Length == MEMORY_SIZE && |backing| == MEMORY_SIZE
    }

    /** How many faults had to evict a page. */
    function Evictions(): nat
      reads this
    {
      if freePage > FRAMES then freePage - FRAMES else 0
    }

    /** The TLB half of the invariant: its live entries name pages and frames, and no page
        twice. */
    ghost predicate TlbInvariant()
      reads tlb, tlb.entries
    {
      tlb.Valid() && EntriesInRange(tlb.Window()) && DistinctPages(tlb.Window())
    }

    /** The frame-pool half of the invariant: every entry in range, one fault per frame
        handed out, and the policy's bookkeeping (see module Frames). */
    ghost predicate PoolInvariant()
      reads this, recency, pagetable, fifoTable, mainMemory
    {
      Shape() &&
      TableInRange(pagetable[..]) && RingInRange(fifoTable[..]) && NodesInRange(recency.nodes) &&
      pageFaults == freePage && tlbHits + pageFaults <= totalAddresses &&
      (replacementMethod == FIFO ==>
         insertionIndex == freePage && recency.nodes == [] && recency.size == 0 &&
         FifoTables(pagetable[..], fifoTable[..], insertionIndex) &&
         Resident(pagetable[..], mainMemory[..], backing)) &&
      (replacementMethod != FIFO ==>
         insertionIndex == 0 && LruCovers(pagetable[..], recency.nodes, freePage) &&
         recency.size == |recency.nodes| + Evictions())
    }

    /** Between two translations. */
    ghost predicate Valid()
      reads this, tlb, tlb.entries, recency, pagetable, fifoTable, mainMemory
    {
      TlbInvariant() && PoolInvariant()
    }

    /** The start of `main`: a run over `backing` under the given policy code, with every
        page-table entry -1 and all other globals zero. */
    constructor (backing: seq<Int8>, replacementMethod: int)
      requires |backing| == MEMORY_SIZE
      ensures Valid()
      ensures this.backing == backing && this.replacementMethod == replacementMethod
      ensures forall p :: 0 <= p < PAGES ==> pagetable[p] == -1
      ensures tlb.Window() == [] && recency.nodes == []
      ensures insertionIndex == 0 && freePage == 0
      ensures totalAddresses == 0 && tlbHits == 0 && pageFaults == 0
      ensures fresh(tlb) && fresh(tlb.entries) && fresh(recency)
      ensures fresh(pagetable) && fresh(fifoTable) && fresh(mainMemory)
    {
      this.backing := backing;
      this.replacementMethod := replacementMethod;
      tlb := new Tlb();
      recency := new RecencyList();
      var table := new int[PAGES](_ => 0);
      var i := 0;
      while i < PAGE_SIZE
        modifies table
        invariant 0 <= i <= PAGE_SIZE
        invariant forall p :: 0 <= p < i ==> table[p] == -1
      {
        table[i] := -1;
        i := i + 1;
      }
      pagetable := table;
      fifoTable := new int[FRAMES](_ => 0);
      mainMemory := new Int8[MEMORY_SIZE](_ => 0);
      insertionIndex, freePage := 0, 0;
      totalAddresses, tlbHits, pageFaults := 0, 0, 0;
      new;
      NothingMapped(pagetable[..], fifoTable[..], mainMemory[..], backing);
    }

    /** `freeFrame`: under FIFO, unmap the page recorded at the current ring slot and
        return its frame; under LRU, detach the tail of the recency list, unmap its page
        and return its frame. */
    method FreeFrame() returns (frame: int)
      requires Shape() && RingInRange(fifoTable[..]) && NodesInRange(recency.nodes)
      requires replacementMethod != FIFO ==> |recency.nodes| >= 2
      modifies pagetable, recency
      ensures unchanged(this, fifoTable, mainMemory)
      ensures replacementMethod == FIFO ==>
                var victim := fifoTable[insertionIndex % FRAMES];
                unchanged(recency) && frame == old(pagetable[victim]) &&
                pagetable[..] == old(pagetable[..])[victim := -1]
      ensures replacementMethod != FIFO ==>
                var last := old(recency.nodes)[|old(recency.nodes)| - 1];
                frame == last.frame &&
                pagetable[..] == old(pagetable[..])[last.page := -1] &&
                recency.nodes == old(recency.nodes)[..|old(recency.nodes)| - 1] &&
                recency.size == old(recency.size)
    {
      if replacementMethod == FIFO {
        var victim := fifoTable[insertionIndex % FRAMES];
        frame := pagetable[victim];
        pagetable[victim] := -1;
      } else {
        var last := recency.RemoveLast();
        frame := last.frame;
        pagetable[last.page] := -1;
      }
    }

    /** The `memcpy` of a page from the backing store into a frame: that frame's bytes
        become the page's bytes and no other byte changes. */
    method LoadPage(frame: int, page: int)
      requires Shape() && 0 <= frame < FRAMES && 0 <= page < PAGES
      modifies mainMemory
      ensures unchanged(this, recency, pagetable, fifoTable)
      ensures Holds(mainMemory[..], backing, frame, page)
      ensures forall i :: 0 <= i < MEMORY_SIZE && !(frame * PAGE_SIZE <= i < frame * PAGE_SIZE + PAGE_SIZE) ==>
                mainMemory[i] == old(mainMemory[i])
    {
      forall i | 0 <= i < PAGE_SIZE {
        mainMemory[frame * PAGE_SIZE + i] := backing[page * PAGE_SIZE + i];
      }
    }

    /** The state a fault leaves, described through the state before it, keeps the
        frame-pool invariant. */
    lemma FaultKeepsValid(oldPt: seq<int>, oldFt: seq<int>, oldMem: seq<Int8>, oldNodes: seq<Node>,
                          oldSize: int, oldFree: nat, oldIndex: nat, page: int, frame: int)
      requires Shape() && |oldPt| == PAGES && |oldFt| == FRAMES && |oldMem| == MEMORY_SIZE
      requires 0 <= page < PAGES && oldPt[page] == -1 && 0 <= frame < FRAMES
      requires TableInRange(oldPt) && RingInRange(oldFt) && NodesInRange(oldNodes)
      requires pageFaults == freePage == oldFree + 1 && tlbHits + pageFaults <= totalAddresses
      requires Holds(mainMemory[..], backing, frame, page)
      requires forall i :: 0 <= i < MEMORY_SIZE && !(frame * PAGE_SIZE <= i < frame * PAGE_SIZE + PAGE_SIZE) ==>
                 mainMemory[i] == oldMem[i]
      requires replacementMethod == FIFO ==>
                 oldIndex == oldFree && recency.nodes == [] && recency.size == 0 &&
                 FifoTables(oldPt, oldFt, oldIndex) && Resident(oldPt, oldMem, backing) &&
                 frame == oldIndex % FRAMES && insertionIndex == oldIndex + 1 &&
                 pagetable[..] == FifoFaultTable(oldPt, oldFt, oldIndex, page) &&
                 fifoTable[..] == oldFt[oldIndex % FRAMES := page]
      requires replacementMethod != FIFO ==>
                 oldIndex == 0 && insertionIndex == 0 && LruCovers(oldPt, oldNodes, oldFree) &&
                 oldSize == |oldNodes| + (if oldFree > FRAMES then oldFree - FRAMES else 0) &&
                 recency.size - |recency.nodes| == oldSize - |oldNodes| + (if oldFree >= FRAMES then 1 else 0) &&
                 pagetable[..] == LruFaultTable(oldPt, oldNodes, oldFree, page, frame) &&
                 recency.nodes == LruFaultList(oldNodes, oldFree, page, frame) &&
                 fifoTable[..] == oldFt
      ensures PoolInvariant()
    {
      if replacementMethod == FIFO {
        FifoFault(oldPt, oldFt, oldIndex, page);
        ResidentAfterLoad(oldPt, oldMem, pagetable[..], mainMemory[..], backing, frame, page);
      } else {
        LruFault(oldPt, oldNodes, oldFree, page, frame);
      }
    }

    /** Under FIFO at most 256 pages are mapped between two translations: each mapped page
        sits in the ring slot of its own frame. */
    lemma FifoResidentBound()
      requires Valid() && replacementMethod == FIFO
      ensures |MappedIn(pagetable[..])| <= FRAMES
    {
      FifoBound(pagetable[..], fifoTable[..], insertionIndex);
    }

    /** The fault path of one translation (part2.c:122-139): take frame `free_page`, or, once
        all 256 frames are in use, the frame `freeFrame` reclaims; record the page in the
        FIFO ring or at the head of the recency list; copy the page in and map it. It asks
        only for the parts of the pool invariant the path relies on; that the whole
        invariant survives is `FaultKeepsValid`, applied by `OnTlbMiss`. */
    method PageFault(page: int) returns (frame: int)
      requires Shape() && 0 <= page < PAGES && pagetable[page] == -1
      requires RingInRange(fifoTable[..]) && NodesInRange(recency.nodes)
      requires replacementMethod == FIFO ==>
                 insertionIndex == freePage && FifoTables(pagetable[..], fifoTable[..], insertionIndex)
      requires replacementMethod != FIFO ==> LruCovers(pagetable[..], recency.nodes, freePage)
      modifies this, recency, pagetable, fifoTable, mainMemory
      ensures Shape()
      ensures totalAddresses == old(totalAddresses) && tlbHits == old(tlbHits)
      ensures pageFaults == old(pageFaults) + 1 && freePage == old(freePage) + 1
      ensures 0 <= frame < FRAMES
      ensures old(freePage) < FRAMES ==> frame == old(freePage)
      ensures replacementMethod == FIFO ==>
                frame == old(freePage) % FRAMES &&
                pagetable[..] == FifoFaultTable(old(pagetable[..]), old(fifoTable[..]), old(insertionIndex), page) &&
                fifoTable[..] == old(fifoTable[..])[old(insertionIndex) % FRAMES := page] &&
                insertionIndex == old(insertionIndex) + 1 && unchanged(recency)
      ensures replacementMethod != FIFO ==>
                (old(freePage) >= FRAMES ==> frame == old(recency.nodes)[|old(recency.nodes)| - 1].frame) &&
                pagetable[..] == LruFaultTable(old(pagetable[..]), old(recency.nodes), old(freePage), page, frame) &&
                recency.nodes == LruFaultList(old(recency.nodes), old(freePage), page, frame) &&
                insertionIndex == old(insertionIndex) && unchanged(fifoTable) &&
                recency.size - |recency.nodes| ==
                  old(recency.size) - |old(recency.nodes)| + (if old(freePage) >= FRAMES then 1 else 0)
      ensures Holds(mainMemory[..], backing, frame, page)
      ensures forall i :: 0 <= i < MEMORY_SIZE && !(frame * PAGE_SIZE <= i < frame * PAGE_SIZE + PAGE_SIZE) ==>
                mainMemory[i] == old(mainMemory[i])
    {
      ghost var oldPt, oldFt, oldMem, oldNodes := pagetable[..], fifoTable[..], mainMemory[..], recency.nodes;
      ghost var oldFree, oldIndex := freePage, insertionIndex;
      frame := freePage;
      freePage := freePage + 1;
      pageFaults := pageFaults + 1;
      if freePage > FRAMES {
        assert replacementMethod != FIFO ==> |recency.nodes| >= 2 by {
          if replacementMethod != FIFO {
            LruListLong(oldPt, oldNodes, oldFree);
          }
        }
        frame := FreeFrame();
        assert replacementMethod == FIFO ==> frame == oldIndex % FRAMES by {
          if replacementMethod == FIFO {
            FifoFault(oldPt, oldFt, oldIndex, page);
          }
        }
      }
      if replacementMethod == FIFO {
        fifoTable[insertionIndex % FRAMES] := page;
        insertionIndex := insertionIndex + 1;
      } else {
        recency.UpdateOrder(page, frame);
      }
      LoadPage(frame, page);
      pagetable[page] := frame;
    }

    /** `total_addresses++` at the top of `main`'s loop (part2.c:102). */
    method CountAddress()
      requires Valid()
      modifies this
      ensures Valid()
      ensures totalAddresses == old(totalAddresses) + 1
      ensures tlbHits == old(tlbHits) && pageFaults == old(pageFaults)
      ensures freePage == old(freePage) && insertionIndex == old(insertionIndex)
      ensures unchanged(tlb, pagetable, fifoTable, mainMemory)
    {
      totalAddresses := totalAddresses + 1;
    }

    /** The TLB-hit branch of `main`'s loop (part2.c:102, 113-117): the address and the hit
        are counted, and under LRU the page moves to the head of the recency list. */
    method OnTlbHit(page: int, frame: int)
      requires Valid() && 0 <= page < PAGES && 0 <= frame < FRAMES
      modifies this, recency
      ensures Valid()
      ensures totalAddresses == old(totalAddresses) + 1 && tlbHits == old(tlbHits) + 1
      ensures pageFaults == old(pageFaults)
      ensures freePage == old(freePage) && insertionIndex == old(insertionIndex)
      ensures unchanged(tlb, pagetable, fifoTable, mainMemory)
      ensures replacementMethod == FIFO ==> unchanged(recency)
      ensures replacementMethod != FIFO ==> recency.nodes == Touch(old(recency.nodes), page, frame)
    {
      if replacementMethod != FIFO {
        LruTouch(pagetable[..], recency.nodes, freePage, page, frame);
        recency.UpdateOrder(page, frame);
      }
      totalAddresses := totalAddresses + 1;
      tlbHits := tlbHits + 1;
    }

    /** `add_to_tlb` on a page the TLB does not hold: the translation joins the live
        window and the invariant is kept. */
    method CacheTranslation(page: int, frame: int)
      requires Valid() && 0 <= page < PAGES && 0 <= frame < FRAMES
      requires forall k :: 0 <= k < |tlb.Window()| ==> tlb.Window()[k].logical != page
      modifies tlb, tlb.entries
      ensures Valid()
      ensures tlb.history == old(tlb.history) + [Entry(page, frame)]
    {
      TlbInsert(tlb.history, page, frame);
      tlb.Add(page, frame);
    }

    /** The TLB-miss branch of `main`'s loop (part2.c:102, 118-143): count the address, read
        the page table, fault the page in when it is unmapped, and cache the translation in
        the TLB. */
    method OnTlbMiss(page: int) returns (frame: int, outcome: Outcome)
      requires Valid() && 0 <= page < PAGES
      requires FirstMatch(tlb.Window(), page) == -1
      modifies this, tlb, tlb.entries, recency, pagetable, fifoTable, mainMemory
      ensures Valid()
      ensures outcome != TlbHit
      ensures outcome == Fault <==> old(pagetable[page]) == -1
      ensures totalAddresses == old(totalAddresses) + 1 && tlbHits == old(tlbHits)
      ensures pageFaults == old(pageFaults) + (if outcome == Fault then 1 else 0)
      ensures freePage == old(freePage) + (if outcome == Fault then 1 else 0)
      ensures 0 <= frame < FRAMES
      ensures outcome == TableHit ==> frame == old(pagetable[page])
      ensures outcome == Fault && old(freePage) < FRAMES ==> frame == old(freePage)
      ensures outcome == Fault && replacementMethod == FIFO ==> frame == old(freePage) % FRAMES
      ensures outcome == Fault && replacementMethod != FIFO && old(freePage) >= FRAMES ==>
                frame == old(recency.nodes)[|old(recency.nodes)| - 1].frame
      ensures outcome == TableHit ==>
                unchanged(pagetable, fifoTable, mainMemory) && insertionIndex == old(insertionIndex) &&
                recency.nodes == old(recency.nodes)
      ensures outcome == Fault && replacementMethod == FIFO ==>
                pagetable[..] == FifoFaultTable(old(pagetable[..]), old(fifoTable[..]), old(insertionIndex), page) &&
                fifoTable[..] == old(fifoTable[..])[old(insertionIndex) % FRAMES := page] &&
                recency.nodes == old(recency.nodes)
      ensures outcome == Fault && replacementMethod != FIFO ==>
                pagetable[..] == LruFaultTable(old(pagetable[..]), old(recency.nodes), old(freePage), page, frame) &&
                recency.nodes == LruFaultList(old(recency.nodes), old(freePage), page, frame)
      ensures outcome == Fault || replacementMethod == FIFO ==> Holds(mainMemory[..], backing, frame, page)
      ensures tlb.history == old(tlb.history) + [Entry(page, frame)]
      ensures outcome == Fault ==>
                forall i :: 0 <= i < MEMORY_SIZE && !(frame * PAGE_SIZE <= i < frame * PAGE_SIZE + PAGE_SIZE) ==>
                  mainMemory[i] == old(mainMemory[i])
      ensures replacementMethod != FIFO ==> unchanged(fifoTable)
    {
      assert forall k :: 0 <= k < |tlb.Window()| ==> tlb.Window()[k].logical != page by {
        SearchAnswer(tlb.Window(), page);
      }
      CountAddress();
      frame := pagetable[page];
      if frame == -1 {
        ghost var oldPt, oldFt, oldMem, oldNodes := pagetable[..], fifoTable[..], mainMemory[..], recency.nodes;
        ghost var oldFree, oldIndex, oldSize := freePage, insertionIndex, recency.size;
        assert oldPt == old(pagetable[..]) && oldFt == old(fifoTable[..]) && oldNodes == old(recency.nodes);
        assert oldFree == old(freePage) && oldIndex == old(insertionIndex);
        frame := PageFault(page);
        FaultKeepsValid(oldPt, oldFt, oldMem, oldNodes, oldSize, oldFree, oldIndex, page, frame);
        outcome := Fault;
      } else {
        outcome := TableHit;
      }
      CacheTranslation(page, frame);
    }

    /** The lookup of one page in `main`'s loop (part2.c:102, 111-143): the TLB first, then
        the page table, then a page fault; a translation that missed the TLB is cached in
        it. */
    method Lookup(page: int) returns (frame: int, outcome: Outcome)
      requires Valid() && 0 <= page < PAGES
      modifies this, tlb, tlb.entries, recency, pagetable, fifoTable, mainMemory
      ensures Valid()
      ensures totalAddresses == old(totalAddresses) + 1
      ensures outcome == TlbHit <==> FirstMatch(old(tlb.Window()), page) != -1
      ensures outcome == Fault <==> FirstMatch(old(tlb.Window()), page) == -1 && old(pagetable[page]) == -1
      ensures tlbHits == old(tlbHits) + (if outcome == TlbHit then 1 else 0)
      ensures pageFaults == old(pageFaults) + (if outcome == Fault then 1 else 0)
      ensures freePage == old(freePage) + (if outcome == Fault then 1 else 0)
      ensures 0 <= frame < FRAMES
      ensures outcome == TlbHit ==> frame == FirstMatch(old(tlb.Window()), page)
      ensures outcome == TableHit ==> frame == old(pagetable[page])
      ensures outcome == Fault && old(freePage) < FRAMES ==> frame == old(freePage)
      ensures outcome == Fault && replacementMethod == FIFO ==> frame == old(freePage) % FRAMES
      ensures outcome == Fault && replacementMethod != FIFO && old(freePage) >= FRAMES ==>
                frame == old(recency.nodes)[|old(recency.nodes)| - 1].frame
      ensures outcome != Fault ==>
                unchanged(pagetable, fifoTable, mainMemory) && insertionIndex == old(insertionIndex)
      ensures outcome == Fault && replacementMethod == FIFO ==>
                pagetable[..] == FifoFaultTable(old(pagetable[..]), old(fifoTable[..]), old(insertionIndex), page) &&
                fifoTable[..] == old(fifoTable[..])[old(insertionIndex) % FRAMES := page]
      ensures outcome == Fault && replacementMethod != FIFO ==>
                pagetable[..] == LruFaultTable(old(pagetable[..]), old(recency.nodes), old(freePage), page, frame) &&
                recency.nodes == LruFaultList(old(recency.nodes), old(freePage), page, frame)
      ensures outcome == Fault || (outcome == TableHit && replacementMethod == FIFO) ==>
                Holds(mainMemory[..], backing, frame, page)
      ensures outcome == TlbHit ==> tlb.history == old(tlb.history)
      ensures outcome != TlbHit ==> tlb.history == old(tlb.history) + [Entry(page, frame)]
      ensures replacementMethod == FIFO || outcome == TableHit ==> recency.nodes == old(recency.nodes)
      ensures replacementMethod != FIFO && outcome == TlbHit ==>
                recency.nodes == Touch(old(recency.nodes), page, frame)
      ensures outcome == Fault ==>
                forall i :: 0 <= i < MEMORY_SIZE && !(frame * PAGE_SIZE <= i < frame * PAGE_SIZE + PAGE_SIZE) ==>
                  mainMemory[i] == old(mainMemory[i])
      ensures replacementMethod != FIFO ==> unchanged(fifoTable)
    {
      frame := tlb.Search(page);
      if frame != -1 {
        assert 0 <= frame < FRAMES by { SearchAnswer(tlb.Window(), page); }
        OnTlbHit(page, frame);
        outcome := TlbHit;
      } else {
        frame, outcome := OnTlbMiss(page);
      }
    }

    /** One iteration of `main`'s loop (part2.c:101-149): decode the address, look the page
        up in the TLB, then in the page table, then fault it in; cache a looked-up
        translation in the TLB; read the byte. */
    method Step(address: Int32) returns (frame: int, physicalAddress: int, value: Int8, outcome: Outcome)
      requires Valid()
      modifies this, tlb, tlb.entries, recency, pagetable, fifoTable, mainMemory
      ensures Valid()
      ensures totalAddresses == old(totalAddresses) + 1
      ensures outcome == TlbHit <==> FirstMatch(old(tlb.Window()), Page(address)) != -1
      ensures outcome == Fault <==>
                FirstMatch(old(tlb.Window()), Page(address)) == -1 && old(pagetable[Page(address)]) == -1
      ensures tlbHits == old(tlbHits) + (if outcome == TlbHit then 1 else 0)
      ensures pageFaults == old(pageFaults) + (if outcome == Fault then 1 else 0)
      ensures freePage == old(freePage) + (if outcome == Fault then 1 else 0)
      ensures 0 <= frame < FRAMES
      ensures outcome == TlbHit ==> frame == FirstMatch(old(tlb.Window()), Page(address))
      ensures outcome == TableHit ==> frame == old(pagetable[Page(address)])
      ensures outcome == Fault && old(freePage) < FRAMES ==> frame == old(freePage)
      ensures outcome == Fault && replacementMethod == FIFO ==> frame == old(freePage) % FRAMES
      ensures outcome == Fault && replacementMethod != FIFO && old(freePage) >= FRAMES ==>
                frame == old(recency.nodes)[|old(recency.nodes)| - 1].frame
      ensures physicalAddress == frame * PAGE_SIZE + Offset(address)
      ensures value == mainMemory[physicalAddress]
      ensures outcome != Fault ==>
                unchanged(pagetable, fifoTable, mainMemory) && insertionIndex == old(insertionIndex)
      ensures outcome == Fault && replacementMethod == FIFO ==>
                pagetable[..] == FifoFaultTable(old(pagetable[..]), old(fifoTable[..]), old(insertionIndex), Page(address)) &&
                fifoTable[..] == old(fifoTable[..])[old(insertionIndex) % FRAMES := Page(address)]
      ensures outcome == Fault && replacementMethod != FIFO ==>
                pagetable[..] == LruFaultTable(old(pagetable[..]), old(recency.nodes), old(freePage), Page(address), frame) &&
                recency.nodes == LruFaultList(old(recency.nodes), old(freePage), Page(address), frame)
      ensures outcome == Fault ==> Holds(mainMemory[..], backing, frame, Page(address))
      ensures outcome == TlbHit ==> tlb.history == old(tlb.history)
      ensures outcome != TlbHit ==> tlb.history == old(tlb.history) + [Entry(Page(address), frame)]
      ensures replacementMethod == FIFO || outcome == TableHit ==> recency.nodes == old(recency.nodes)
      ensures replacementMethod != FIFO && outcome == TlbHit ==>
                recency.nodes == Touch(old(recency.nodes), Page(address), frame)
      ensures LineFaithful(Translation(address, physicalAddress, value, outcome), backing, replacementMethod)
      ensures outcome == Fault ==>
                forall i :: 0 <= i < MEMORY_SIZE && !(frame * PAGE_SIZE <= i < frame * PAGE_SIZE + PAGE_SIZE) ==>
                  mainMemory[i] == old(mainMemory[i])
      ensures replacementMethod != FIFO ==> unchanged(fifoTable)
    {
      var offset := Offset(address);
      var page := Page(address);
      DecodeTruncates(address);
      frame, outcome := Lookup(page);
      physicalAddress := PhysicalAddress(frame, offset);
      value := mainMemory[physicalAddress];
      assert physicalAddress % PAGE_SIZE == offset by {
        DivModUnique(physicalAddress, PAGE_SIZE, frame, offset);
      }
      if outcome == Fault || (outcome == TableHit && replacementMethod == FIFO) {
        ReadFromHeldFrame(mainMemory[..], backing, frame, address);
      }
    }

    /** `main`'s loop over the input addresses: one line per address, in order, and the
        counters it prints at the end. */
    method Run(addresses: seq<Int32>) returns (lines: seq<Translation>)
      requires Valid()
      modifies this, tlb, tlb.entries, recency, pagetable, fifoTable, mainMemory
      ensures Valid()
      ensures |lines| == |addresses|
      ensures forall i :: 0 <= i < |lines| ==>
                lines[i].virtualAddress == addresses[i] && LineFaithful(lines[i], backing, replacementMethod)
      ensures totalAddresses == old(totalAddresses) + |addresses|
      ensures tlbHits == old(tlbHits) + CountOf(lines, TlbHit)
      ensures pageFaults == old(pageFaults) + CountOf(lines, Fault)
    {
      lines := [];
      var i := 0;
      while i < |addresses|
        invariant 0 <= i <= |addresses| && |lines| == i
        invariant Valid()
        invariant forall j :: 0 <= j < i ==>
                    lines[j].virtualAddress == addresses[j] && LineFaithful(lines[j], backing, replacementMethod)
        invariant totalAddresses == old(totalAddresses) + i
        invariant tlbHits == old(tlbHits) + CountOf(lines, TlbHit)
        invariant pageFaults == old(pageFaults) + CountOf(lines, Fault)
      {
        var frame, physicalAddress, value, outcome := Step(addresses[i]);
        var line := Translation(addresses[i], physicalAddress, value, outcome);
        CountOfAppend(lines, line, TlbHit);
        CountOfAppend(lines, line, Fault);
        lines := lines + [line];
        i := i + 1;
      }
    }
  }
}
