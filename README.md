# Demand-paged address translation (part2.c)

`part2.c` simulates a virtual-memory system with 1024 pages of 1024 bytes and 256 physical
frames. It reads a stream of logical addresses. For each one it:

- splits the address into a 10-bit page number and a 10-bit offset;
- looks the page up in a 16-entry translation lookaside buffer (TLB), then in the page
  table;
- on a page fault, copies the page from a backing store into a frame. The frame is the
  next never-used one or, once all 256 are in use, the one reclaimed by the replacement
  policy: FIFO (policy code 0) or an LRU-style recency list (any other code);
- reads the byte at the resulting physical address;
- counts addresses, TLB hits and page faults.

The model has five modules, one file each:

- `address.dfy` (module `Address`): the constants and the bit-field decoding.
  - C's `&` and `|` are modelled bit by bit on the 32-bit two's-complement pattern.
    Lemmas prove that each mask is a Euclidean remainder and each `|` is a sum.
  - The shifts are modelled as multiplication and division by 2^10. `<<` is applied
    only to a frame number, which stays far inside a positive `int`. `>>` is read as
    the arithmetic shift, which rounds down (see "Left out").
- `tlb.dfy` (module `Tlb`): the TLB.
  - The class `Tlb` holds the 16-slot `array` and the insert counter.
  - A ghost history of insertions specifies it: the live window is the last
    min(count, 16) insertions, and `search_tlb` answers with the first match in that
    window.
- `recency.dfy` (module `Recency`): the doubly linked recency list.
  - The class `RecencyList` holds a sequence of (page, frame) nodes, head first, and the
    `sizeOfNodes` counter.
  - The operations keep their literal C behaviour. `removeP` never examines the head
    node, so touching the head's page leaves two nodes for it. `removeLast` leaves
    `sizeOfNodes` unchanged.
- `frames.dfy` (module `Frames`): the frame pool on plain sequences.
  - The FIFO pairing of page table and ring: slot k holds the page mapped to frame k.
  - Residency: every mapped page's frame holds that page's bytes.
  - The LRU bookkeeping: every mapped page has a node, and at least min(faults, 256)
    pages are mapped.
  - How a FIFO or LRU fault changes each of these.
- `pager.dfy` (module `Pager`): the class `VirtualMemory` with the globals of
  `part2.c` and the counters of `main`.
  - `freeFrame` and the `memcpy`.
  - The fault path, the TLB-hit and TLB-miss branches, and one iteration of `main`'s
    loop (`Step`).
  - The whole loop over an address sequence (`Run`).

The simulator's state keeps an invariant, `Valid()`. The constructor establishes it. `CountAddress`, `OnTlbHit`, `CacheTranslation`, `OnTlbMiss`, `Lookup`, `Step` and `Run` require it and keep it. `FreeFrame`, `LoadPage` and `PageFault` work below it, each with its own preconditions. The invariant has two halves:

- TLB half: the live window names valid pages and frames, no page twice.
- Pool half: every entry is in range, each fault handed out one frame, and the policy's
  bookkeeping holds.

Under FIFO, a page-table hit and a fault both read the backing store's byte at the
address reduced to 20 bits.

Under LRU this is not claimed. A stale TLB entry, left in place after its page was
evicted, can push a second node for a frame. A later eviction then unmaps a page whose
frame has been reused.

## Model

| member | source | states |
|---|---|---|
| Address.Offset | part2.c:107 | `logical_address & OFFSET_MASK` is the address's Euclidean remainder modulo 1024 |
| Address.Page | part2.c:108 | `(logical_address >> OFFSET_BITS) & PAGE_MASK`, with `>>` as division by 1024 rounding down, is that quotient modulo 1024 |
| Address.PhysicalAddress | part2.c:145 | `(physical_page << OFFSET_BITS) \| offset` equals frame * 1024 + offset |
| Address.Max | part2.c:198-201 | the result is one of the two arguments and at least both |
| Address.MaskIsMod | part2.c:107 | and-ing with a mask of k one-bits keeps the value modulo 2^k |
| Address.OrIsAdd | part2.c:145 | or-ing bits below position k into a value shifted left by k adds them |
| Address.BitsLow | part2.c:107 | taking the 32-bit pattern of an int keeps its low ten bits |
| Address.DecodeTruncates | part2.c:107-108 | page and offset are in [0, 1024), and page * 1024 + offset is the address modulo 2^20, for negative addresses too |
| Address.PhysicalAddressDecodes | part2.c:145-146 | decoding a physical address gives back its frame and offset |
| Tlb.FirstMatchSpec | part2.c:206-213 | the scan answers with the frame of the first entry for the page, and with -1 when no entry holds it |
| Tlb.LiveWindowAppend | part2.c:219-220 | one insertion appends to the live window and drops its oldest entry once 16 are live |
| Tlb.InsertKeepsDistinct | part2.c:217-222 | inserting a page absent from the window keeps the window's pages pairwise distinct |
| Tlb.Tlb.constructor | part2.c:46 | the zeroed array with no live entries |
| Tlb.Tlb.Search | part2.c:204-214 | `search_tlb` returns the first-match answer over the last min(tlbindex, 16) insertions |
| Tlb.Tlb.Add | part2.c:217-223 | `add_to_tlb` overwrites only slot tlbindex % 16, increments tlbindex by one, and appends to the live window |
| Recency.DropFirstSpec | part2.c:183-190 | removing the first node for a page deletes exactly that node, or nothing when there is none |
| Recency.RemoveAfterHeadSpec | part2.c:177-196 | `removeP` keeps the head and removes the first node for the page after it, or nothing |
| Recency.DropFirstPages | part2.c:183-195 | removing a node keeps every other page and adds none |
| Recency.TouchPages | part2.c:225-228 | after `updateOrder(p, f)` the head is (p, f) and the pages covered are the old ones plus p |
| Recency.TouchHeadDuplicates | part2.c:180-185 | touching the page already at the head keeps the old head right behind the new one, so two nodes hold the page; with no later node for it, the list is exactly the new node followed by the old list |
| Recency.DropFirstElements | part2.c:183-195 | removing a node introduces no node |
| Recency.TouchElements | part2.c:225-228 | every node after `updateOrder` is the new head or an old node |
| Recency.PagesDropLast | part2.c:160-165 | detaching the tail loses at most the tail's page |
| Recency.PagesBound | part2.c:35-43 | a list has at least as many nodes as pages it covers |
| Recency.RecencyList.constructor | part2.c:42-43 | the empty list with a zero count |
| Recency.RecencyList.Push | part2.c:167-175 | `pushP` puts a new node at the head and counts it |
| Recency.RecencyList.Remove | part2.c:177-196 | `removeP` leaves the list `RemoveAfterHead` describes, and decrements the count exactly when a node was unlinked |
| Recency.RecencyList.RemoveLast | part2.c:160-165 | `removeLast` returns the tail, detaches it, and leaves `sizeOfNodes` unchanged |
| Recency.RecencyList.UpdateOrder | part2.c:225-228 | `updateOrder` leaves the list `Touch` describes and keeps the count's surplus over the list length |
| Frames.FifoFaultTable | part2.c:128-139 | a FIFO fault maps the page to ring slot index % 256 and, from the 257th fault on, unmaps only the page recorded in that slot |
| Frames.FifoFault | part2.c:231-235 | under the FIFO pairing the reclaimed frame is the slot's number; the new table and ring keep the pairing; no other page holds that frame |
| Frames.RingPagesBound | part2.c:45 | the first n ring slots record at most n pages, each slot's page among them |
| Frames.FifoBound | part2.c:132-134 | under the FIFO pairing at most 256 pages are mapped |
| Frames.ResidentAfterLoad | part2.c:138-139 | copying a page into a frame no other mapped page uses keeps every mapped page's bytes in place |
| Frames.NothingMapped | part2.c:88-90 | a table of all -1 maps nothing and meets the FIFO and LRU bookkeeping |
| Frames.LruListLong | part2.c:128-129 | once 256 pages have faulted, the list has at least 256 nodes, so `removeLast` finds a tail distinct from the head |
| Frames.LruFaultTable | part2.c:236-239 | an LRU fault maps the page to its frame and, from the 257th fault on, unmaps only the tail's page |
| Frames.LruFaultMapped | part2.c:236-239 | an LRU fault changes the mapped pages by removing the tail's page (when evicting) and adding the faulting page |
| Frames.LruFault | part2.c:128-139 | an LRU fault on an unmapped page keeps the LRU bookkeeping and the ranges |
| Frames.LruTouch | part2.c:113-115 | touching a page on a TLB hit keeps the LRU bookkeeping |
| Pager.CountOf | part2.c:95-97 | a count of lines never exceeds the number of lines |
| Pager.CountOfAppend | part2.c:117 | a new line adds one to the count of its own outcome only |
| Pager.OutcomesPartition | part2.c:111-143 | every line is exactly one of TLB hit, page-table hit and fault |
| Pager.SearchAnswer | part2.c:111-113 | with in-range entries, the search answers -1 exactly when the page is absent, and otherwise a valid frame |
| Pager.TlbInsert | part2.c:142 | caching a translation for a page the TLB does not hold keeps the TLB invariant |
| Pager.ReadFromHeldFrame | part2.c:146 | reading offset o of a frame that holds page p gives the backing store's byte at the address |
| Pager.VirtualMemory.constructor | part2.c:86-99 | every page-table entry is -1, all counters are zero, and the invariant holds |
| Pager.VirtualMemory.FreeFrame | part2.c:230-242 | FIFO: unmaps the page in the current ring slot and returns its frame. LRU: detaches the tail, unmaps its page and returns its frame. Nothing else changes |
| Pager.VirtualMemory.LoadPage | part2.c:138 | the frame's 1024 bytes become the page's bytes and no other byte changes |
| Pager.VirtualMemory.FaultKeepsValid | part2.c:122-139 | the state a fault leaves keeps the pool invariant |
| Pager.VirtualMemory.FifoResidentBound | part2.c:128-139 | between two translations under FIFO, at most 256 pages are mapped |
| Pager.VirtualMemory.PageFault | part2.c:122-139 | faults 1..256 take frames 0..255 in order, and later faults take the reclaimed frame. FIFO: the table and ring change as `FifoFaultTable` says and `insertion_index` advances. LRU: the table and list change as `LruFaultTable` and `LruFaultList` say. The frame holds the page and no other byte changes |
| Pager.VirtualMemory.CountAddress | part2.c:102 | one more address counted; nothing else changes |
| Pager.VirtualMemory.OnTlbHit | part2.c:113-117 | one address and one hit counted; page table, ring, memory and `free_page` unchanged; under LRU the page is touched |
| Pager.VirtualMemory.CacheTranslation | part2.c:142 | the translation joins the TLB history and the invariant is kept |
| Pager.VirtualMemory.OnTlbMiss | part2.c:118-143 | the address faults exactly when the table entry is -1. A table hit changes neither table, ring, memory nor list. A fault changes the table, ring, list and memory as `PageFault` says, no byte outside the loaded frame and, under LRU, not the ring, and counts one fault. The translation is cached and the invariant is kept |
| Pager.VirtualMemory.Lookup | part2.c:111-143 | TLB hit exactly when the search finds the page, fault exactly when both miss. The frame is the search's, the table's or the fault's. Only a fault changes the page table, ring and memory, and then only the loaded frame's bytes and, under FIFO only, the ring. Each counter rises by exactly the outcome's count |
| Pager.VirtualMemory.Step | part2.c:101-149 | one translation: Lookup's outcome, frame and state change for the decoded page. The physical address is frame * 1024 + offset. The value is the byte there, and it is the backing store's byte after a fault or a FIFO table hit. A fault changes no byte outside the loaded frame, and under LRU the ring never changes |
| Pager.VirtualMemory.Run | part2.c:101-149 | one faithful line per address; `total_addresses` rises by the number of addresses, and the hits and faults by the numbers of hit and fault lines |

## Left out

- Command-line handling, `open`/`mmap` of the backing store and `fopen`/`fgets`/`atoi` of the input (part2.c:74-86, 101, 103). `Run` takes the addresses as a sequence of 32-bit integers, and the constructor takes the backing store's bytes and the policy code.
- The argument `argv[3]`: the program never reads it.
- All `printf` output: the fault notice, the per-address line and the summary with its floating-point rates (part2.c:123, 148, 151-155). `Run` returns the data of each per-address line instead.
- `malloc`, the `next`/`prev` pointers and the never-freed nodes of the recency list. The list is a sequence whose operations have the literal effect of the pointer code.
- Recency.RecencyList.RemoveLast: requires two nodes. On a one-node list the C code reads the head's never-initialised `prev`. `Frames.LruListLong` proves that every eviction meets this requirement.
- Pager.VirtualMemory.Run: the counters are unbounded. A run long enough to overflow the C `int` counters is not modelled.
- Pager.VirtualMemory.Step: the byte read is claimed to be the backing store's only after a fault or a FIFO page-table hit. Under LRU, and after a TLB hit, a stale entry can name a frame that has since been reused, and the model keeps such entries as the C code does.
- Address.Page: `>>` is modelled as division by 1024 rounding down. For a negative `int` this is the arithmetic shift of the usual compilers, which shifts in copies of the sign bit; C leaves the choice to the implementation. No lemma relates this division to a bit-level shift. The mask keeps only bits 10..19, so the page does not depend on how the high bits are filled.
- The page table is declared with `PAGE_SIZE` entries and filled up to `PAGE_SIZE` (part2.c:67, 88). Both equal `PAGES` (1024), and the model uses 1024.
- At most 256 mapped pages is proved for FIFO only (`Pager.VirtualMemory.FifoResidentBound`). Under LRU it does not hold. A stale node's eviction can unmap a page that is already unmapped, so a fault adds a mapped page without removing one, and two mapped pages can then share a frame.
