/** The translation lookaside buffer: a 16-slot ring of (logical page, physical frame)
    pairs, always overwritten in insertion order (part2.c:30-33, 46, 63-64, 203-223). */
module Tlb {
  import opened Address

  /** `struct tlbentry` */
  datatype Entry = Entry(logical: int, physical: int)

  /** The entries `search_tlb` looks at: the last min(n, 16) entries of the insertion
      history `h`, oldest first. */
  function LiveWindow(h: seq<Entry>): (w: seq<Entry>)
    ensures |w| == if |h| <= TLB_SIZE then |h| else TLB_SIZE
  {
    if |h| <= TLB_SIZE then h else h[|h| - TLB_SIZE..]
  }

  /** Entry k is the first entry of w whose logical page is `page`. */
  predicate FirstAt(w: seq<Entry>, page: int, k: int) {
    0 <= k < |w| && w[k].logical == page && forall j :: 0 <= j < k ==> w[j].logical != page
  }

  /** The answer of a scan of w, oldest entry first, for `page`: the frame of the first
      matching entry, or -1 when no entry matches. */
  function FirstMatch(w: seq<Entry>, page: int): int {
    if w == [] then -1
    else if w[0].logical == page then w[0].physical
    else FirstMatch(w[1..], page)
  }

  /** The scan answers with the frame of the first entry for `page` when there is one, and
      with -1 when there is none. */
  lemma {:induction false} FirstMatchSpec(w: seq<Entry>, page: int)
    ensures forall k :: FirstAt(w, page, k) ==> FirstMatch(w, page) == w[k].physical
    ensures (exists k :: 0 <= k < |w| && w[k].logical == page) ==>
              exists k :: FirstAt(w, page, k) && FirstMatch(w, page) == w[k].physical
    ensures (forall k :: 0 <= k < |w| ==> w[k].logical != page) ==> FirstMatch(w, page) == -1
  {
    if w == [] {
    } else if w[0].logical == page {
      assert FirstAt(w, page, 0);
    } else {
      FirstMatchSpec(w[1..], page);
      assert forall k :: FirstAt(w, page, k) ==> k > 0 && FirstAt(w[1..], page, k - 1);
      assert forall k :: FirstAt(w[1..], page, k) ==> FirstAt(w, page, k + 1);
      assert (exists k :: 0 <= k < |w| && w[k].logical == page) ==>
               exists k :: 0 <= k < |w[1..]| && w[1..][k].logical == page;
    }
  }

  /** Entries i and j of w, i before j, hold the same logical page. */
  predicate SamePage(w: seq<Entry>, i: int, j: int) {
    0 <= i < j < |w| && w[i].logical == w[j].logical
  }

  /** No logical page occurs twice among the entries. */
  predicate DistinctPages(w: seq<Entry>) {
    forall i, j {:trigger SamePage(w, i, j)} :: 0 <= i < j < |w| ==> !SamePage(w, i, j)
  }

  /** One insertion either grows the window by the new entry or, once 16 entries are
      live, also drops the oldest one: the window never holds more than 16 entries. */
  lemma LiveWindowAppend(h: seq<Entry>, e: Entry)
    ensures LiveWindow(h + [e]) ==
            (if |h| < TLB_SIZE then LiveWindow(h) else LiveWindow(h)[1..]) + [e]
  {
    var h' := h + [e];
    if |h| < TLB_SIZE {
      assert LiveWindow(h') == h' == LiveWindow(h) + [e];
    } else {
      var lo := |h| - TLB_SIZE;
      assert LiveWindow(h') == h'[lo + 1..];
      assert LiveWindow(h)[1..] == h[lo + 1..];
      assert h'[lo + 1..] == h[lo + 1..] + [e];
    }
  }

  /** Inserting a page that the window does not hold keeps its pages pairwise distinct. */
  lemma InsertKeepsDistinct(h: seq<Entry>, e: Entry)
    requires DistinctPages(LiveWindow(h))
    requires forall k :: 0 <= k < |LiveWindow(h)| ==> LiveWindow(h)[k].logical != e.logical
    ensures DistinctPages(LiveWindow(h + [e]))
  {
    LiveWindowAppend(h, e);
    var w := LiveWindow(h);
    var w' := LiveWindow(h + [e]);
    var kept := if |h| < TLB_SIZE then w else w[1..];
    assert w' == kept + [e];
    forall i, j | 0 <= i < j < |w'|
      ensures !SamePage(w', i, j)
    {
      if |h| < TLB_SIZE {
        assert w'[i] == w[i];
        if j < |w| { assert w'[j] == w[j] && !SamePage(w, i, j); } else { assert w'[j] == e; }
      } else {
        assert w'[i] == w[i + 1];
        if j < |kept| { assert w'[j] == w[j + 1] && !SamePage(w, i + 1, j + 1); } else { assert w'[j] == e; }
      }
    }
  }

  /** The global `tlb` array and its insert counter `tlbindex`. The ghost `history`
      records every insertion; the live slots hold its last 16 entries. */
  class Tlb {
    const entries: array<Entry>
    var count: nat
    ghost var history: seq<Entry>

    ghost predicate Valid()
      reads this, entries
    {
      entries.Length == TLB_SIZE && |history| == count &&
      forall i :: 0 <= i < count && count - TLB_SIZE <= i ==> entries[i % TLB_SIZE] == history[i]
    }

    /** The entries a search examines, oldest first. */
    ghost function Window(): seq<Entry>
      reads this
    {
      LiveWindow(history)
    }

    /** The zero-initialised global array and counter. */
    constructor ()
      ensures Valid() && fresh(entries)
      ensures count == 0 && history == [] && Window() == []
      ensures forall k :: 0 <= k < TLB_SIZE ==> entries[k] == Entry(0, 0)
    {
      entries := new Entry[TLB_SIZE](_ => Entry(0, 0));
      count := 0;
      history := [];
    }

    /** `search_tlb`: scan the slots of inserts max(tlbindex - 16, 0) .. tlbindex - 1,
        oldest first, and return the frame of the first entry for `page`, or -1. */
    method Search(page: int) returns (frame: int)
      requires Valid()
      ensures frame == FirstMatch(Window(), page)
    {
      var lo := Max(count - TLB_SIZE, 0);
      var i := lo;
      while i < count
        invariant lo <= i <= count
        invariant FirstMatch(Window(), page) == FirstMatch(history[i..], page)
      {
        var entry := entries[i % TLB_SIZE];
        if entry.logical == page {
          return entry.physical;
        }
        assert history[i..][1..] == history[i + 1..];
        i := i + 1;
      }
      return -1;
    }

    /** `add_to_tlb`: overwrite slot tlbindex % 16 and count the insertion. */
    method Add(logical: int, physical: int)
      requires Valid()
      modifies this, entries
      ensures Valid()
      ensures count == old(count) + 1
      ensures history == old(history) + [Entry(logical, physical)]
      ensures entries[..] == old(entries[..])[old(count) % TLB_SIZE := Entry(logical, physical)]
      ensures Window() == (if old(count) < TLB_SIZE then old(Window()) else old(Window())[1..])
                          + [Entry(logical, physical)]
    {
      var slot := count % TLB_SIZE;
      count := count + 1;
      entries[slot] := Entry(logical, physical);
      history := history + [Entry(logical, physical)];
      forall i | 0 <= i < count && count - TLB_SIZE <= i
        ensures entries[i % TLB_SIZE] == history[i]
      {
        if i < count - 1 {
          assert i % TLB_SIZE != slot;
        }
      }
      LiveWindowAppend(old(history), Entry(logical, physical));
    }
  }
}
