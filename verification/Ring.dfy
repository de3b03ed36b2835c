/** The cache of an ISAM workarea: a ring of 3 * SR_CACHE_PAGE_SIZE slots, a window of it that is in use, and the
    searches for the next record, which pass over the slots of deleted records.
 */
module Ring {

  datatype Slot = Nil | Record(recno: nat)

  datatype Way = Ahead | Back

  // ---------------------------------------------------------------- positions

  /** A position one step, or up to a whole turn, outside of 1..n, brought back into the ring. */
  function Fixed(n: nat, p: int): int
  {
    if p < 1 then p + n else if p > n then p - n else p
  }

  /** The three branches of the range test. */
  predicate InRange(p: int, begin: int, end: int)
  {
    if begin == end then p == begin
    else if begin < end then p >= begin && p <= end
    else p >= begin || p <= end
  }

  predicate On(n: nat, p: int)
  {
    1 <= p <= n
  }

  /** How many steps ahead of `from` position `p` is. */
  function Offset(n: nat, from: int, p: int): int
  {
    if p >= from then p - from else p - from + n
  }

  /** The position `j` steps from `p`. */
  function Go(n: nat, p: int, w: Way, j: nat): int
  {
    Fixed(n, if w == Ahead then p + j else p - j)
  }

  lemma OffsetIsModular(n: nat, from: int, p: int)
    requires On(n, from) && On(n, p)
    ensures Offset(n, from, p) == (p - from) % n
  {
    if p >= from {
      assert 0 <= p - from < n;
    } else {
      assert 0 <= p - from + n < n;
      assert (p - from) == (-1) * n + (p - from + n);
    }
  }

  /** Fixing a position brings it into the ring without changing where on the ring it is. */
  lemma FixedIsCongruent(n: int, p: int)
    requires n > 0 && -n < p <= 2 * n
    ensures On(n, Fixed(n, p)) && (Fixed(n, p) - p) % n == 0
  {
    assert n % n == 0 && (-n) % n == 0 && 0 % n == 0;
  }

  /** The range test is a test for an interval of the ring. */
  lemma RangeIsModular(n: nat, p: int, begin: int, end: int)
    requires On(n, p) && On(n, begin) && On(n, end)
    ensures InRange(p, begin, end) <==> (p - begin) % n <= (end - begin) % n
  {
    OffsetIsModular(n, begin, p);
    OffsetIsModular(n, begin, end);
  }

  // ---------------------------------------------------------------- searching

  ghost predicate Placed(cells: seq<Slot>, begin: int, end: int, p: int)
  {
    On(|cells|, begin) && On(|cells|, end) && On(|cells|, p)
  }

  predicate Live(cells: seq<Slot>, p: int)
  {
    On(|cells|, p) && cells[p - 1] != Nil
  }

  predicate StopsAt(cells: seq<Slot>, begin: int, end: int, start: int, w: Way, j: nat)
  {
    var p := Go(|cells|, start, w, j);
    !InRange(p, begin, end) || Live(cells, p)
  }

  ghost predicate Ends(cells: seq<Slot>, begin: int, end: int, start: int, w: Way)
  {
    exists j :: 0 <= j <= |cells| && StopsAt(cells, begin, end, start, w, j)
  }

  /** The window leaves a slot of the ring free. */
  predicate LeavesFree(cells: seq<Slot>, begin: int, end: int)
  {
    Offset(|cells|, begin, end) + 1 < |cells|
  }

  lemma FullRange(cells: seq<Slot>, begin: int, end: int, p: int)
    requires Placed(cells, begin, end, p) && !LeavesFree(cells, begin, end)
    ensures InRange(p, begin, end)
  {
  }

  /** A search comes to an end exactly when the window leaves a slot free or the ring has a live slot. */
  lemma EndsExactly(cells: seq<Slot>, begin: int, end: int, start: int, w: Way)
    requires Placed(cells, begin, end, start) && InRange(start, begin, end)
    ensures Ends(cells, begin, end, start, w) <==> LeavesFree(cells, begin, end) || exists p :: Live(cells, p)
  {
    var n := |cells|;
    if Ends(cells, begin, end, start, w) {
      var j :| 0 <= j <= n && StopsAt(cells, begin, end, start, w, j);
      var p := Go(n, start, w, j);
      if !LeavesFree(cells, begin, end) { FullRange(cells, begin, end, p); }
    }
    if LeavesFree(cells, begin, end) {
      var j := if w == Ahead then Offset(n, start, end) + 1 else Offset(n, begin, start) + 1;
      assert StopsAt(cells, begin, end, start, w, j);
    }
    if p :| Live(cells, p) {
      var j := if w == Ahead then Offset(n, start, p) else Offset(n, p, start);
      assert Go(n, start, w, j) == p;
      assert StopsAt(cells, begin, end, start, w, j);
    }
  }

  /** What a search finds that has passed over `j` slots; 0 when there is nothing. */
  function SearchOn(cells: seq<Slot>, begin: int, end: int, start: int, w: Way, j: nat): int
    decreases |cells| + 1 - j
  {
    var p := Go(|cells|, start, w, j);
    if j > |cells| || !InRange(p, begin, end) then 0
    else if Live(cells, p) then p
    else SearchOn(cells, begin, end, start, w, j + 1)
  }

  function Search(cells: seq<Slot>, begin: int, end: int, start: int, w: Way): int
  {
    SearchOn(cells, begin, end, start, w, 0)
  }

  lemma SearchStep(cells: seq<Slot>, begin: int, end: int, start: int, w: Way, j: nat)
    requires On(|cells|, start) && j < |cells| && !StopsAt(cells, begin, end, start, w, j)
    ensures SearchOn(cells, begin, end, start, w, j) == SearchOn(cells, begin, end, start, w, j + 1)
    ensures Go(|cells|, start, w, j + 1) == Go(|cells|, Go(|cells|, start, w, j), w, 1)
  {
  }

  lemma SearchEnds(cells: seq<Slot>, begin: int, end: int, start: int, w: Way) returns (stop: nat)
    requires Placed(cells, begin, end, start) && (LeavesFree(cells, begin, end) || exists p :: Live(cells, p))
    ensures stop <= |cells| && StopsAt(cells, begin, end, start, w, stop)
  {
    if InRange(start, begin, end) {
      EndsExactly(cells, begin, end, start, w);
      stop :| 0 <= stop <= |cells| && StopsAt(cells, begin, end, start, w, stop);
    } else {
      stop := 0;
    }
  }

  class Cache {
    /** SR_CACHE_PAGE_SIZE */
    const page: nat
    const aCache: array<Slot>
    var nPosCache: int
    var nCacheBegin: int
    var nCacheEnd: int

    ghost predicate Valid()
      reads this
    {
      && page > 0 && aCache.Length == 3 * page
      && On(aCache.Length, nCacheBegin) && On(aCache.Length, nCacheEnd) && 0 <= nPosCache <= aCache.Length
    }

    constructor (pageSize: nat)
      requires pageSize > 0
      ensures Valid() && fresh(aCache) && page == pageSize && nPosCache == 0
      ensures forall p :: On(aCache.Length, p) ==> !Live(aCache[..], p)
    {
      page := pageSize;
      aCache := new Slot[3 * pageSize](_ => Nil);
      nPosCache, nCacheBegin, nCacheEnd := 0, 1, 1;
    }

    method FixCachePointer(p: int) returns (fixed: int)
      requires -aCache.Length < p <= 2 * aCache.Length
      ensures fixed == Fixed(aCache.Length, p)
    {
      fixed := p;
      if fixed < 1 {
        fixed := fixed + aCache.Length;
      } else if fixed > aCache.Length {
        fixed := fixed - aCache.Length;
      }
    }

    function Start(w: Way, lPreviousCacheStatus: int): int
      reads this
    {
      if lPreviousCacheStatus == 0 then nPosCache else Go(aCache.Length, nPosCache, w, 1)
    }

    method ScanFWD(start: int) returns (pos: int)
      requires Valid() && On(aCache.Length, start)
      requires LeavesFree(aCache[..], nCacheBegin, nCacheEnd) || exists p :: Live(aCache[..], p)
      ensures pos == Search(aCache[..], nCacheBegin, nCacheEnd, start, Ahead)
    {
      var lPosCache := start;
      ghost var cells, j := aCache[..], 0;
      ghost var stop := SearchEnds(cells, nCacheBegin, nCacheEnd, start, Ahead);
      ghost var found := Search(cells, nCacheBegin, nCacheEnd, start, Ahead);
      while InRange(lPosCache, nCacheBegin, nCacheEnd)
        invariant 0 <= j <= stop && On(|cells|, lPosCache) && lPosCache == Go(|cells|, start, Ahead, j)
        invariant SearchOn(cells, nCacheBegin, nCacheEnd, start, Ahead, j) == found
        decreases stop - j
      {
        if aCache[lPosCache - 1] != Nil {
          return lPosCache;
        }
        SearchStep(cells, nCacheBegin, nCacheEnd, start, Ahead, j);
        lPosCache := FixCachePointer(lPosCache + 1);
        j := j + 1;
      }
      return 0;
    }

    method SearchCacheFWD(lPreviousCacheStatus: int) returns (pos: int)
      requires Valid()
      requires LeavesFree(aCache[..], nCacheBegin, nCacheEnd) || exists p :: Live(aCache[..], p)
      ensures pos == if nPosCache == 0 then 0
                     else Search(aCache[..], nCacheBegin, nCacheEnd, Start(Ahead, lPreviousCacheStatus), Ahead)
      ensures LeavesFree(aCache[..], nCacheBegin, nCacheEnd) && InWindow(aCache[..], nCacheBegin, nCacheEnd, nPosCache) ==>
                var here := Offset(aCache.Length, nCacheBegin, nPosCache);
                FoundAhead(aCache[..], nCacheBegin, nCacheEnd, if lPreviousCacheStatus != 0 then here + 1 else here, pos)
      ensures !LeavesFree(aCache[..], nCacheBegin, nCacheEnd) && nPosCache != 0 ==>
                NearestRound(aCache[..], Ahead, nPosCache, lPreviousCacheStatus == 0, pos)
    {
      if nPosCache == 0 {
        return 0;
      }
      var lPosCache := nPosCache;
      if lPreviousCacheStatus != 0 {
        lPosCache := lPosCache + 1;
      }
      lPosCache := FixCachePointer(lPosCache);
      pos := ScanFWD(lPosCache);
      SearchFinds(aCache[..], nCacheBegin, nCacheEnd, nPosCache, Ahead, lPreviousCacheStatus == 0);
    }

    method ScanBWD(start: int) returns (pos: int)
      requires Valid() && On(aCache.Length, start)
      requires LeavesFree(aCache[..], nCacheBegin, nCacheEnd) || exists p :: Live(aCache[..], p)
      ensures pos == Search(aCache[..], nCacheBegin, nCacheEnd, start, Back)
    {
      var lPosCache := start;
      ghost var cells, j := aCache[..], 0;
      ghost var stop := SearchEnds(cells, nCacheBegin, nCacheEnd, start, Back);
      ghost var found := Search(cells, nCacheBegin, nCacheEnd, start, Back);
      while InRange(lPosCache, nCacheBegin, nCacheEnd)
        invariant 0 <= j <= stop && On(|cells|, lPosCache) && lPosCache == Go(|cells|, start, Back, j)
        invariant SearchOn(cells, nCacheBegin, nCacheEnd, start, Back, j) == found
        decreases stop - j
      {
        if aCache[lPosCache - 1] != Nil {
          return lPosCache;
        }
        SearchStep(cells, nCacheBegin, nCacheEnd, start, Back, j);
        lPosCache := FixCachePointer(lPosCache - 1);
        j := j + 1;
      }
      return 0;
    }

    method SearchCacheBWD(lPreviousCacheStatus: int) returns (pos: int)
      requires Valid()
      requires LeavesFree(aCache[..], nCacheBegin, nCacheEnd) || exists p :: Live(aCache[..], p)
      ensures pos == if nPosCache == 0 then 0
                     else Search(aCache[..], nCacheBegin, nCacheEnd, Start(Back, lPreviousCacheStatus), Back)
      ensures LeavesFree(aCache[..], nCacheBegin, nCacheEnd) && InWindow(aCache[..], nCacheBegin, nCacheEnd, nPosCache) ==>
                var here := Offset(aCache.Length, nCacheBegin, nPosCache);
                FoundBack(aCache[..], nCacheBegin, nCacheEnd, if lPreviousCacheStatus != 0 then here - 1 else here, pos)
      ensures !LeavesFree(aCache[..], nCacheBegin, nCacheEnd) && nPosCache != 0 ==>
                NearestRound(aCache[..], Back, nPosCache, lPreviousCacheStatus == 0, pos)
    {
      if nPosCache == 0 {
        return 0;
      }
      var lPosCache := nPosCache;
      if lPreviousCacheStatus != 0 {
        lPosCache := lPosCache - 1;
      }
      lPosCache := FixCachePointer(lPosCache);
      pos := ScanBWD(lPosCache);
      SearchFinds(aCache[..], nCacheBegin, nCacheEnd, nPosCache, Back, lPreviousCacheStatus == 0);
    }
  }

  // ---------------------------------------------------------------- what a search finds

  /** The slots of the window between two offsets, the second one included, are all NIL. */
  ghost predicate NilFrom(cells: seq<Slot>, begin: int, from: int, to: int)
  {
    forall p :: On(|cells|, p) && from <= Offset(|cells|, begin, p) <= to ==> !Live(cells, p)
  }

  ghost predicate InWindow(cells: seq<Slot>, begin: int, end: int, p: int)
  {
    On(|cells|, begin) && On(|cells|, end) && On(|cells|, p) && InRange(p, begin, end)
  }

  /** Offsets of the window run from 0 to that of its end. */
  lemma InWindowByOffset(cells: seq<Slot>, begin: int, end: int, p: int)
    requires Placed(cells, begin, end, p)
    ensures InRange(p, begin, end) <==> Offset(|cells|, begin, p) <= Offset(|cells|, begin, end)
  {
  }

  lemma GoAhead(cells: seq<Slot>, begin: int, end: int, start: int, j: nat)
    requires LeavesFree(cells, begin, end) && InWindow(cells, begin, end, start)
    requires j <= Offset(|cells|, begin, end) - Offset(|cells|, begin, start) + 1
    ensures var p := Go(|cells|, start, Ahead, j);
            && On(|cells|, p) && Offset(|cells|, begin, p) == Offset(|cells|, begin, start) + j
            && (InRange(p, begin, end) <==> j <= Offset(|cells|, begin, end) - Offset(|cells|, begin, start))
  {
  }

  lemma GoBack(cells: seq<Slot>, begin: int, end: int, start: int, j: nat)
    requires LeavesFree(cells, begin, end) && InWindow(cells, begin, end, start)
    requires j <= Offset(|cells|, begin, start) + 1
    ensures var p := Go(|cells|, start, Back, j);
            && On(|cells|, p) && (InRange(p, begin, end) <==> j <= Offset(|cells|, begin, start))
            && (InRange(p, begin, end) ==> Offset(|cells|, begin, p) == Offset(|cells|, begin, start) - j)
  {
  }

  lemma NilAt(cells: seq<Slot>, begin: int, p: int, r: int)
    requires On(|cells|, begin) && On(|cells|, p) && !Live(cells, p) && Offset(|cells|, begin, r) == Offset(|cells|, begin, p)
    ensures !Live(cells, r)
  {
    if On(|cells|, r) { SameOffset(|cells|, begin, p, r); }
  }

  /** The slots between two offsets are NIL when those at the first, or at the last, are, and the others. */
  lemma NilJoin(cells: seq<Slot>, begin: int, from: int, to: int, p: int)
    requires On(|cells|, begin) && On(|cells|, p) && !Live(cells, p)
    ensures Offset(|cells|, begin, p) == from && NilFrom(cells, begin, from + 1, to) ==> NilFrom(cells, begin, from, to)
    ensures Offset(|cells|, begin, p) == to && NilFrom(cells, begin, from, to - 1) ==> NilFrom(cells, begin, from, to)
  {
    forall r | Offset(|cells|, begin, r) == Offset(|cells|, begin, p) ensures !Live(cells, r) {
      NilAt(cells, begin, p, r);
    }
  }

  lemma SameOffset(n: nat, begin: int, p: int, q: int)
    requires On(n, begin) && On(n, p) && On(n, q) && Offset(n, begin, p) == Offset(n, begin, q)
    ensures p == q
  {
  }

  /** What is found ahead of the slot at offset `from`, that slot included. */
  ghost predicate FoundAhead(cells: seq<Slot>, begin: int, end: int, from: int, p: int)
  {
    if p == 0 then NilFrom(cells, begin, from, Offset(|cells|, begin, end))
    else InWindow(cells, begin, end, p) && Live(cells, p) && from <= Offset(|cells|, begin, p)
         && NilFrom(cells, begin, from, Offset(|cells|, begin, p) - 1)
  }

  ghost predicate FoundBack(cells: seq<Slot>, begin: int, end: int, from: int, p: int)
  {
    if p == 0 then NilFrom(cells, begin, 0, from)
    else InWindow(cells, begin, end, p) && Live(cells, p) && Offset(|cells|, begin, p) <= from
         && NilFrom(cells, begin, Offset(|cells|, begin, p) + 1, from)
  }

  lemma {:induction false} SearchAheadFinds(cells: seq<Slot>, begin: int, end: int, start: int, j: nat)
    requires LeavesFree(cells, begin, end) && InWindow(cells, begin, end, start)
    requires j <= Offset(|cells|, begin, end) - Offset(|cells|, begin, start) + 1
    ensures FoundAhead(cells, begin, end, Offset(|cells|, begin, start) + j, SearchOn(cells, begin, end, start, Ahead, j))
    decreases |cells| - j
  {
    hide Go, InRange, Live;
    var n := |cells|;
    var p := Go(n, start, Ahead, j);
    GoAhead(cells, begin, end, start, j);
    if InRange(p, begin, end) && !Live(cells, p) {
      SearchAheadFinds(cells, begin, end, start, j + 1);
      var q := SearchOn(cells, begin, end, start, Ahead, j + 1);
      NilJoin(cells, begin, Offset(n, begin, p), if q == 0 then Offset(n, begin, end) else Offset(n, begin, q) - 1, p);
    }
  }

  lemma {:induction false} SearchBackFinds(cells: seq<Slot>, begin: int, end: int, start: int, j: nat)
    requires LeavesFree(cells, begin, end) && InWindow(cells, begin, end, start)
    requires j <= Offset(|cells|, begin, start) + 1
    ensures FoundBack(cells, begin, end, Offset(|cells|, begin, start) - j, SearchOn(cells, begin, end, start, Back, j))
    decreases |cells| - j
  {
    hide Go, InRange, Live;
    var n := |cells|;
    var p := Go(n, start, Back, j);
    GoBack(cells, begin, end, start, j);
    if InRange(p, begin, end) && !Live(cells, p) {
      SearchBackFinds(cells, begin, end, start, j + 1);
      var q := SearchOn(cells, begin, end, start, Back, j + 1);
      NilJoin(cells, begin, if q == 0 then 0 else Offset(n, begin, q) + 1, Offset(n, begin, p), p);
    }
  }

  // ---------------------------------------------------------------- walking the window

  /** The next record, and the one before: the search that leaves the current slot first. */
  function Next(cells: seq<Slot>, begin: int, end: int, p: int): int
  {
    Search(cells, begin, end, Go(|cells|, p, Ahead, 1), Ahead)
  }

  function Previous(cells: seq<Slot>, begin: int, end: int, p: int): int
  {
    Search(cells, begin, end, Go(|cells|, p, Back, 1), Back)
  }

  /** The next live slot of the window, or 0 when all slots after `p` are NIL. */
  lemma NextIsNearest(cells: seq<Slot>, begin: int, end: int, p: int)
    requires LeavesFree(cells, begin, end) && InWindow(cells, begin, end, p)
    ensures FoundAhead(cells, begin, end, Offset(|cells|, begin, p) + 1, Next(cells, begin, end, p))
  {
    var s := Go(|cells|, p, Ahead, 1);
    InWindowByOffset(cells, begin, end, p);
    InWindowByOffset(cells, begin, end, s);
    if p != end {
      assert Offset(|cells|, begin, s) == Offset(|cells|, begin, p) + 1;
      SearchAheadFinds(cells, begin, end, s, 0);
    }
  }

  lemma PreviousIsNearest(cells: seq<Slot>, begin: int, end: int, p: int)
    requires LeavesFree(cells, begin, end) && InWindow(cells, begin, end, p)
    ensures FoundBack(cells, begin, end, Offset(|cells|, begin, p) - 1, Previous(cells, begin, end, p))
  {
    var s := Go(|cells|, p, Back, 1);
    InWindowByOffset(cells, begin, end, p);
    InWindowByOffset(cells, begin, end, s);
    if p != begin {
      assert Offset(|cells|, begin, s) == Offset(|cells|, begin, p) - 1;
      SearchBackFinds(cells, begin, end, s, 0);
    }
  }

  /** How many steps from `p` a search that way comes to `r`; a whole turn to `p` itself, unless it begins with it. */
  function StepsTo(n: nat, w: Way, p: int, own: bool, r: int): int
  {
    if r == p && !own then n else if w == Ahead then Offset(n, p, r) else Offset(n, r, p)
  }

  /** Among the live slots of a full ring, the first one on the way from `p`. */
  ghost predicate NearestRound(cells: seq<Slot>, w: Way, p: int, own: bool, pos: int)
  {
    && Live(cells, pos)
    && forall r :: Live(cells, r) ==> StepsTo(|cells|, w, p, own, pos) <= StepsTo(|cells|, w, p, own, r)
  }

  lemma SearchHere(cells: seq<Slot>, begin: int, end: int, p: int, w: Way)
    requires LeavesFree(cells, begin, end) && InWindow(cells, begin, end, p)
    ensures w == Ahead ==> FoundAhead(cells, begin, end, Offset(|cells|, begin, p), Search(cells, begin, end, p, Ahead))
    ensures w == Back ==> FoundBack(cells, begin, end, Offset(|cells|, begin, p), Search(cells, begin, end, p, Back))
  {
    InWindowByOffset(cells, begin, end, p);
    if w == Ahead { SearchAheadFinds(cells, begin, end, p, 0); } else { SearchBackFinds(cells, begin, end, p, 0); }
  }

  /** What a search finds: the nearest live slot on its way, the current slot included when `own` says so. */
  lemma SearchFinds(cells: seq<Slot>, begin: int, end: int, p: int, w: Way, own: bool)
    requires Placed(cells, begin, end, p) && (LeavesFree(cells, begin, end) || exists r :: Live(cells, r))
    ensures var pos := Search(cells, begin, end, if own then p else Go(|cells|, p, w, 1), w);
            var here := Offset(|cells|, begin, p);
            if !LeavesFree(cells, begin, end) then NearestRound(cells, w, p, own, pos)
            else InWindow(cells, begin, end, p) ==>
                   if w == Ahead then FoundAhead(cells, begin, end, if own then here else here + 1, pos)
                   else FoundBack(cells, begin, end, if own then here else here - 1, pos)
  {
    if !LeavesFree(cells, begin, end) {
      FullSearch(cells, begin, end, p, w, own);
    } else if InWindow(cells, begin, end, p) {
      if own { SearchHere(cells, begin, end, p, w); }
      else if w == Ahead { NextIsNearest(cells, begin, end, p); }
      else { PreviousIsNearest(cells, begin, end, p); }
    }
  }

  /** In a full ring a search stops at the first live slot. */
  lemma {:induction false} FullSearchFrom(cells: seq<Slot>, begin: int, end: int, start: int, w: Way, j: nat, k: nat)
    requires Placed(cells, begin, end, start) && !LeavesFree(cells, begin, end) && j <= k < |cells|
    requires Live(cells, Go(|cells|, start, w, k)) && forall i :: j <= i < k ==> !Live(cells, Go(|cells|, start, w, i))
    ensures SearchOn(cells, begin, end, start, w, j) == Go(|cells|, start, w, k)
    decreases k - j
  {
    FullRange(cells, begin, end, Go(|cells|, start, w, j));
    if j < k { FullSearchFrom(cells, begin, end, start, w, j + 1, k); }
  }

  lemma FirstLive(cells: seq<Slot>, start: int, w: Way, r: int) returns (k: nat)
    requires On(|cells|, start) && Live(cells, r)
    ensures k < |cells| && Live(cells, Go(|cells|, start, w, k))
    ensures forall i :: 0 <= i < k ==> !Live(cells, Go(|cells|, start, w, i))
  {
    ghost var last := if w == Ahead then Offset(|cells|, start, r) else Offset(|cells|, r, start);
    assert Go(|cells|, start, w, last) == r;
    k := 0;
    while !Live(cells, Go(|cells|, start, w, k))
      invariant k <= last < |cells| && forall i :: 0 <= i < k ==> !Live(cells, Go(|cells|, start, w, i))
      decreases last - k
    {
      k := k + 1;
    }
  }

  /** Steps from the slot after `p` are steps from `p` less one. */
  lemma StepsFrom(n: nat, w: Way, p: int, own: bool, k: nat)
    requires On(n, p) && k < n
    ensures var r := Go(n, if own then p else Go(n, p, w, 1), w, k);
            On(n, r) && StepsTo(n, w, p, own, r) == if own then k else k + 1
  {
  }

  lemma StepsBack(n: nat, w: Way, p: int, own: bool, r: int)
    requires On(n, p) && On(n, r)
    ensures var k := StepsTo(n, w, p, own, r) - if own then 0 else 1;
            0 <= k < n && Go(n, if own then p else Go(n, p, w, 1), w, k) == r
  {
  }

  lemma FullSearch(cells: seq<Slot>, begin: int, end: int, p: int, w: Way, own: bool)
    requires Placed(cells, begin, end, p) && !LeavesFree(cells, begin, end) && exists r :: Live(cells, r)
    ensures NearestRound(cells, w, p, own, Search(cells, begin, end, if own then p else Go(|cells|, p, w, 1), w))
  {
    hide StepsTo, InRange;
    var n, s := |cells|, if own then p else Go(|cells|, p, w, 1);
    var live :| Live(cells, live);
    var k := FirstLive(cells, s, w, live);
    FullSearchFrom(cells, begin, end, s, w, 0, k);
    StepsFrom(n, w, p, own, k);
    forall r | Live(cells, r) ensures StepsTo(n, w, p, own, Go(n, s, w, k)) <= StepsTo(n, w, p, own, r) {
      StepsBack(n, w, p, own, r);
    }
  }

  /** The walk is reversible, for every pattern of holes and every place of the window on the ring. */
  lemma WalkIsReversible(cells: seq<Slot>, begin: int, end: int, p: int, q: int)
    requires LeavesFree(cells, begin, end) && InWindow(cells, begin, end, p) && InWindow(cells, begin, end, q)
    requires Live(cells, p) && Live(cells, q)
    ensures Next(cells, begin, end, p) == q <==> Previous(cells, begin, end, q) == p
  {
    var n := |cells|;
    NextIsNearest(cells, begin, end, p);
    PreviousIsNearest(cells, begin, end, q);
    if Next(cells, begin, end, p) == q && Previous(cells, begin, end, q) != p {
      assert !NilFrom(cells, begin, 0, Offset(n, begin, q) - 1);
      var r := Previous(cells, begin, end, q);
      if Offset(n, begin, r) == Offset(n, begin, p) { SameOffset(n, begin, p, r); }
      assert false;
    }
    if Previous(cells, begin, end, q) == p && Next(cells, begin, end, p) != q {
      assert !NilFrom(cells, begin, Offset(n, begin, p) + 1, Offset(n, begin, end));
      var r := Next(cells, begin, end, p);
      if Offset(n, begin, r) == Offset(n, begin, q) { SameOffset(n, begin, q, r); }
      assert false;
    }
  }

  /** Searching forward again and again. */
  function Walk(cells: seq<Slot>, begin: int, end: int, p: int): (visited: seq<int>)
    requires LeavesFree(cells, begin, end) && InWindow(cells, begin, end, p)
    decreases |cells| - Offset(|cells|, begin, p)
  {
    NextIsNearest(cells, begin, end, p);
    var q := Next(cells, begin, end, p);
    if q == 0 then [] else [q] + Walk(cells, begin, end, q)
  }

  lemma NotBetween(cells: seq<Slot>, begin: int, end: int, p: int, q: int, r: int)
    requires InWindow(cells, begin, end, q) && InWindow(cells, begin, end, r) && Live(cells, r)
    requires NilFrom(cells, begin, Offset(|cells|, begin, p) + 1, Offset(|cells|, begin, q) - 1)
    requires Offset(|cells|, begin, p) < Offset(|cells|, begin, r)
    ensures r == q || Offset(|cells|, begin, q) < Offset(|cells|, begin, r)
  {
    if Offset(|cells|, begin, r) == Offset(|cells|, begin, q) { SameOffset(|cells|, begin, r, q); }
  }

  lemma NoneAfter(cells: seq<Slot>, begin: int, end: int, p: int, r: int)
    requires InWindow(cells, begin, end, r) && Live(cells, r)
    requires NilFrom(cells, begin, Offset(|cells|, begin, p) + 1, Offset(|cells|, begin, end))
    ensures Offset(|cells|, begin, r) <= Offset(|cells|, begin, p)
  {
    InWindowByOffset(cells, begin, end, r);
  }

  /** Live slots of the window after `p`, in ring order, so that none comes twice. */
  ghost predicate WalksOn(cells: seq<Slot>, begin: int, end: int, p: int, w: seq<int>)
  {
    && (forall i :: 0 <= i < |w| ==> InWindow(cells, begin, end, w[i]) && Live(cells, w[i]))
    && (forall i :: 0 <= i < |w| ==> Offset(|cells|, begin, p) < Offset(|cells|, begin, w[i]))
    && (forall i, j :: 0 <= i < j < |w| ==> Offset(|cells|, begin, w[i]) < Offset(|cells|, begin, w[j]))
  }

  lemma WalksFurther(cells: seq<Slot>, begin: int, end: int, p: int, q: int, rest: seq<int>)
    requires WalksOn(cells, begin, end, q, rest) && InWindow(cells, begin, end, q) && Live(cells, q)
    requires Offset(|cells|, begin, p) < Offset(|cells|, begin, q)
    ensures WalksOn(cells, begin, end, p, [q] + rest)
  {
    hide InWindow, Live, Offset;
    var w := [q] + rest;
    forall i | 0 <= i < |w| ensures w[i] == if i == 0 then q else rest[i - 1] {
    }
  }

  /** The walk enumerates the rest of the window: its slots are live and in ring order, and every later live slot of the
      window is among them. */
  lemma {:induction false} WalkEnumerates(cells: seq<Slot>, begin: int, end: int, p: int)
    requires LeavesFree(cells, begin, end) && InWindow(cells, begin, end, p)
    ensures WalksOn(cells, begin, end, p, Walk(cells, begin, end, p))
    ensures forall r :: InWindow(cells, begin, end, r) && Live(cells, r) && Offset(|cells|, begin, p) < Offset(|cells|, begin, r)
              ==> r in Walk(cells, begin, end, p)
    decreases |cells| - Offset(|cells|, begin, p)
  {
    hide Live;
    var n := |cells|;
    NextIsNearest(cells, begin, end, p);
    var q := Next(cells, begin, end, p);
    if q != 0 {
      WalkEnumerates(cells, begin, end, q);
      var w, rest := Walk(cells, begin, end, p), Walk(cells, begin, end, q);
      assert w == [q] + rest;
      WalksFurther(cells, begin, end, p, q, rest);
      forall r | InWindow(cells, begin, end, r) && Live(cells, r) && Offset(n, begin, p) < Offset(n, begin, r)
        ensures r in w
      {
        NotBetween(cells, begin, end, p, q, r);
        if r != q { assert r in rest; }
      }
    } else {
      forall r | InWindow(cells, begin, end, r) && Live(cells, r)
        ensures Offset(n, begin, r) <= Offset(n, begin, p)
      {
        NoneAfter(cells, begin, end, p, r);
      }
    }
  }

  lemma {:induction false} FullWindowFinds(cells: seq<Slot>, begin: int, end: int, start: int, w: Way, j: nat, k: nat)
    requires Placed(cells, begin, end, start) && !LeavesFree(cells, begin, end)
    requires j <= k <= |cells| && Live(cells, Go(|cells|, start, w, k))
    ensures Live(cells, SearchOn(cells, begin, end, start, w, j))
    decreases k - j
  {
    var p := Go(|cells|, start, w, j);
    FullRange(cells, begin, end, p);
    if !Live(cells, p) { FullWindowFinds(cells, begin, end, start, w, j + 1, k); }
  }

  /** After the last live slot of the window a search finds nothing, as it should, exactly when the window leaves a slot
      of the ring free; in a full ring it goes round and comes back to an earlier record, or to its own. */
  lemma WalkEndsExactly(cells: seq<Slot>, begin: int, end: int, p: int)
    requires InWindow(cells, begin, end, p) && Live(cells, p)
    requires NilFrom(cells, begin, Offset(|cells|, begin, p) + 1, Offset(|cells|, begin, end))
    ensures Next(cells, begin, end, p) == 0 <==> LeavesFree(cells, begin, end)
    ensures !LeavesFree(cells, begin, end) ==>
              && Live(cells, Next(cells, begin, end, p))
              && Offset(|cells|, begin, Next(cells, begin, end, p)) <= Offset(|cells|, begin, p)
  {
    var n := |cells|;
    if LeavesFree(cells, begin, end) {
      NextIsNearest(cells, begin, end, p);
      var q := Next(cells, begin, end, p);
      if q != 0 { InWindowByOffset(cells, begin, end, q); }
    } else {
      var s := Go(n, p, Ahead, 1);
      assert Go(n, s, Ahead, n - 1) == p;
      FullWindowFinds(cells, begin, end, s, Ahead, 0, n - 1);
    }
  }
}
