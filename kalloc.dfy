/** The per-CPU physical page allocator of kernel/kalloc.c.  Each CPU owns a LIFO free
    list of page addresses; a page is freed onto the calling CPU's list and allocated from
    it, or stolen from the other CPUs' lists in round-robin order.  The intrusive
    `struct run` lists are modelled as sequences of page addresses, head first. */
module PageAllocator {
  import opened Wrappers

  const PGSIZE: nat := 4096
  const NPROC: nat := 64
  const KERNBASE: nat := 0x8000_0000
  const PHYSTOP: nat := KERNBASE + 128 * 1024 * 1024

  type FreeLists = seq<seq<nat>>

  /** PGROUNDUP: the least multiple of PGSIZE not below a. */
  function PgRoundUp(a: nat): (r: nat)
    ensures r % PGSIZE == 0 && a <= r < a + PGSIZE
  {
    (a + PGSIZE - 1) / PGSIZE * PGSIZE
  }

  /** The addresses kfree accepts (kalloc.c:56-57); `end` is the first address after the kernel. */
  predicate ValidPage(end: nat, pa: nat)
  {
    pa % PGSIZE == 0 && end <= pa && pa < PHYSTOP
  }

  predicate AllValid(end: nat, fl: FreeLists)
  {
    forall c, k :: 0 <= c < |fl| && 0 <= k < |fl[c]| ==> ValidPage(end, fl[c][k])
  }

  /** All free pages, list by list. */
  function Flatten(fl: FreeLists): seq<nat>
  {
    if fl == [] then [] else fl[0] + Flatten(fl[1..])
  }

  predicate NoDups(s: seq<nat>)
  {
    forall p, q :: 0 <= p < q < |s| ==> s[p] != s[q]
  }

  function Rev(s: seq<nat>): (r: seq<nat>)
    ensures |r| == |s| && forall k :: 0 <= k < |s| ==> r[k] == s[|s| - 1 - k]
  {
    if s == [] then [] else Rev(s[1..]) + [s[0]]
  }

  // ---------------------------------------------------------------------------------------
  // kfree and freerange

  /** kfree's effect on the lists (kalloc.c:62-71): the page becomes the head of list cid. */
  function Push(fl: FreeLists, cid: nat, pa: nat): (r: FreeLists)
    requires cid < |fl|
    ensures |r| == |fl| && r[cid] == [pa] + fl[cid]
    ensures forall c :: 0 <= c < |fl| && c != cid ==> r[c] == fl[c]
  {
    fl[cid := [pa] + fl[cid]]
  }

  /** The pages freerange visits: p, p + PGSIZE, ... while p + PGSIZE <= hi. */
  function PagesFrom(p: nat, hi: nat): seq<nat>
    decreases hi - p
  {
    if p + PGSIZE <= hi then [p] + PagesFrom(p + PGSIZE, hi) else []
  }

  /** The pages freerange(lo, hi) frees (kalloc.c:42-44). */
  function Pages(lo: nat, hi: nat): seq<nat>
  {
    PagesFrom(PgRoundUp(lo), hi)
  }

  /** The number of leading pages of ps that kfree accepts before the first panic. */
  function ValidPrefixLen(end: nat, ps: seq<nat>): (n: nat)
    ensures n <= |ps|
    ensures forall k :: 0 <= k < n ==> ValidPage(end, ps[k])
    ensures n < |ps| ==> !ValidPage(end, ps[n])
  {
    if ps == [] || !ValidPage(end, ps[0]) then 0 else 1 + ValidPrefixLen(end, ps[1..])
  }

  lemma ValidPrefixLenIs(end: nat, ps: seq<nat>, n: nat)
    requires n <= |ps| && forall k :: 0 <= k < n ==> ValidPage(end, ps[k])
    requires n < |ps| ==> !ValidPage(end, ps[n])
    ensures ValidPrefixLen(end, ps) == n
  {
  }

  lemma RevSnoc(s: seq<nat>, x: nat, l: seq<nat>)
    ensures Rev(s + [x]) + l == [x] + (Rev(s) + l)
  {
    assert Rev(s + [x]) == [x] + Rev(s);
  }

  lemma {:induction false} PagesFromMembers(p: nat, hi: nat, x: nat)
    requires p % PGSIZE == 0
    ensures x in PagesFrom(p, hi) <==> x % PGSIZE == 0 && p <= x && x + PGSIZE <= hi
    decreases hi - p
  {
    if p + PGSIZE <= hi {
      PagesFromMembers(p + PGSIZE, hi, x);
      if x % PGSIZE == 0 && p <= x && x != p {
        assert p + PGSIZE <= x by {
          assert (x - p) % PGSIZE == 0;
        }
      }
    } else if x % PGSIZE == 0 && p <= x {
      assert x + PGSIZE > hi;
    }
  }

  lemma {:induction false} PagesFromAscending(p: nat, hi: nat)
    ensures forall a, b :: 0 <= a < b < |PagesFrom(p, hi)| ==> PagesFrom(p, hi)[a] < PagesFrom(p, hi)[b]
    ensures forall a :: 0 <= a < |PagesFrom(p, hi)| ==> p <= PagesFrom(p, hi)[a]
    decreases hi - p
  {
    if p + PGSIZE <= hi {
      PagesFromAscending(p + PGSIZE, hi);
      var s := PagesFrom(p, hi);
      forall a, b | 0 <= a < b < |s| ensures s[a] < s[b] {
        if a > 0 {
          assert s[a] == PagesFrom(p + PGSIZE, hi)[a - 1];
        }
        assert s[b] == PagesFrom(p + PGSIZE, hi)[b - 1];
      }
    }
  }

  /** freerange frees exactly the whole pages between PGROUNDUP(lo) and hi, in ascending
      order (kalloc.c:42-44). */
  lemma PagesExactly(lo: nat, hi: nat)
    ensures forall x :: x in Pages(lo, hi) <==> x % PGSIZE == 0 && PgRoundUp(lo) <= x && x + PGSIZE <= hi
    ensures forall a, b :: 0 <= a < b < |Pages(lo, hi)| ==> Pages(lo, hi)[a] < Pages(lo, hi)[b]
  {
    forall x: nat ensures x in Pages(lo, hi) <==> x % PGSIZE == 0 && PgRoundUp(lo) <= x && x + PGSIZE <= hi {
      PagesFromMembers(PgRoundUp(lo), hi, x);
    }
    PagesFromAscending(PgRoundUp(lo), hi);
  }

  // ---------------------------------------------------------------------------------------
  // kalloc

  /** The `k`-th CPU the steal loop visits for caller cid: cid+1, cid+2, ... mod NPROC. */
  function Victim(cid: nat, k: nat): nat
  {
    (cid + 1 + k) % NPROC
  }

  /** The cyclic distance from cid forward to c. */
  function Dist(cid: nat, c: nat): nat
    requires cid < NPROC && c < NPROC
  {
    if cid <= c then c - cid else c + NPROC - cid
  }

  lemma VictimDist(cid: nat, k: nat)
    requires cid < NPROC && k < NPROC
    ensures Victim(cid, k) < NPROC
    ensures k < NPROC - 1 ==> Victim(cid, k) != cid && Dist(cid, Victim(cid, k)) == k + 1
    ensures k == NPROC - 1 ==> Victim(cid, k) == cid
  {
    if cid + 1 + k >= NPROC {
      assert Victim(cid, k) == cid + 1 + k - NPROC;
    }
  }

  lemma VictimNext(cid: nat, k: nat)
    ensures (Victim(cid, k) + 1) % NPROC == Victim(cid, k + 1)
  {
    var q := (cid + 1 + k) / NPROC;
    assert cid + 1 + k == q * NPROC + Victim(cid, k);
    if Victim(cid, k) + 1 == NPROC {
      assert cid + 2 + k == (q + 1) * NPROC;
    } else {
      assert cid + 2 + k == q * NPROC + Victim(cid, k) + 1;
    }
  }

  /** The steal loop (kalloc.c:103-112) from its k-th step on: the step that finds a
      non-empty list, if any. */
  function Steal(fl: FreeLists, cid: nat, k: nat): (r: Option<nat>)
    requires |fl| == NPROC && cid < NPROC && k <= NPROC - 1
    decreases NPROC - 1 - k
    ensures r.Some? ==> k <= r.value < NPROC - 1 && fl[Victim(cid, r.value)] != []
    ensures forall m :: k <= m < NPROC - 1 && (r.None? || m < r.value) ==> fl[Victim(cid, m)] == []
  {
    if k == NPROC - 1 then None
    else if fl[Victim(cid, k)] != [] then Some(k)
    else Steal(fl, cid, k + 1)
  }

  /** kalloc for CPU cid (kalloc.c:78-118): the new lists and the page, 0 when there is none. */
  function Alloc(fl: FreeLists, cid: nat): (FreeLists, nat)
    requires |fl| == NPROC && cid < NPROC
  {
    if fl[cid] != [] then (fl[cid := fl[cid][1..]], fl[cid][0])
    else match Steal(fl, cid, 0)
      case None => (fl, 0)
      case Some(k) =>
        var v := Victim(cid, k);
        (fl[v := fl[v][1..]], fl[v][0])
  }

  /** One step of the steal loop at its k-th victim, for a caller whose own list is empty: the
      loop ends at the caller itself, takes the victim's head when there is one, and
      otherwise moves on to the next CPU. */
  lemma StealScan(fl: FreeLists, cid: nat, k: nat)
    requires |fl| == NPROC && cid < NPROC && fl[cid] == [] && k < NPROC
    requires Steal(fl, cid, k) == Steal(fl, cid, 0)
    ensures Victim(cid, k) < NPROC && (Victim(cid, k) == cid <==> k == NPROC - 1)
    ensures k == NPROC - 1 ==> Alloc(fl, cid) == (fl, 0)
    ensures k < NPROC - 1 && fl[Victim(cid, k)] != [] ==>
              Alloc(fl, cid) == (fl[Victim(cid, k) := fl[Victim(cid, k)][1..]], fl[Victim(cid, k)][0])
    ensures k < NPROC - 1 && fl[Victim(cid, k)] == [] ==>
              Steal(fl, cid, k + 1) == Steal(fl, cid, 0) && (Victim(cid, k) + 1) % NPROC == Victim(cid, k + 1)
  {
    VictimDist(cid, k);
    VictimNext(cid, k);
  }

  /** The allocation takes the head of the caller's own list when that is not empty, and
      otherwise the head of the non-empty list nearest after cid in cyclic order; it
      returns 0 and changes nothing when every list is empty. */
  lemma AllocChoice(fl: FreeLists, cid: nat)
    requires |fl| == NPROC && cid < NPROC
    ensures (forall c :: 0 <= c < NPROC ==> fl[c] == []) ==> Alloc(fl, cid) == (fl, 0)
    ensures (exists c :: 0 <= c < NPROC && fl[c] != []) ==>
              exists c :: 0 <= c < NPROC && fl[c] != [] && Alloc(fl, cid) == (fl[c := fl[c][1..]], fl[c][0])
                && forall c' :: 0 <= c' < NPROC && Dist(cid, c') < Dist(cid, c) ==> fl[c'] == []
  {
    if fl[cid] == [] {
      match Steal(fl, cid, 0)
      case None =>
        forall c | 0 <= c < NPROC ensures fl[c] == [] {
          if c != cid {
            VictimDist(cid, Dist(cid, c) - 1);
          }
        }
      case Some(k) =>
        var v := Victim(cid, k);
        VictimDist(cid, k);
        forall c' | 0 <= c' < NPROC && Dist(cid, c') < Dist(cid, v) ensures fl[c'] == [] {
          if c' != cid {
            VictimDist(cid, Dist(cid, c') - 1);
          }
        }
    }
  }

  lemma {:induction false} FlattenPush(fl: FreeLists, i: nat, x: nat)
    requires i < |fl|
    ensures multiset(Flatten(fl[i := [x] + fl[i]])) == multiset(Flatten(fl)) + multiset{x}
  {
    var fl' := fl[i := [x] + fl[i]];
    assert Flatten(fl) == fl[0] + Flatten(fl[1..]);
    assert Flatten(fl') == fl'[0] + Flatten(fl'[1..]);
    if i > 0 {
      assert fl'[1..] == fl[1..][i - 1 := [x] + fl[1..][i - 1]];
      FlattenPush(fl[1..], i - 1, x);
    } else {
      assert fl'[1..] == fl[1..];
    }
  }

  /** Taking the head off list i removes exactly that page from the free pages. */
  lemma FlattenPop(fl: FreeLists, i: nat)
    requires i < |fl| && fl[i] != []
    ensures multiset(Flatten(fl[i := fl[i][1..]])) + multiset{fl[i][0]} == multiset(Flatten(fl))
  {
    var fl' := fl[i := fl[i][1..]];
    assert fl[i] == [fl[i][0]] + fl[i][1..];
    assert fl'[i := [fl[i][0]] + fl'[i]] == fl;
    FlattenPush(fl', i, fl[i][0]);
  }

  lemma {:induction false} FlattenMembers(fl: FreeLists, x: nat)
    ensures x in Flatten(fl) <==> exists c :: 0 <= c < |fl| && x in fl[c]
  {
    if fl != [] {
      FlattenMembers(fl[1..], x);
      if x in Flatten(fl[1..]) {
        var c :| 0 <= c < |fl[1..]| && x in fl[1..][c];
        assert x in fl[c + 1];
      }
      if exists c :: 0 <= c < |fl| && x in fl[c] {
        var c :| 0 <= c < |fl| && x in fl[c];
        if c > 0 {
          assert x in fl[1..][c - 1];
        }
      }
    }
  }

  /** Freeing conserves pages: the new free pages are the old ones plus pa. */
  lemma PushConserves(fl: FreeLists, cid: nat, pa: nat)
    requires cid < |fl|
    ensures multiset(Flatten(Push(fl, cid, pa))) == multiset(Flatten(fl)) + multiset{pa}
  {
    FlattenPush(fl, cid, pa);
  }

  /** An allocation removes exactly the returned page from the free pages, so their number
      drops by one; with every list empty it returns 0 and changes nothing. */
  lemma AllocConserves(fl: FreeLists, cid: nat)
    requires |fl| == NPROC && cid < NPROC
    ensures (forall c :: 0 <= c < NPROC ==> fl[c] == []) ==> Alloc(fl, cid) == (fl, 0)
    ensures (exists c :: 0 <= c < NPROC && fl[c] != []) ==>
              && multiset(Flatten(Alloc(fl, cid).0)) + multiset{Alloc(fl, cid).1} == multiset(Flatten(fl))
              && |Flatten(Alloc(fl, cid).0)| + 1 == |Flatten(fl)|
  {
    AllocChoice(fl, cid);
    if exists c :: 0 <= c < NPROC && fl[c] != [] {
      var (fl', pa) := Alloc(fl, cid);
      var c :| 0 <= c < NPROC && fl[c] != [] && fl' == fl[c := fl[c][1..]] && pa == fl[c][0];
      FlattenPop(fl, c);
      assert |multiset(Flatten(fl'))| + 1 == |multiset(Flatten(fl))|;
    }
  }

  /** kalloc returns 0 exactly when no list has a page: 0 is never a valid page. */
  lemma AllocZero(end: nat, fl: FreeLists, cid: nat)
    requires |fl| == NPROC && cid < NPROC && AllValid(end, fl) && KERNBASE <= end
    ensures Alloc(fl, cid).1 == 0 <==> forall c :: 0 <= c < NPROC ==> fl[c] == []
  {
    AllocChoice(fl, cid);
  }

  /** Allocation keeps the free pages valid; with no page freed twice, the returned page is
      on no list afterwards and the pages stay distinct. */
  lemma AllocKeeps(end: nat, fl: FreeLists, cid: nat)
    requires |fl| == NPROC && cid < NPROC && AllValid(end, fl)
    ensures AllValid(end, Alloc(fl, cid).0)
    ensures NoDups(Flatten(fl)) && (exists c :: 0 <= c < NPROC && fl[c] != []) ==>
              NoDups(Flatten(Alloc(fl, cid).0))
              && forall c :: 0 <= c < NPROC ==> Alloc(fl, cid).1 !in Alloc(fl, cid).0[c]
  {
    AllocChoice(fl, cid);
    if exists c :: 0 <= c < NPROC && fl[c] != [] {
      var c :| 0 <= c < NPROC && fl[c] != [] && Alloc(fl, cid) == (fl[c := fl[c][1..]], fl[c][0]);
      PopValid(end, fl, c);
      if NoDups(Flatten(fl)) {
        PopDistinct(fl, c);
        FlattenMembers(fl[c := fl[c][1..]], fl[c][0]);
      }
    }
  }

  /** Taking the head off list c keeps the remaining pages valid. */
  lemma PopValid(end: nat, fl: FreeLists, c: nat)
    requires c < |fl| && fl[c] != [] && AllValid(end, fl)
    ensures AllValid(end, fl[c := fl[c][1..]])
  {
    var fl' := fl[c := fl[c][1..]];
    forall d, k | 0 <= d < |fl'| && 0 <= k < |fl'[d]| ensures ValidPage(end, fl'[d][k]) {
      if d == c {
        assert fl'[d][k] == fl[c][k + 1];
      }
    }
  }

  /** With no page free twice, taking the head off list c leaves the pages distinct and that
      page on no list. */
  lemma PopDistinct(fl: FreeLists, c: nat)
    requires c < |fl| && fl[c] != [] && NoDups(Flatten(fl))
    ensures NoDups(Flatten(fl[c := fl[c][1..]]))
    ensures fl[c][0] !in Flatten(fl[c := fl[c][1..]])
  {
    var fl' := fl[c := fl[c][1..]];
    var pa := fl[c][0];
    FlattenPop(fl, c);
    forall x ensures multiset(Flatten(fl'))[x] <= 1 {
      NoDupsCount(Flatten(fl), x);
    }
    NoDupsCount(Flatten(fl), pa);
    NoDupsFromCount(Flatten(fl'));
  }

  lemma {:induction false} NoDupsCount(s: seq<nat>, x: nat)
    requires NoDups(s)
    ensures multiset(s)[x] <= 1
  {
    if s != [] {
      assert s == [s[0]] + s[1..];
      NoDupsCount(s[1..], x);
      if s[0] == x {
        assert x !in s[1..];
      }
    }
  }

  lemma {:induction false} NoDupsFromCount(s: seq<nat>)
    requires forall x :: multiset(s)[x] <= 1
    ensures NoDups(s)
  {
    forall p, q | 0 <= p < q < |s| ensures s[p] != s[q] {
      RepeatCount(s, p, q);
    }
  }

  lemma RepeatCount(s: seq<nat>, p: nat, q: nat)
    requires p < q < |s|
    ensures s[p] == s[q] ==> multiset(s)[s[p]] >= 2
  {
    assert s == s[..p] + [s[p]] + s[p + 1..q] + [s[q]] + s[q + 1..];
  }

  /** Freeing a valid page not already free keeps the free pages valid and distinct. */
  lemma PushKeeps(end: nat, fl: FreeLists, cid: nat, pa: nat)
    requires cid < |fl| && AllValid(end, fl) && ValidPage(end, pa)
    ensures AllValid(end, Push(fl, cid, pa))
    ensures NoDups(Flatten(fl)) && pa !in Flatten(fl) ==> NoDups(Flatten(Push(fl, cid, pa)))
  {
    var fl' := Push(fl, cid, pa);
    forall c, k | 0 <= c < |fl'| && 0 <= k < |fl'[c]| ensures ValidPage(end, fl'[c][k]) {
      if c == cid && k > 0 {
        assert fl'[c][k] == fl[c][k - 1];
      }
    }
    if NoDups(Flatten(fl)) && pa !in Flatten(fl) {
      PushConserves(fl, cid, pa);
      forall x ensures multiset(Flatten(fl'))[x] <= 1 {
        NoDupsCount(Flatten(fl), x);
      }
      NoDupsFromCount(Flatten(fl'));
    }
  }

  // ---------------------------------------------------------------------------------------
  // kinit

  /** The size of the chunk kinit hands to freerange in each round (kalloc.c:33). */
  function ChunkSize(end: nat): nat
    requires end <= PHYSTOP
  {
    (PHYSTOP - end) / NPROC
  }

  /** The start of kinit's i-th chunk, `end + i * memchunk` (kalloc.c:34); chunk i ends
      where chunk i + 1 starts. */
  function ChunkLo(end: nat, i: nat): nat
    requires end <= PHYSTOP
  {
    if i == 0 then end else ChunkLo(end, i - 1) + ChunkSize(end)
  }

  /** The caller's list after the first n rounds of kinit: every round frees its chunk onto
      the same list, the calling CPU's, in ascending order. */
  function KinitList(end: nat, n: nat): seq<nat>
    requires end <= PHYSTOP
  {
    if n == 0 then []
    else Rev(Pages(ChunkLo(end, n - 1), ChunkLo(end, n))) + KinitList(end, n - 1)
  }

  lemma {:induction false} ChunkLoIs(end: nat, i: nat)
    requires end <= PHYSTOP
    ensures ChunkLo(end, i) == end + i * ChunkSize(end)
  {
    if i > 0 {
      ChunkLoIs(end, i - 1);
      assert (i - 1) * ChunkSize(end) + ChunkSize(end) == i * ChunkSize(end);
    }
  }

  lemma {:induction false} ChunkLoMono(end: nat, m: nat, n: nat)
    requires end <= PHYSTOP && m <= n
    ensures ChunkLo(end, m) <= ChunkLo(end, n)
    decreases n
  {
    if m < n {
      ChunkLoMono(end, m, n - 1);
    }
  }

  /** The chunks of the NPROC rounds lie between end and PHYSTOP. */
  lemma ChunkBounds(end: nat, n: nat)
    requires end <= PHYSTOP && n <= NPROC
    ensures end <= ChunkLo(end, n) <= PHYSTOP
  {
    var d := PHYSTOP - end;
    assert d == NPROC * (d / NPROC) + d % NPROC;
    ChunkLoIs(end, NPROC);
    ChunkLoMono(end, 0, n);
    ChunkLoMono(end, n, NPROC);
  }

  /** The pages freed in [lo, hi) lie in that range and are accepted by kfree. */
  lemma PagesValid(end: nat, lo: nat, hi: nat)
    requires end <= lo && hi <= PHYSTOP
    ensures forall k :: 0 <= k < |Pages(lo, hi)| ==>
              ValidPage(end, Pages(lo, hi)[k]) && lo <= Pages(lo, hi)[k] && Pages(lo, hi)[k] + PGSIZE <= hi
  {
    PagesExactly(lo, hi);
    var ps := Pages(lo, hi);
    forall k | 0 <= k < |ps| ensures ValidPage(end, ps[k]) && lo <= ps[k] && ps[k] + PGSIZE <= hi {
      assert ps[k] in ps;
    }
  }

  lemma {:induction false} KinitListValid(end: nat, n: nat)
    requires end <= PHYSTOP && n <= NPROC
    ensures forall k :: 0 <= k < |KinitList(end, n)| ==>
              ValidPage(end, KinitList(end, n)[k]) && KinitList(end, n)[k] + PGSIZE <= ChunkLo(end, n)
  {
    if n > 0 {
      var hi := ChunkLo(end, n);
      KinitListValid(end, n - 1);
      RoundPages(end, n - 1);
      ChunkLoMono(end, n - 1, n);
      var r := Rev(Pages(ChunkLo(end, n - 1), hi));
      var t := KinitList(end, n - 1);
      assert KinitList(end, n) == r + t;
      forall k | 0 <= k < |r + t| ensures ValidPage(end, (r + t)[k]) && (r + t)[k] + PGSIZE <= hi {
        if k >= |r| {
          assert (r + t)[k] == t[k - |r|];
        }
      }
    }
  }

  /** What round i of kinit puts at the head of the list: the pages of chunk i, in descending
      order, each accepted by kfree and inside the chunk. */
  lemma RoundPages(end: nat, i: nat)
    requires end <= PHYSTOP && i < NPROC
    ensures var lo, hi := ChunkLo(end, i), ChunkLo(end, i + 1);
      var r := Rev(Pages(lo, hi));
      Descending(r) && forall k :: 0 <= k < |r| ==> ValidPage(end, r[k]) && lo <= r[k] && r[k] + PGSIZE <= hi
  {
    var lo, hi := ChunkLo(end, i), ChunkLo(end, i + 1);
    ChunkBounds(end, i + 1);
    ChunkLoMono(end, 0, i);
    PagesValid(end, lo, hi);
    PagesExactly(lo, hi);
    var ps := Pages(lo, hi);
    RevAscending(ps);
    var r := Rev(ps);
    forall k | 0 <= k < |r| ensures ValidPage(end, r[k]) && lo <= r[k] && r[k] + PGSIZE <= hi {
      assert r[k] == ps[|ps| - 1 - k];
    }
  }

  predicate Descending(s: seq<nat>)
  {
    forall a, b :: 0 <= a < b < |s| ==> s[a] > s[b]
  }

  lemma RevAscending(ps: seq<nat>)
    requires forall a, b :: 0 <= a < b < |ps| ==> ps[a] < ps[b]
    ensures Descending(Rev(ps))
  {
    var r := Rev(ps);
    forall a, b | 0 <= a < b < |r| ensures r[a] > r[b] {
      assert r[a] == ps[|ps| - 1 - a] && r[b] == ps[|ps| - 1 - b];
    }
  }

  lemma DescendingConcat(r: seq<nat>, t: seq<nat>, lo: nat)
    requires Descending(r) && Descending(t)
    requires forall k :: 0 <= k < |r| ==> lo <= r[k]
    requires forall k :: 0 <= k < |t| ==> t[k] < lo
    ensures Descending(r + t)
  {
    forall a, b | 0 <= a < b < |r + t| ensures (r + t)[a] > (r + t)[b] {
      if b >= |r| {
        assert (r + t)[b] == t[b - |r|];
        if a >= |r| {
          assert (r + t)[a] == t[a - |r|];
        }
      }
    }
  }

  lemma {:induction false} KinitListDescending(end: nat, n: nat)
    requires end <= PHYSTOP && n <= NPROC
    ensures Descending(KinitList(end, n))
  {
    if n > 0 {
      KinitListDescending(end, n - 1);
      KinitListValid(end, n - 1);
      RoundPages(end, n - 1);
      DescendingConcat(Rev(Pages(ChunkLo(end, n - 1), ChunkLo(end, n))), KinitList(end, n - 1), ChunkLo(end, n - 1));
    }
  }

  /** After kinit the caller's list holds only pages kfree accepts, each at most once. */
  lemma KinitSound(end: nat)
    requires KERNBASE <= end <= PHYSTOP
    ensures forall k :: 0 <= k < |KinitList(end, NPROC)| ==> ValidPage(end, KinitList(end, NPROC)[k])
    ensures NoDups(KinitList(end, NPROC))
  {
    KinitListValid(end, NPROC);
    KinitListDescending(end, NPROC);
  }

  // ---------------------------------------------------------------------------------------
  // The steal loop as written (kalloc.c:103): it starts at cid + 1 without reducing it.

  /** The indices the loop `for (i = start; i != cid; i = (i + 1) % NPROC)` visits. */
  function LoopVisits(cid: nat, i: nat, fuel: nat): seq<nat>
    decreases fuel
  {
    if fuel == 0 || i == cid then [] else [i] + LoopVisits(cid, (i + 1) % NPROC, fuel - 1)
  }

  /** The list indices the source's steal loop visits. */
  function AsWrittenStealOrder(cid: nat): seq<nat>
  {
    LoopVisits(cid, cid + 1, NPROC)
  }

  /** The visiting order with the start reduced mod NPROC, the one the model uses. */
  function StealOrder(cid: nat): seq<nat>
  {
    LoopVisits(cid, (cid + 1) % NPROC, NPROC)
  }

  lemma {:induction false} LoopVisitsBetween(cid: nat, i: nat, fuel: nat)
    requires 1 <= i <= cid < NPROC
    ensures forall v :: v in LoopVisits(cid, i, fuel) ==> i <= v < cid
    decreases fuel
  {
    if fuel > 0 && i != cid {
      LoopVisitsBetween(cid, i + 1, fuel - 1);
    }
  }

  /** For the last CPU the loop first reads freelists[NPROC], past the array, and never
      looks at list 0: a page free only on CPU 0's list is not found. */
  lemma AsWrittenStealOutOfRange()
    ensures AsWrittenStealOrder(NPROC - 1)[0] == NPROC
    ensures 0 !in AsWrittenStealOrder(NPROC - 1)
  {
    var s := AsWrittenStealOrder(NPROC - 1);
    assert s == [NPROC] + LoopVisits(NPROC - 1, 1, NPROC - 1);
    LoopVisitsBetween(NPROC - 1, 1, NPROC - 1);
  }

  /** For every other CPU the loop is as intended. */
  lemma AsWrittenStealAgrees(cid: nat)
    requires cid < NPROC - 1
    ensures AsWrittenStealOrder(cid) == StealOrder(cid)
  {
    assert (cid + 1) % NPROC == cid + 1;
  }

  lemma {:induction false} StealOrderFrom(cid: nat, k: nat, fuel: nat)
    requires cid < NPROC && k <= NPROC - 1 && fuel >= NPROC - 1 - k
    ensures LoopVisits(cid, Victim(cid, k), fuel) == seq(NPROC - 1 - k, m requires 0 <= m < NPROC - 1 - k => Victim(cid, k + m))
    decreases NPROC - 1 - k
  {
    VictimDist(cid, k);
    if k < NPROC - 1 {
      VictimNext(cid, k);
      StealOrderFrom(cid, k + 1, fuel - 1);
    }
  }

  /** The corrected loop visits every other CPU exactly once, in the order Steal follows. */
  lemma StealOrderVisitsOthers(cid: nat)
    requires cid < NPROC
    ensures |StealOrder(cid)| == NPROC - 1
    ensures forall m :: 0 <= m < NPROC - 1 ==> StealOrder(cid)[m] == Victim(cid, m)
    ensures forall c :: 0 <= c < NPROC ==> (c in StealOrder(cid) <==> c != cid)
    ensures NoDups(StealOrder(cid))
  {
    assert Victim(cid, 0) == (cid + 1) % NPROC;
    StealOrderFrom(cid, 0, NPROC);
    var s := StealOrder(cid);
    forall c | 0 <= c < NPROC ensures c in s <==> c != cid {
      if c != cid {
        VictimDist(cid, Dist(cid, c) - 1);
        assert s[Dist(cid, c) - 1] == c;
      }
      if c in s {
        var m :| 0 <= m < |s| && s[m] == c;
        VictimDist(cid, m);
      }
    }
    forall p, q | 0 <= p < q < |s| ensures s[p] != s[q] {
      VictimDist(cid, p);
      VictimDist(cid, q);
    }
  }

  // ---------------------------------------------------------------------------------------

  /** The free lists of kalloc.c (`struct kmem freelists[NPROC]`). */
  class KMem {
    /** The first address after the kernel (`end` from kernel.ld). */
    const end: nat
    const freelists: array<seq<nat>>

    ghost predicate Valid()
      reads this, freelists
    {
      freelists.Length == NPROC && KERNBASE <= end <= PHYSTOP && AllValid(end, freelists[..])
    }

    /** kinit (kalloc.c:28-36), run by CPU cid. */
    constructor Kinit(end0: nat, cid: nat)
      requires KERNBASE <= end0 <= PHYSTOP && cid < NPROC
      ensures Valid() && end == end0
      ensures freelists[..] == seq(NPROC, c => [])[cid := KinitList(end, NPROC)]
    {
      end := end0;
      freelists := new seq<nat>[NPROC](c => []);
      new;
      var i := 0;
      while i < NPROC
        invariant 0 <= i <= NPROC
        invariant Valid() && fresh(freelists)
        invariant freelists[..] == seq(NPROC, c => [])[cid := KinitList(end, i)]
      {
        FreeChunk(i, cid);
        assert KinitList(end, i + 1) == Rev(Pages(ChunkLo(end, i), ChunkLo(end, i + 1))) + KinitList(end, i);
        i := i + 1;
      }
    }

    /** Round i of kinit's loop (kalloc.c:33-35): freerange over the i-th chunk of memory
        after the kernel, onto list cid; every page of it is accepted. */
    method FreeChunk(i: nat, cid: nat)
      requires Valid() && cid < NPROC && i < NPROC
      modifies freelists
      ensures Valid()
      ensures freelists[..] == old(freelists[..])[cid :=
                Rev(Pages(ChunkLo(end, i), ChunkLo(end, i + 1))) + old(freelists[cid])]
    {
      var memchunk := (PHYSTOP - end) / NPROC;
      var lo, hi := end + i * memchunk, end + (i + 1) * memchunk;
      ChunkLoIs(end, i);
      ChunkLoIs(end, i + 1);
      ChunkBounds(end, i);
      ChunkBounds(end, i + 1);
      assert lo == ChunkLo(end, i) && hi == ChunkLo(end, i + 1);
      PagesValid(end, lo, hi);
      ghost var ps := Pages(lo, hi);
      assert ValidPrefixLen(end, ps) == |ps|;
      assert ps[..|ps|] == ps;
      var ok := Freerange(lo, hi, cid);
    }

    /** kfree (kalloc.c:51-73) by CPU cid; `false` is the panic "kfree", after which nothing
        changes. */
    method Kfree(pa: nat, cid: nat) returns (ok: bool)
      requires Valid() && cid < NPROC
      modifies freelists
      ensures Valid()
      ensures ok <==> ValidPage(end, pa)
      ensures freelists[..] == if ok then Push(old(freelists[..]), cid, pa) else old(freelists[..])
    {
      if pa % PGSIZE != 0 || pa < end || pa >= PHYSTOP {
        return false;
      }
      PushKeeps(end, freelists[..], cid, pa);
      freelists[cid] := [pa] + freelists[cid];
      return true;
    }

    /** freerange (kalloc.c:38-45) by CPU cid: every page goes to list cid; it stops at the
        first page kfree refuses. */
    method Freerange(lo: nat, hi: nat, cid: nat) returns (ok: bool)
      requires Valid() && cid < NPROC
      modifies freelists
      ensures Valid()
      ensures ok <==> ValidPrefixLen(end, Pages(lo, hi)) == |Pages(lo, hi)|
      ensures freelists[..] == old(freelists[..])[cid :=
                Rev(Pages(lo, hi)[..ValidPrefixLen(end, Pages(lo, hi))]) + old(freelists[cid])]
    {
      ghost var ps := Pages(lo, hi);
      ghost var l0 := freelists[cid];
      ghost var fl0 := freelists[..];
      var p := PgRoundUp(lo);
      ghost var done: seq<nat> := [];
      assert Rev(done) + l0 == l0;
      assert fl0[cid := Rev(done) + l0] == fl0;
      while p + PGSIZE <= hi
        invariant Valid()
        invariant ps == done + PagesFrom(p, hi)
        invariant forall k :: 0 <= k < |done| ==> ValidPage(end, done[k])
        invariant freelists[..] == fl0[cid := Rev(done) + l0]
        decreases hi - p
      {
        FreerangeStep(ps, done, p, hi);
        PushFreed(fl0, cid, done, p, l0);
        ok := Kfree(p, cid);
        if !ok {
          ValidPrefixLenIs(end, ps, |done|);
          return;
        }
        done := done + [p];
        p := p + PGSIZE;
      }
      assert ps == done;
      ValidPrefixLenIs(end, ps, |ps|);
      assert ps[..|ps|] == ps;
      return true;
    }

    /** The page freerange frees next is the one after the pages done so far. */
    static lemma FreerangeStep(ps: seq<nat>, done: seq<nat>, p: nat, hi: nat)
      requires ps == done + PagesFrom(p, hi) && p + PGSIZE <= hi
      ensures |done| < |ps| && ps[|done|] == p && ps[..|done|] == done
      ensures ps == (done + [p]) + PagesFrom(p + PGSIZE, hi)
    {
    }

    /** Freeing p onto list cid, which holds the pages done so far in reverse above l0. */
    static lemma PushFreed(fl0: FreeLists, cid: nat, done: seq<nat>, p: nat, l0: seq<nat>)
      requires cid < |fl0|
      ensures Push(fl0[cid := Rev(done) + l0], cid, p) == fl0[cid := Rev(done + [p]) + l0]
    {
      RevSnoc(done, p, l0);
    }

    /** kalloc (kalloc.c:78-118) by CPU cid; 0 means no free page.  The steal loop starts at
        (cid + 1) % NPROC. */
    method Kalloc(cid: nat) returns (pa: nat)
      requires Valid() && cid < NPROC
      modifies freelists
      ensures Valid()
      ensures (freelists[..], pa) == Alloc(old(freelists[..]), cid)
    {
      ghost var fl0 := freelists[..];
      AllocKeeps(end, fl0, cid);
      var r := freelists[cid];
      if r != [] {
        freelists[cid] := r[1..];
        return r[0];
      }
      pa := StealPage(cid);
    }

    /** The steal loop of kalloc (kalloc.c:103-112) for CPU cid, whose own list is empty: take
        the head of the first non-empty list after cid, in cyclic order, or return 0. */
    method StealPage(cid: nat) returns (pa: nat)
      requires freelists.Length == NPROC && cid < NPROC && freelists[cid] == []
      modifies freelists
      ensures (freelists[..], pa) == Alloc(old(freelists[..]), cid)
    {
      ghost var fl0 := freelists[..];
      var i := (cid + 1) % NPROC;
      ghost var k := 0;
      while i != cid
        invariant 0 <= k < NPROC && i == Victim(cid, k)
        invariant Steal(fl0, cid, k) == Steal(fl0, cid, 0)
        invariant freelists[..] == fl0
        decreases NPROC - k
      {
        StealScan(fl0, cid, k);
        var r := freelists[i];
        if r != [] {
          freelists[i] := r[1..];
          assert freelists[..] == fl0[i := r[1..]];
          return r[0];
        }
        i := (i + 1) % NPROC;
        k := k + 1;
      }
      StealScan(fl0, cid, k);
      return 0;
    }
  }
}
