/** The xv6 buffer cache of kernel/bio.c: a fixed table of NBUF buffers, indexed by
    NBUCKET hash buckets keyed on `blockno % NBUCKET`.

    The first half of the module is a value-level model: a `Cache` is the slot table
    plus the bucket lists (each intrusive `next` list is the sequence of slot indices it
    links, head first), and `Get` is what `bget` does to it.  The lemmas after it prove
    what the hash index promises.  The class `BCache` at the end is the imperative
    cache, whose methods are proved to follow `Get` and the refcount updates. */
module BufferCache {
  import opened Wrappers

  /** Number of buffers (param.h: MAXOPBLOCKS * 3). */
  const NBUF: nat := 30
  /** Number of hash buckets (bio.c:26). */
  const NBUCKET: nat := 13
  /** Bytes in one disk block (fs.h). */
  const BSIZE: nat := 1024

  type Block = seq<bv8>

  /** One slot of the buffer table: `struct buf` without its sleep lock and link. */
  datatype Buf = Buf(dev: nat, blockno: nat, valid: bool, refcnt: nat, data: Block)

  /** The cache as a value: the slots and, per bucket, the slots linked from its head. */
  datatype Cache = Cache(bufs: seq<Buf>, table: seq<seq<nat>>)

  /** The outcome of `bget`: the new cache and the returned slot, or the panic "bget: no buffers". */
  datatype Outcome = Got(cache: Cache, b: nat) | NoBuffers

  function Hash(blockno: nat): nat { blockno % NBUCKET }

  predicate Holds(b: Buf, dev: nat, blockno: nat) { b.dev == dev && b.blockno == blockno }

  predicate SameId(x: Buf, y: Buf) { x.dev == y.dev && x.blockno == y.blockno }

  predicate NoDups(s: seq<nat>) { forall p, q :: 0 <= p < q < |s| ==> s[p] != s[q] }

  /** Every entry of s is below n. */
  predicate InRange(s: seq<nat>, n: nat) { forall p :: 0 <= p < |s| ==> s[p] < n }

  /** Every slot index in the bucket lists names a slot of the table. */
  predicate WellFormed(c: Cache) {
    && |c.bufs| == NBUF
    && |c.table| == NBUCKET
    && forall i :: 0 <= i < NBUCKET ==> InRange(c.table[i], NBUF)
  }

  /** Bucket i holds only buffers whose block number hashes to i. */
  predicate Hashed(c: Cache)
    requires WellFormed(c)
  {
    forall i, p :: 0 <= i < NBUCKET && 0 <= p < |c.table[i]| ==> Hash(c.bufs[c.table[i][p]].blockno) == i
  }

  /** Every slot is linked from the bucket its block number hashes to. */
  predicate Covered(c: Cache)
    requires WellFormed(c)
  {
    forall k :: 0 <= k < NBUF ==> k in c.table[Hash(c.bufs[k].blockno)]
  }

  /** No list links a slot twice. */
  predicate Distinct(c: Cache)
    requires WellFormed(c)
  {
    forall i :: 0 <= i < NBUCKET ==> NoDups(c.table[i])
  }

  /** Within a list, a buffer with the same (dev, blockno) as an earlier one is idle:
      the hit search, which stops at the first match, can never reach it. */
  predicate LaterIdleList(bufs: seq<Buf>, s: seq<nat>)
    requires InRange(s, |bufs|)
  {
    forall p, q :: 0 <= p < q < |s| && SameId(bufs[s[p]], bufs[s[q]]) ==> bufs[s[q]].refcnt == 0
  }

  predicate LaterIdle(c: Cache)
    requires WellFormed(c)
  {
    forall i :: 0 <= i < NBUCKET ==> LaterIdleList(c.bufs, c.table[i])
  }

  /** The invariant of the hash index. */
  predicate Inv(c: Cache) {
    WellFormed(c) && Hashed(c) && Covered(c) && Distinct(c) && LaterIdle(c)
  }

  /** The hit search of bget: the first position from j on whose buffer holds (dev, blockno). */
  function Lookup(bufs: seq<Buf>, list: seq<nat>, dev: nat, blockno: nat, j: nat): (r: Option<nat>)
    requires InRange(list, |bufs|)
    requires j <= |list|
    decreases |list| - j
    ensures r.Some? ==> j <= r.value < |list| && Holds(bufs[list[r.value]], dev, blockno)
    ensures forall p :: j <= p < |list| && (r.None? || p < r.value) ==> !Holds(bufs[list[p]], dev, blockno)
  {
    if j == |list| then None
    else if Holds(bufs[list[j]], dev, blockno) then Some(j)
    else Lookup(bufs, list, dev, blockno, j + 1)
  }

  /** Position (p, q) is the q-th entry of bucket p. */
  predicate At(c: Cache, p: nat, q: nat)
    requires WellFormed(c)
  {
    p < NBUCKET && q < |c.table[p]|
  }

  predicate IdleAt(c: Cache, p: nat, q: nat)
    requires WellFormed(c) && At(c, p, q)
  {
    c.bufs[c.table[p][q]].refcnt == 0
  }

  /** (p, q) comes no earlier than (i, j) in the scan order of bget's miss path. */
  predicate NotBefore(i: nat, j: nat, p: nat, q: nat) { i < p || (i == p && j <= q) }

  /** The eviction scan of bget: the first idle buffer from bucket i, position j on,
      scanning buckets in increasing order and each list from its head. */
  function FirstIdle(c: Cache, i: nat, j: nat): (r: Option<(nat, nat)>)
    requires WellFormed(c)
    requires i <= NBUCKET && (i < NBUCKET ==> j <= |c.table[i]|)
    decreases NBUCKET - i, if i < NBUCKET then |c.table[i]| - j else 0
    ensures r.Some? ==> At(c, r.value.0, r.value.1) && IdleAt(c, r.value.0, r.value.1)
                        && NotBefore(i, j, r.value.0, r.value.1)
    ensures forall p, q ::
              (At(c, p, q) && NotBefore(i, j, p, q) && (r.None? || !NotBefore(r.value.0, r.value.1, p, q)))
              ==> !IdleAt(c, p, q)
  {
    if i == NBUCKET then None
    else if j == |c.table[i]| then FirstIdle(c, i + 1, 0)
    else if c.bufs[c.table[i][j]].refcnt == 0 then Some((i, j))
    else FirstIdle(c, i, j + 1)
  }

  /** Unlinking the j-th entry of a list. */
  function Unlink(s: seq<nat>, j: nat): seq<nat>
    requires j < |s|
  {
    s[..j] + s[j + 1..]
  }

  /** bget over the cache value (bio.c:71-147). */
  function Get(c: Cache, dev: nat, blockno: nat): (r: Outcome)
    requires WellFormed(c)
    ensures r.Got? ==> WellFormed(r.cache) && r.b < NBUF
  {
    var h := Hash(blockno);
    match Lookup(c.bufs, c.table[h], dev, blockno, 0)
    case Some(j) =>
      var b := c.table[h][j];
      Got(Cache(c.bufs[b := c.bufs[b].(refcnt := c.bufs[b].refcnt + 1)], c.table), b)
    case None =>
      match FirstIdle(c, 0, 0)
      case None => NoBuffers
      case Some((i, j)) =>
        var b := c.table[i][j];
        Got(Reassign(c, i, j, h, Buf(dev, blockno, false, 1, c.bufs[b].data)), b)
  }

  /** The eviction step of bget's miss path (bio.c:106-122): the buffer at position j of
      bucket i takes the contents nb and, when i is not its new bucket h, is unlinked
      from bucket i and pushed onto the head of bucket h. */
  function Reassign(c: Cache, i: nat, j: nat, h: nat, nb: Buf): Cache
    requires WellFormed(c) && At(c, i, j) && h < NBUCKET
  {
    var b := c.table[i][j];
    var bufs := c.bufs[b := nb];
    if i != h then Cache(bufs, c.table[i := Unlink(c.table[i], j)][h := [b] + c.table[h]])
    else Cache(bufs, c.table)
  }

  /** The refcount update of brelse, bpin and bunpin: slot k's count becomes n. */
  function SetRefcnt(c: Cache, k: nat, n: nat): (r: Cache)
    requires k < |c.bufs|
    ensures r.table == c.table && |r.bufs| == |c.bufs|
    ensures r.bufs[k] == c.bufs[k].(refcnt := n)
    ensures forall m :: 0 <= m < |c.bufs| && m != k ==> r.bufs[m] == c.bufs[m]
  {
    Cache(c.bufs[k := c.bufs[k].(refcnt := n)], c.table)
  }

  /** binit's loop over the first n slots: each is pushed onto the head of its bucket (bio.c:45-51). */
  function BinitTable(bufs: seq<Buf>, n: nat): (t: seq<seq<nat>>)
    requires n <= |bufs|
    ensures |t| == NBUCKET
  {
    if n == 0 then seq(NBUCKET, _ => [])
    else
      var t := BinitTable(bufs, n - 1);
      var h := Hash(bufs[n - 1].blockno);
      t[h := [n - 1] + t[h]]
  }

  /** A slot of zero-initialised static storage. */
  const ZeroBuf: Buf := Buf(0, 0, false, 0, seq(BSIZE, _ => 0))

  /** The slots as they are before binit: static storage, all zero. */
  function ZeroBufs(): (r: seq<Buf>)
    ensures |r| == NBUF
  {
    seq(NBUF, _ => ZeroBuf)
  }

  // ---------------------------------------------------------------------------
  // binit

  lemma {:induction false} BinitTableMembers(bufs: seq<Buf>, n: nat)
    requires n <= |bufs|
    ensures |BinitTable(bufs, n)| == NBUCKET
    ensures forall i, p :: 0 <= i < NBUCKET && 0 <= p < |BinitTable(bufs, n)[i]| ==>
              BinitTable(bufs, n)[i][p] < n && Hash(bufs[BinitTable(bufs, n)[i][p]].blockno) == i
    ensures forall k :: 0 <= k < n ==> k in BinitTable(bufs, n)[Hash(bufs[k].blockno)]
    ensures forall i :: 0 <= i < NBUCKET ==> NoDups(BinitTable(bufs, n)[i])
  {
    if n > 0 {
      BinitTableMembers(bufs, n - 1);
      var t := BinitTable(bufs, n - 1);
      var h := Hash(bufs[n - 1].blockno);
      assert BinitTable(bufs, n) == t[h := [n - 1] + t[h]];
      forall i | 0 <= i < NBUCKET ensures NoDups(BinitTable(bufs, n)[i]) {
        if i == h {
          var s := [n - 1] + t[h];
          forall p, q | 0 <= p < q < |s| ensures s[p] != s[q] {
            if p == 0 { assert s[q] in t[h]; }
            else { assert s[p] == t[h][p - 1] && s[q] == t[h][q - 1]; }
          }
        }
      }
    }
  }

  /** After binit every slot is in exactly one bucket, the one its block number hashes
      to, and linked once; so whatever the slots hold, if none is referenced the
      index invariant holds. */
  lemma BinitInv(bufs: seq<Buf>)
    requires |bufs| == NBUF
    requires forall k :: 0 <= k < NBUF ==> bufs[k].refcnt == 0
    ensures Inv(Cache(bufs, BinitTable(bufs, NBUF)))
    ensures forall i, k :: 0 <= i < NBUCKET && 0 <= k < NBUF ==>
              (k in BinitTable(bufs, NBUF)[i] <==> i == Hash(bufs[k].blockno))
  {
    BinitTableMembers(bufs, NBUF);
    var t := BinitTable(bufs, NBUF);
    forall i, k | 0 <= i < NBUCKET && 0 <= k < NBUF && k in t[i] ensures i == Hash(bufs[k].blockno) {
      var p :| 0 <= p < |t[i]| && t[i][p] == k;
    }
  }

  /** On the zero-initialised table, binit links every slot into bucket 0, last slot first. */
  lemma BinitZero()
    ensures BinitTable(ZeroBufs(), NBUF)[0] == seq(NBUF, p => NBUF - 1 - p)
    ensures forall i :: 0 < i < NBUCKET ==> BinitTable(ZeroBufs(), NBUF)[i] == []
  {
    var z := ZeroBufs();
    var n := 0;
    while n < NBUF
      invariant n <= NBUF
      invariant |BinitTable(z, n)| == NBUCKET
      invariant BinitTable(z, n)[0] == seq(n, p => n - 1 - p)
      invariant forall i :: 0 < i < NBUCKET ==> BinitTable(z, n)[i] == []
    {
      n := n + 1;
      assert BinitTable(z, n)[0] == [n - 1] + BinitTable(z, n - 1)[0];
    }
  }

  // ---------------------------------------------------------------------------
  // List lemmas used by the invariant proofs

  lemma UnlinkIndex(s: seq<nat>, j: nat)
    requires j < |s|
    ensures |Unlink(s, j)| == |s| - 1
    ensures forall p :: 0 <= p < |s| - 1 ==> Unlink(s, j)[p] == s[if p < j then p else p + 1]
  {
  }

  lemma UnlinkMembers(s: seq<nat>, j: nat)
    requires j < |s| && NoDups(s)
    ensures NoDups(Unlink(s, j))
    ensures forall k :: k in Unlink(s, j) <==> k in s && k != s[j]
  {
    UnlinkIndex(s, j);
    var u := Unlink(s, j);
    forall k | k in s && k != s[j] ensures k in u {
      var p :| 0 <= p < |s| && s[p] == k;
      assert u[if p < j then p else p - 1] == k;
    }
    forall k | k in u ensures k in s && k != s[j] {
      var p :| 0 <= p < |u| && u[p] == k;
      assert s[if p < j then p else p + 1] == k;
    }
  }

  lemma LaterIdleFrame(bufs: seq<Buf>, bufs': seq<Buf>, s: seq<nat>)
    requires InRange(s, |bufs|) && InRange(s, |bufs'|)
    requires forall p :: 0 <= p < |s| ==> bufs'[s[p]] == bufs[s[p]]
    requires LaterIdleList(bufs, s)
    ensures LaterIdleList(bufs', s)
  {
  }

  lemma LaterIdleUnlink(bufs: seq<Buf>, s: seq<nat>, j: nat)
    requires InRange(s, |bufs|)
    requires j < |s| && LaterIdleList(bufs, s)
    ensures InRange(Unlink(s, j), |bufs|)
    ensures LaterIdleList(bufs, Unlink(s, j))
  {
    UnlinkIndex(s, j);
    var u := Unlink(s, j);
    forall p, q | 0 <= p < q < |u| && SameId(bufs[u[p]], bufs[u[q]]) ensures bufs[u[q]].refcnt == 0 {
      var p', q' := if p < j then p else p + 1, if q < j then q else q + 1;
      assert u[p] == s[p'] && u[q] == s[q'] && p' < q';
    }
  }

  lemma LaterIdlePush(bufs: seq<Buf>, s: seq<nat>, b: nat)
    requires InRange(s, |bufs|)
    requires b < |bufs| && LaterIdleList(bufs, s)
    requires forall p :: 0 <= p < |s| ==> !SameId(bufs[b], bufs[s[p]])
    ensures InRange([b] + s, |bufs|)
    ensures LaterIdleList(bufs, [b] + s)
  {
    var t := [b] + s;
    forall p, q | 0 <= p < q < |t| && SameId(bufs[t[p]], bufs[t[q]]) ensures bufs[t[q]].refcnt == 0 {
      assert t[q] == s[q - 1];
      if p > 0 {
        assert t[p] == s[p - 1];
      }
    }
  }

  /** Replacing the buffer of slot k, linked in list s, by nb keeps LaterIdleList when no
      earlier entry shares nb's identity and every later entry sharing it already shared
      k's old identity. */
  lemma LaterIdleReplace(bufs: seq<Buf>, s: seq<nat>, k: nat, nb: Buf)
    requires InRange(s, |bufs|)
    requires k < |bufs| && NoDups(s) && LaterIdleList(bufs, s)
    requires forall p, q :: 0 <= p < q < |s| && s[q] == k ==> !SameId(bufs[s[p]], nb)
    requires forall p, q :: 0 <= p < q < |s| && s[p] == k && SameId(nb, bufs[s[q]]) ==> SameId(bufs[k], bufs[s[q]])
    ensures LaterIdleList(bufs[k := nb], s)
  {
    var bufs' := bufs[k := nb];
    forall p, q | 0 <= p < q < |s| && SameId(bufs'[s[p]], bufs'[s[q]]) ensures bufs'[s[q]].refcnt == 0 {
      if s[p] == k {
        assert bufs'[s[q]] == bufs[s[q]];
      } else {
        assert bufs'[s[p]] == bufs[s[p]] && bufs'[s[q]] == bufs[s[q]];
      }
    }
  }

  // ---------------------------------------------------------------------------
  // The invariant is kept by bget, brelse, bpin and bunpin

  /** Changing the refcount of slot k keeps the invariant, provided k is not linked
      after an earlier buffer with its identity. */
  lemma RefcntChangeInv(c: Cache, k: nat, n: nat)
    requires Inv(c) && k < NBUF
    requires forall p, q :: 0 <= p < q < |c.table[Hash(c.bufs[k].blockno)]|
               && c.table[Hash(c.bufs[k].blockno)][q] == k
               ==> !SameId(c.bufs[c.table[Hash(c.bufs[k].blockno)][p]], c.bufs[k])
    ensures Inv(SetRefcnt(c, k, n))
  {
    var c' := SetRefcnt(c, k, n);
    var h := Hash(c.bufs[k].blockno);
    forall i | 0 <= i < NBUCKET ensures LaterIdleList(c'.bufs, c'.table[i]) {
      if i == h {
        LaterIdleReplace(c.bufs, c.table[h], k, c.bufs[k].(refcnt := n));
      } else {
        LaterIdleFrame(c.bufs, c'.bufs, c.table[i]);
      }
    }
  }

  /** A referenced buffer is never linked after an earlier buffer with its identity, so
      brelse, bpin and bunpin, which only touch referenced buffers, keep the invariant. */
  lemma BusyRefcntChangeInv(c: Cache, k: nat, n: nat)
    requires Inv(c) && k < NBUF && c.bufs[k].refcnt > 0
    ensures Inv(SetRefcnt(c, k, n))
  {
    RefcntChangeInv(c, k, n);
  }

  lemma GetHitInv(c: Cache, dev: nat, blockno: nat)
    requires Inv(c)
    requires Lookup(c.bufs, c.table[Hash(blockno)], dev, blockno, 0).Some?
    ensures Get(c, dev, blockno).Got? && Inv(Get(c, dev, blockno).cache)
  {
    var h := Hash(blockno);
    var s := c.table[h];
    var j := Lookup(c.bufs, s, dev, blockno, 0).value;
    var k := s[j];
    assert Hash(c.bufs[k].blockno) == h;
    forall p, q | 0 <= p < q < |s| && s[q] == k ensures !SameId(c.bufs[s[p]], c.bufs[k]) {
      assert q == j;
    }
    RefcntChangeInv(c, k, c.bufs[k].refcnt + 1);
  }

  /** What the eviction step needs of the cache: the buffer it takes is linked at (i, j),
      its new identity hashes to h and no buffer already in bucket h has that identity. */
  predicate ReassignOk(c: Cache, i: nat, j: nat, h: nat, nb: Buf)
    requires Inv(c)
  {
    && At(c, i, j) && h < NBUCKET && Hash(nb.blockno) == h
    && forall p :: 0 <= p < |c.table[h]| ==> !SameId(c.bufs[c.table[h][p]], nb)
  }

  lemma ReassignInPlaceInv(c: Cache, j: nat, h: nat, nb: Buf)
    requires Inv(c) && ReassignOk(c, h, j, h, nb)
    ensures Inv(Reassign(c, h, j, h, nb))
  {
    var s := c.table[h];
    var k := s[j];
    var c' := Reassign(c, h, j, h, nb);
    forall i, p | 0 <= i < NBUCKET && 0 <= p < |c.table[i]| ensures Hash(c'.bufs[c.table[i][p]].blockno) == i {
      if c.table[i][p] == k { assert Hash(c.bufs[k].blockno) == h; }
    }
    forall m | 0 <= m < NBUF ensures m in c'.table[Hash(c'.bufs[m].blockno)] {
      if m == k { assert s[j] == k; }
    }
    forall i | 0 <= i < NBUCKET ensures LaterIdleList(c'.bufs, c'.table[i]) {
      if i == h {
        LaterIdleReplace(c.bufs, s, k, nb);
      } else {
        forall p | 0 <= p < |c.table[i]| ensures c.table[i][p] != k {
          assert Hash(c.bufs[c.table[i][p]].blockno) == i;
        }
        LaterIdleFrame(c.bufs, c'.bufs, c.table[i]);
      }
    }
  }

  /** Facts about the slot the moving eviction takes: it is linked from bucket i only. */
  lemma MovedSlot(c: Cache, i: nat, j: nat, h: nat, nb: Buf)
    requires Inv(c) && ReassignOk(c, i, j, h, nb) && i != h
    ensures forall i', p :: 0 <= i' < NBUCKET && i' != i && 0 <= p < |c.table[i']| ==> c.table[i'][p] != c.table[i][j]
    ensures forall p :: 0 <= p < |Unlink(c.table[i], j)| ==> Unlink(c.table[i], j)[p] != c.table[i][j]
    ensures NoDups(Unlink(c.table[i], j))
    ensures forall m :: m in Unlink(c.table[i], j) <==> m in c.table[i] && m != c.table[i][j]
  {
    var k := c.table[i][j];
    assert Hash(c.bufs[k].blockno) == i;
    forall i', p | 0 <= i' < NBUCKET && i' != i && 0 <= p < |c.table[i']| ensures c.table[i'][p] != k {
      assert Hash(c.bufs[c.table[i'][p]].blockno) == i';
    }
    UnlinkMembers(c.table[i], j);
    var u := Unlink(c.table[i], j);
    forall p | 0 <= p < |u| ensures u[p] != k { assert u[p] in u; }
  }

  lemma ReassignMoveHashed(c: Cache, i: nat, j: nat, h: nat, nb: Buf)
    requires Inv(c) && ReassignOk(c, i, j, h, nb) && i != h
    ensures WellFormed(Reassign(c, i, j, h, nb)) && Hashed(Reassign(c, i, j, h, nb))
  {
    MovedSlot(c, i, j, h, nb);
    UnlinkIndex(c.table[i], j);
    var c' := Reassign(c, i, j, h, nb);
    var u := Unlink(c.table[i], j);
    var t := [c.table[i][j]] + c.table[h];
    forall i', p | 0 <= i' < NBUCKET && 0 <= p < |c'.table[i']|
      ensures c'.table[i'][p] < NBUF && Hash(c'.bufs[c'.table[i'][p]].blockno) == i'
    {
      if i' == h {
        if p > 0 { assert t[p] == c.table[h][p - 1]; }
      } else if i' == i {
        assert u[p] == c.table[i][if p < j then p else p + 1];
      }
    }
  }

  lemma ReassignMoveCovered(c: Cache, i: nat, j: nat, h: nat, nb: Buf)
    requires Inv(c) && ReassignOk(c, i, j, h, nb) && i != h
    requires WellFormed(Reassign(c, i, j, h, nb))
    ensures Covered(Reassign(c, i, j, h, nb)) && Distinct(Reassign(c, i, j, h, nb))
  {
    MovedSlot(c, i, j, h, nb);
    var k := c.table[i][j];
    var c' := Reassign(c, i, j, h, nb);
    var u := Unlink(c.table[i], j);
    var t := [k] + c.table[h];
    forall m | 0 <= m < NBUF ensures m in c'.table[Hash(c'.bufs[m].blockno)] {
      if m != k {
        var hm := Hash(c.bufs[m].blockno);
        assert m in c.table[hm];
        if hm == i { assert m in u; }
        else if hm == h { assert m in t; }
      }
    }
    assert k !in c.table[h];
    forall p, q | 0 <= p < q < |t| ensures t[p] != t[q] {
      assert t[q] == c.table[h][q - 1];
      if p > 0 { assert t[p] == c.table[h][p - 1]; }
    }
  }

  lemma ReassignMoveLaterIdle(c: Cache, i: nat, j: nat, h: nat, nb: Buf)
    requires Inv(c) && ReassignOk(c, i, j, h, nb) && i != h
    requires WellFormed(Reassign(c, i, j, h, nb))
    ensures LaterIdle(Reassign(c, i, j, h, nb))
  {
    MovedSlot(c, i, j, h, nb);
    var k := c.table[i][j];
    var c' := Reassign(c, i, j, h, nb);
    var u := Unlink(c.table[i], j);
    forall i' | 0 <= i' < NBUCKET ensures LaterIdleList(c'.bufs, c'.table[i']) {
      if i' == i {
        LaterIdleUnlink(c.bufs, c.table[i], j);
        LaterIdleFrame(c.bufs, c'.bufs, u);
      } else if i' == h {
        LaterIdleFrame(c.bufs, c'.bufs, c.table[h]);
        LaterIdlePush(c'.bufs, c.table[h], k);
      } else {
        LaterIdleFrame(c.bufs, c'.bufs, c.table[i']);
      }
    }
  }

  /** The eviction step keeps the invariant, whether or not it moves the buffer. */
  lemma ReassignInv(c: Cache, i: nat, j: nat, h: nat, nb: Buf)
    requires Inv(c) && ReassignOk(c, i, j, h, nb)
    ensures Inv(Reassign(c, i, j, h, nb))
  {
    if i == h {
      ReassignInPlaceInv(c, j, h, nb);
    } else {
      ReassignMoveHashed(c, i, j, h, nb);
      ReassignMoveCovered(c, i, j, h, nb);
      ReassignMoveLaterIdle(c, i, j, h, nb);
    }
  }

  /** bget keeps the hash-index invariant: every bucket links only buffers hashing to
      it, every slot is linked from its bucket once, and referenced identities are
      never shadowed. */
  lemma GetInv(c: Cache, dev: nat, blockno: nat)
    requires Inv(c)
    ensures Get(c, dev, blockno).Got? ==> Inv(Get(c, dev, blockno).cache)
  {
    var h := Hash(blockno);
    if Lookup(c.bufs, c.table[h], dev, blockno, 0).Some? {
      GetHitInv(c, dev, blockno);
    } else if FirstIdle(c, 0, 0).Some? {
      var (i, j) := FirstIdle(c, 0, 0).value;
      ReassignInv(c, i, j, h, Buf(dev, blockno, false, 1, c.bufs[c.table[i][j]].data));
    }
  }

  // ---------------------------------------------------------------------------
  // What the invariant and bget promise

  /** Under the invariant the bucket lists link exactly the NBUF slots, each from the
      one bucket its block number hashes to: no buffer is in two buckets. */
  lemma EachSlotInOneBucket(c: Cache)
    requires Inv(c)
    ensures forall i, k :: 0 <= i < NBUCKET && k in c.table[i] ==> 0 <= k < NBUF
    ensures forall i, k :: 0 <= i < NBUCKET && 0 <= k < NBUF ==>
              (k in c.table[i] <==> i == Hash(c.bufs[k].blockno))
  {
    forall i, k | 0 <= i < NBUCKET && k in c.table[i] ensures 0 <= k < NBUF && i == Hash(c.bufs[k].blockno) {
      var p :| 0 <= p < |c.table[i]| && c.table[i][p] == k;
    }
  }

  /** The hit search looks only at bucket Hash(blockno), and that is the only bucket a
      buffer holding blockno can be linked from: it finds a buffer iff some slot holds
      (dev, blockno). */
  lemma LookupComplete(c: Cache, dev: nat, blockno: nat)
    requires Inv(c)
    ensures Lookup(c.bufs, c.table[Hash(blockno)], dev, blockno, 0).Some?
            <==> exists k :: 0 <= k < NBUF && Holds(c.bufs[k], dev, blockno)
  {
    var s := c.table[Hash(blockno)];
    if k :| 0 <= k < NBUF && Holds(c.bufs[k], dev, blockno) {
      var p :| 0 <= p < |s| && s[p] == k;
      assert !Holds(c.bufs[s[p]], dev, blockno) ==> false;
    }
  }

  /** No two referenced buffers hold the same (dev, blockno). */
  lemma BusyUnique(c: Cache)
    requires Inv(c)
    ensures forall k1, k2 ::
              (0 <= k1 < NBUF && 0 <= k2 < NBUF && k1 != k2 && c.bufs[k1].refcnt > 0 && c.bufs[k2].refcnt > 0)
              ==> !SameId(c.bufs[k1], c.bufs[k2])
  {
  }

  /** A referenced buffer is the first in its bucket with its identity. */
  lemma BusyIsFirst(c: Cache, k: nat)
    requires Inv(c) && k < NBUF && c.bufs[k].refcnt > 0
    ensures Lookup(c.bufs, c.table[Hash(c.bufs[k].blockno)], c.bufs[k].dev, c.bufs[k].blockno, 0)
            == Some(IndexIn(c.table[Hash(c.bufs[k].blockno)], k))
  {
    var s := c.table[Hash(c.bufs[k].blockno)];
    var q := IndexIn(s, k);
    var r := Lookup(c.bufs, s, c.bufs[k].dev, c.bufs[k].blockno, 0);
    assert !Holds(c.bufs[s[q]], c.bufs[k].dev, c.bufs[k].blockno) ==> false;
    assert LaterIdleList(c.bufs, s);
    assert forall p :: 0 <= p < q ==> !SameId(c.bufs[s[p]], c.bufs[s[q]]);
  }

  /** The position of k in a list that links it. */
  function IndexIn(s: seq<nat>, k: nat): (p: nat)
    requires k in s
    ensures p < |s| && s[p] == k
    ensures forall q :: 0 <= q < p ==> s[q] != k
  {
    if s[0] == k then 0 else 1 + IndexIn(s[1..], k)
  }

  /** bget's hit path (bio.c:76-93): when some slot holds (dev, blockno), bget returns the
      first such buffer in the list of bucket Hash(blockno), adds one to its refcount and
      changes nothing else. */
  lemma GetHit(c: Cache, dev: nat, blockno: nat)
    requires Inv(c)
    requires exists k :: 0 <= k < NBUF && Holds(c.bufs[k], dev, blockno)
    ensures Get(c, dev, blockno).Got?
    ensures var b := Get(c, dev, blockno).b;
            && b < NBUF && Holds(c.bufs[b], dev, blockno)
            && Get(c, dev, blockno).cache == SetRefcnt(c, b, c.bufs[b].refcnt + 1)
            && exists j :: 0 <= j < |c.table[Hash(blockno)]| && c.table[Hash(blockno)][j] == b
                 && forall p :: 0 <= p < j ==> !Holds(c.bufs[c.table[Hash(blockno)][p]], dev, blockno)
  {
    LookupComplete(c, dev, blockno);
  }

  /** bget's miss path (bio.c:99-134): when no slot holds (dev, blockno) but some slot is
      idle, bget takes the first idle buffer in the order buckets 0..NBUCKET-1, each list
      from its head, gives it the identity (dev, blockno) with valid cleared and refcount
      1, keeps its payload, leaves every other slot alone and links it from bucket
      Hash(blockno). */
  lemma GetMiss(c: Cache, dev: nat, blockno: nat)
    requires Inv(c)
    requires forall k :: 0 <= k < NBUF ==> !Holds(c.bufs[k], dev, blockno)
    requires exists k :: 0 <= k < NBUF && c.bufs[k].refcnt == 0
    ensures Get(c, dev, blockno).Got?
    ensures var b := Get(c, dev, blockno).b;
            var c' := Get(c, dev, blockno).cache;
            && b < NBUF && c.bufs[b].refcnt == 0
            && c'.bufs == c.bufs[b := Buf(dev, blockno, false, 1, c.bufs[b].data)]
            && b in c'.table[Hash(blockno)]
            && exists i: nat, j: nat :: At(c, i, j) && c.table[i][j] == b
                 && forall p: nat, q: nat :: At(c, p, q) && !NotBefore(i, j, p, q) ==> c.bufs[c.table[p][q]].refcnt > 0
  {
    LookupComplete(c, dev, blockno);
    SomeIdleFound(c);
    var (i, j) := FirstIdle(c, 0, 0).value;
    var h := Hash(blockno);
    var b := c.table[i][j];
    ReassignInv(c, i, j, h, Buf(dev, blockno, false, 1, c.bufs[b].data));
    EachSlotInOneBucket(Get(c, dev, blockno).cache);
    forall p: nat, q: nat | At(c, p, q) && !NotBefore(i, j, p, q) ensures c.bufs[c.table[p][q]].refcnt > 0 {
      assert !IdleAt(c, p, q);
    }
  }

  /** The eviction scan finds a buffer iff some slot is idle. */
  lemma SomeIdleFound(c: Cache)
    requires Inv(c)
    ensures FirstIdle(c, 0, 0).Some? <==> exists k :: 0 <= k < NBUF && c.bufs[k].refcnt == 0
  {
    if k :| 0 <= k < NBUF && c.bufs[k].refcnt == 0 {
      var s := c.table[Hash(c.bufs[k].blockno)];
      var q := IndexIn(s, k);
      assert IdleAt(c, Hash(c.bufs[k].blockno), q);
    }
  }

  /** bget panics with "bget: no buffers" exactly when no slot holds (dev, blockno) and
      every buffer is referenced (bio.c:101-146). */
  lemma GetNoBuffers(c: Cache, dev: nat, blockno: nat)
    requires Inv(c)
    ensures Get(c, dev, blockno) == NoBuffers
            <==> forall k :: 0 <= k < NBUF ==> !Holds(c.bufs[k], dev, blockno) && c.bufs[k].refcnt > 0
  {
    LookupComplete(c, dev, blockno);
    SomeIdleFound(c);
  }

  /** Whatever path bget takes, the buffer it returns holds the requested identity, has
      its refcount raised by exactly one and stays linked from bucket Hash(blockno); no
      other slot changes except by the eviction itself, and the invariant holds after. */
  lemma GetResult(c: Cache, dev: nat, blockno: nat)
    requires Inv(c)
    ensures Get(c, dev, blockno).Got? ==>
              var b := Get(c, dev, blockno).b;
              var c' := Get(c, dev, blockno).cache;
              && b < NBUF && Inv(c')
              && Holds(c'.bufs[b], dev, blockno)
              && c'.bufs[b].refcnt == c.bufs[b].refcnt + 1
              && b in c'.table[Hash(blockno)]
              && forall m :: 0 <= m < NBUF && m != b ==> c'.bufs[m] == c.bufs[m]
  {
    GetInv(c, dev, blockno);
    if Get(c, dev, blockno).Got? {
      EachSlotInOneBucket(Get(c, dev, blockno).cache);
    }
  }

  /** Fetching a block twice without releasing it returns the same buffer twice, with
      its refcount raised by two and its payload untouched by the second fetch. */
  lemma GetTwice(c: Cache, dev: nat, blockno: nat)
    requires Inv(c) && Get(c, dev, blockno).Got?
    ensures var o1 := Get(c, dev, blockno);
            var o2 := Get(o1.cache, dev, blockno);
            && o2.Got? && o2.b == o1.b
            && o2.cache.bufs[o1.b].refcnt == c.bufs[o1.b].refcnt + 2
            && o2.cache.bufs[o1.b].data == o1.cache.bufs[o1.b].data
            && o2.cache.bufs[o1.b].valid == o1.cache.bufs[o1.b].valid
  {
    var o1 := Get(c, dev, blockno);
    GetResult(c, dev, blockno);
    var c1 := o1.cache;
    BusyIsFirst(c1, o1.b);
  }

  /** The invariant speaks only of identities and refcounts: changing a buffer's valid
      flag or payload keeps it. */
  lemma PayloadChangeInv(c: Cache, k: nat, valid: bool, data: Block)
    requires Inv(c) && k < NBUF
    ensures Inv(Cache(c.bufs[k := c.bufs[k].(valid := valid, data := data)], c.table))
  {
    var bufs' := c.bufs[k := c.bufs[k].(valid := valid, data := data)];
    forall i | 0 <= i < NBUCKET ensures LaterIdleList(bufs', c.table[i]) {
      var s := c.table[i];
      forall p, q | 0 <= p < q < |s| && SameId(bufs'[s[p]], bufs'[s[q]]) ensures bufs'[s[q]].refcnt == 0 {
        assert SameId(c.bufs[s[p]], c.bufs[s[q]]);
      }
    }
  }

  // ---------------------------------------------------------------------------
  // The cache itself

  /** The hit case of Get as the refcount increment Checkout performs. */
  lemma GetHitStep(c: Cache, dev: nat, blockno: nat, j: nat)
    requires Inv(c) && Lookup(c.bufs, c.table[Hash(blockno)], dev, blockno, 0) == Some(j)
    ensures var b := c.table[Hash(blockno)][j];
      && b < NBUF
      && Get(c, dev, blockno) == Got(SetRefcnt(c, b, c.bufs[b].refcnt + 1), b)
      && Inv(SetRefcnt(c, b, c.bufs[b].refcnt + 1))
  {
    GetHitInv(c, dev, blockno);
  }

  /** The miss case of Get as the reassignment Recycle performs. */
  lemma GetMissStep(c: Cache, dev: nat, blockno: nat)
    requires Inv(c) && Lookup(c.bufs, c.table[Hash(blockno)], dev, blockno, 0).None?
    requires FirstIdle(c, 0, 0).Some?
    ensures var (i, j) := FirstIdle(c, 0, 0).value;
      var nb := Buf(dev, blockno, false, 1, c.bufs[c.table[i][j]].data);
      && ReassignOk(c, i, j, Hash(blockno), nb) && IdleAt(c, i, j)
      && Get(c, dev, blockno) == Got(Reassign(c, i, j, Hash(blockno), nb), c.table[i][j])
  {
  }

  /** Refcount bookkeeping: every buffer's refcount is the number of its outstanding
      bgets (held) plus the number of its outstanding pins (pinned). */
  ghost predicate Counted(bufs: seq<Buf>, held: seq<nat>, pinned: seq<nat>)
  {
    && |bufs| == NBUF && |held| == NBUF && |pinned| == NBUF
    && forall k :: 0 <= k < NBUF ==> bufs[k].refcnt == held[k] + pinned[k]
  }

  /** The cache invariant together with the refcount bookkeeping. */
  ghost predicate Sound(c: Cache, held: seq<nat>, pinned: seq<nat>)
  {
    Inv(c) && Counted(c.bufs, held, pinned)
  }

  /** No outstanding bgets or pins on any buffer. */
  const NoCounts: seq<nat> := seq(NBUF, _ => 0)

  /** binit's result on the zero-initialised slots is sound with nothing held or pinned. */
  lemma BinitSound(bufs: seq<Buf>)
    requires bufs == ZeroBufs()
    ensures Sound(Cache(bufs, BinitTable(bufs, NBUF)), NoCounts, NoCounts)
  {
    BinitInv(bufs);
    ZeroCounted();
  }

  /** The zeroed table with no outstanding bgets or pins is counted correctly. */
  lemma ZeroCounted()
    ensures Counted(ZeroBufs(), NoCounts, NoCounts)
  {
    forall k | 0 <= k < NBUF ensures ZeroBufs()[k].refcnt == 0 {
    }
  }

  /** One more count at index b. */
  function Inc(s: seq<nat>, b: nat): seq<nat>
    requires b < |s|
  {
    s[b := s[b] + 1]
  }

  /** One count fewer at index b. */
  function Dec(s: seq<nat>, b: nat): seq<nat>
    requires b < |s| && s[b] > 0
  {
    s[b := s[b] - 1]
  }

  /** bcache (bio.c:28-34).  The spinlocks are not modelled; who holds a buffer's sleep
      lock is the ghost count `held` of bgets not yet undone by brelse. */
  class BCache {
    /** bcache.buf: the NBUF slots. */
    const buf: array<Buf>
    /** bcache.table: per bucket, the slots its `next` list links, head first. */
    const table: array<seq<nat>>
    /** Per buffer, the bgets (or breads) not yet released by brelse: their callers hold,
        or are about to hold, the buffer's sleep lock. */
    ghost var held: seq<nat>
    /** Per buffer, the bpins not yet undone by bunpin. */
    ghost var pinned: seq<nat>

    ghost function State(): Cache
      reads this, buf, table
    {
      Cache(buf[..], table[..])
    }

    /** The hash-index invariant, and refcount bookkeeping: each buffer's refcount is
        the number of its outstanding bgets plus the number of its outstanding pins. */
    ghost predicate Valid()
      reads this, buf, table
    {
      && buf.Length == NBUF && table.Length == NBUCKET
      && Sound(State(), held, pinned)
    }

    /** binit (bio.c:36-66) run on the zero-initialised static table. */
    constructor Binit()
      ensures Valid() && fresh(buf) && fresh(table)
      ensures buf[..] == ZeroBufs() && table[..] == BinitTable(buf[..], NBUF)
      ensures held == NoCounts && pinned == NoCounts
    {
      buf := new Buf[NBUF](_ => ZeroBuf);
      table := new seq<nat>[NBUCKET](_ => []);
      held, pinned := NoCounts, NoCounts;
      new;
      assert buf[..] == ZeroBufs();
      LinkAll();
      BinitSound(buf[..]);
    }

    /** binit's loop (bio.c:45-51): push every slot onto the head of its bucket. */
    method LinkAll()
      requires buf.Length == NBUF && table[..] == BinitTable(buf[..], 0)
      modifies table
      ensures table[..] == BinitTable(buf[..], NBUF)
    {
      var k := 0;
      while k < NBUF
        invariant 0 <= k <= NBUF
        invariant table[..] == BinitTable(buf[..], k)
      {
        var hash := buf[k].blockno % NBUCKET;
        table[hash] := [k] + table[hash];
        k := k + 1;
      }
    }

    /** The hit search of bget (bio.c:78-96): walk a bucket's list for (dev, blockno). */
    method FindCached(list: seq<nat>, dev: nat, blockno: nat) returns (r: Option<nat>)
      requires Valid() && InRange(list, NBUF)
      ensures r == Lookup(buf[..], list, dev, blockno, 0)
    {
      var j := 0;
      while j < |list|
        invariant 0 <= j <= |list|
        invariant Lookup(buf[..], list, dev, blockno, j) == Lookup(buf[..], list, dev, blockno, 0)
      {
        var b := list[j];
        if buf[b].dev == dev && buf[b].blockno == blockno {
          return Some(j);
        }
        j := j + 1;
      }
      return None;
    }

    /** The eviction scan of bget (bio.c:101-134): buckets 0..NBUCKET-1, each list from
        its head, up to the first buffer with refcount 0. */
    method ScanIdle() returns (r: Option<(nat, nat)>)
      requires Valid()
      ensures r == FirstIdle(State(), 0, 0)
    {
      var i := 0;
      while i < NBUCKET
        invariant 0 <= i <= NBUCKET
        invariant FirstIdle(State(), i, 0) == FirstIdle(State(), 0, 0)
      {
        var l := table[i];
        var j := 0;
        while j < |l|
          invariant 0 <= j <= |l|
          invariant FirstIdle(State(), i, j) == FirstIdle(State(), 0, 0)
        {
          if buf[l[j]].refcnt == 0 {
            return Some((i, j));
          }
          j := j + 1;
        }
        i := i + 1;
      }
      return None;
    }

    /** The hit path of bget (bio.c:88-93): the cached buffer b, which holds (dev, blockno)
        and is the first to do so in its bucket, gets one more reference. */
    method Checkout(b: nat)
      requires Valid() && b < NBUF && Inv(SetRefcnt(State(), b, buf[b].refcnt + 1))
      modifies this, buf
      ensures Valid() && pinned == old(pinned) && held == Inc(old(held), b)
      ensures State() == SetRefcnt(old(State()), b, old(buf[b].refcnt) + 1)
    {
      var nb := buf[b].(refcnt := buf[b].refcnt + 1);
      buf[b] := nb;
      held := Inc(held, b);
    }

    /** The miss path of bget (bio.c:109-127): the idle buffer at slot j of bucket i takes
        the identity of nb (invalid, one reference) and moves from bucket i to the head
        of bucket h. */
    method Recycle(i: nat, j: nat, h: nat, nb: Buf) returns (b: nat)
      requires Valid() && ReassignOk(State(), i, j, h, nb) && IdleAt(State(), i, j)
      requires nb.refcnt == 1
      modifies this, buf, table
      ensures b == old(table[i][j]) && b < NBUF
      ensures Valid() && pinned == old(pinned) && held == Inc(old(held), b)
      ensures State() == Reassign(old(State()), i, j, h, nb)
    {
      ghost var s0 := State();
      var l := table[i];
      b := l[j];
      ReassignInv(s0, i, j, h, nb);
      assert held[b] == 0 && pinned[b] == 0;
      buf[b] := nb;
      if i != h {
        // unlink from bucket i, through the head or through prev->next, then push onto bucket h
        if j == 0 {
          assert l[1..] == Unlink(l, j);
          table[i] := l[1..];
        } else {
          table[i] := l[..j] + l[j + 1..];
        }
        table[h] := [b] + table[h];
        assert table[..] == s0.table[i := Unlink(l, j)][h := [b] + s0.table[h]];
      }
      held := Inc(held, b);
      assert State() == Reassign(s0, i, j, h, nb);
    }

    /** The first half of bget (bio.c:76-96): a hit in bucket Hash(blockno) takes one
        more reference; a miss changes nothing. */
    method BgetCached(dev: nat, blockno: nat) returns (r: Option<nat>)
      requires Valid()
      modifies this, buf
      ensures Valid() && pinned == old(pinned)
      ensures r.None? <==> Lookup(old(State()).bufs, old(State()).table[Hash(blockno)], dev, blockno, 0).None?
      ensures r.None? ==> State() == old(State()) && held == old(held)
      ensures r.Some? ==> Get(old(State()), dev, blockno) == Got(State(), r.value)
                          && held == Inc(old(held), r.value)
    {
      ghost var s0 := State();
      var hash := blockno % NBUCKET;
      var hit := FindCached(table[hash], dev, blockno);
      if hit.None? {
        return None;
      }
      var b := table[hash][hit.value];
      GetHitStep(s0, dev, blockno, hit.value);
      Checkout(b);
      return Some(b);
    }

    /** The second half of bget (bio.c:98-146), reached only after a miss: recycle the
        first idle buffer, or report that there is none. */
    method BgetRecycle(dev: nat, blockno: nat) returns (r: Option<nat>)
      requires Valid() && Lookup(State().bufs, State().table[Hash(blockno)], dev, blockno, 0).None?
      modifies this, buf, table
      ensures Valid() && pinned == old(pinned)
      ensures r.None? <==> Get(old(State()), dev, blockno).NoBuffers?
      ensures r.None? ==> State() == old(State()) && held == old(held)
      ensures r.Some? ==> Get(old(State()), dev, blockno) == Got(State(), r.value)
                          && held == Inc(old(held), r.value)
    {
      ghost var s0 := State();
      var idle := ScanIdle();
      if idle.None? {
        return None;
      }
      var (i, j) := idle.value;
      var nb := Buf(dev, blockno, false, 1, buf[table[i][j]].data);
      GetMissStep(s0, dev, blockno);
      var b := Recycle(i, j, blockno % NBUCKET, nb);
      return Some(b);
    }

    /** bget (bio.c:71-147): the hit search of bucket Hash(blockno), then the eviction
        scan over all buckets.  `None` stands for the panic "bget: no buffers". */
    method Bget(dev: nat, blockno: nat) returns (r: Option<nat>)
      requires Valid()
      modifies this, buf, table
      ensures Valid() && pinned == old(pinned)
      ensures Get(old(State()), dev, blockno).NoBuffers? ==>
                r.None? && State() == old(State()) && held == old(held)
      ensures Get(old(State()), dev, blockno).Got? ==>
                && r == Some(Get(old(State()), dev, blockno).b)
                && State() == Get(old(State()), dev, blockno).cache
                && held == Inc(old(held), r.value)
    {
      r := BgetCached(dev, blockno);
      if r.None? {
        r := BgetRecycle(dev, blockno);
      }
    }

    /** bread (bio.c:150-161): bget, then a device read only if the buffer is not valid.
        `disk` is what the device holds for (dev, blockno); `diskRead` says whether the
        device was asked. */
    method Bread(dev: nat, blockno: nat, disk: Block) returns (r: Option<nat>, diskRead: bool)
      requires Valid()
      modifies this, buf, table
      ensures Valid() && pinned == old(pinned)
      ensures Get(old(State()), dev, blockno).NoBuffers? ==>
                r.None? && !diskRead && State() == old(State()) && held == old(held)
      ensures Get(old(State()), dev, blockno).Got? ==>
                var o := Get(old(State()), dev, blockno);
                && r == Some(o.b)
                && diskRead == !o.cache.bufs[o.b].valid
                && State() == Cache(o.cache.bufs[o.b := o.cache.bufs[o.b].(
                                      valid := true,
                                      data := if diskRead then disk else o.cache.bufs[o.b].data)],
                                    o.cache.table)
                && held == Inc(old(held), o.b)
    {
      r := Bget(dev, blockno);
      diskRead := false;
      if r.Some? {
        diskRead := Fill(r.value, disk);
      }
    }

    /** The second half of bread (bio.c:156-159): a buffer that is not valid is read from
        the device and marked valid; a valid one is left alone. */
    method Fill(b: nat, disk: Block) returns (diskRead: bool)
      requires Valid() && b < NBUF
      modifies buf
      ensures Valid() && held == old(held) && pinned == old(pinned)
      ensures diskRead == !old(buf[b].valid)
      ensures State() == Cache(old(State()).bufs[b := old(buf[b]).(
                                 valid := true,
                                 data := if diskRead then disk else old(buf[b].data))],
                               old(State()).table)
    {
      ghost var s1 := State();
      diskRead := !buf[b].valid;
      if diskRead {
        buf[b] := buf[b].(data := disk);
        buf[b] := buf[b].(valid := true);
        PayloadChangeInv(s1, b, true, disk);
        assert State() == Cache(s1.bufs[b := s1.bufs[b].(valid := true, data := disk)], s1.table);
      } else {
        assert s1.bufs[b := s1.bufs[b].(valid := true, data := s1.bufs[b].data)] == s1.bufs;
      }
    }

    /** bwrite (bio.c:164-170): the caller must hold the buffer; the result is the write
        handed to the device: the buffer's identity and payload.  bwrite only passes the
        buffer through to the disk, so the contract's content is the absence of a modifies
        clause: the cache, its refcounts and its ghost counts are left as they were. */
    method Bwrite(b: nat) returns (w: (nat, nat, Block))
      requires Valid() && b < NBUF && held[b] > 0
      ensures b < NBUF && w == (buf[b].dev, buf[b].blockno, buf[b].data)
    {
      w := (buf[b].dev, buf[b].blockno, buf[b].data);
    }

    /** brelse (bio.c:173-187): the caller must hold the buffer; its refcount drops by one. */
    method Brelse(b: nat)
      requires Valid() && b < NBUF && held[b] > 0
      modifies this, buf
      ensures Valid() && b < NBUF
      ensures State() == SetRefcnt(old(State()), b, old(buf[b].refcnt) - 1)
      ensures held == Dec(old(held), b) && pinned == old(pinned)
    {
      ghost var c0 := State();
      var nb := buf[b].(refcnt := buf[b].refcnt - 1);
      BusyRefcntChangeInv(c0, b, nb.refcnt);
      buf[b] := nb;
      held := Dec(held, b);
      assert State() == SetRefcnt(c0, b, nb.refcnt);
    }

    /** bpin (bio.c:189-194): one more reference to a buffer that is already referenced. */
    method Bpin(b: nat)
      requires Valid() && b < NBUF && buf[b].refcnt > 0
      modifies this, buf
      ensures Valid()
      ensures State() == SetRefcnt(old(State()), b, old(buf[b].refcnt) + 1)
      ensures pinned == Inc(old(pinned), b) && held == old(held)
    {
      var nb := buf[b].(refcnt := buf[b].refcnt + 1);
      BusyRefcntChangeInv(State(), b, nb.refcnt);
      buf[b] := nb;
      pinned := Inc(pinned, b);
    }

    /** bunpin (bio.c:196-201): undoes one bpin. */
    method Bunpin(b: nat)
      requires Valid() && b < NBUF && pinned[b] > 0
      modifies this, buf
      ensures Valid() && b < NBUF
      ensures State() == SetRefcnt(old(State()), b, old(buf[b].refcnt) - 1)
      ensures pinned == Dec(old(pinned), b) && held == old(held)
    {
      var nb := buf[b].(refcnt := buf[b].refcnt - 1);
      BusyRefcntChangeInv(State(), b, nb.refcnt);
      buf[b] := nb;
      pinned := Dec(pinned, b);
    }
  }
}
