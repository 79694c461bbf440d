# xv6 buffer cache, per-CPU page allocator and three user programs

This project models five parts of an xv6 (RISC-V) kernel and user land, and proves
properties of the models.

- **Buffer cache** (`kernel/bio.c`, module `BufferCache`). `NBUF` buffers sit in a
  hash table of `NBUCKET` = 13 buckets keyed by `blockno % 13`. `bget` looks a block up in
  its bucket. On a miss it recycles the first idle buffer in bucket order (bucket 0 first,
  head first), moves it into the right bucket and relabels it. `bread`, `bwrite`, `brelse`,
  `bpin` and `bunpin` sit on top of `bget`.
  - The model is a class `BCache` holding the buffer array and the bucket lists.
  - Each intrusive `next` list becomes a sequence of slot indices.
  - Every method is tied to a value-level specification (`Get`, `Reassign`, `SetRefcnt`).
    Lemmas prove that each step keeps the hash-table invariant:
    - every buffer sits in exactly its own bucket;
    - of two buffers with the same identity, the later one is idle.
  - Ghost per-buffer counts of outstanding `bget`s (`held`) and `bpin`s (`pinned`) add up to
    each buffer's refcount.
- **Page allocator** (`kernel/kalloc.c`, module `PageAllocator`). There is one LIFO free
  list per CPU.
  - `kfree` pushes a page onto the calling CPU's list.
  - `kalloc` pops from the caller's own list, or steals from the others in round-robin
    order.
  - `kinit` hands each of the `NPROC` memory chunks to the allocator through `freerange`.
  - The model is a class `KMem` whose lists are sequences of page addresses.
  - Lemmas prove these properties:
    - allocation and free conserve the multiset of free pages;
    - no page is on two lists;
    - every free page is page-aligned and lies in `[end, PHYSTOP)`;
    - `kalloc` returns 0 exactly when every list is empty;
    - the steal order visits every other CPU exactly once.
- **primes** (`user/primes.c`, module `Primes`). The concurrent prime sieve sends numbers as
  4-byte decimal strings (`itoa`/`atoi`) through a chain of forked stages.
  - Each stage is modelled as a method over the messages it reads.
  - The chain of stages is the function `Pipeline`.
  - The proved result: the pipeline fed 2..34 prints exactly the primes below 35, in order.
- **find** (`user/find.c`, module `Find`). One directory level of `find` is modelled.
  - For a file: the last path component is cut out, reversed back and compared with the
    name sought.
  - For a directory: child paths are built in a 128-byte buffer, with `.`, `..`,
    empty names and free entries skipped.
- **xargs** (`user/xargs.c`, module `Xargs`). The character-by-character state machine
  splits standard input into lines and words and executes the command once per complete
  line.
  - The loop is a method over the source's fixed buffers (`args[MAXARG]`, a 64×65 word
    array).
  - The method is proved equal to the value-level machine `Run`.
  - A lemma proves `Run` equal to an independent line-by-line reference: split on `'\n'`,
    then on `' '`.

The modules `CString` (NUL-terminated strings, `strlen`, `strcmp`, `atoi`) and `Wrappers`
(`Option`) are shared.

## Model

| member | source | states |
|---|---|---|
| BufferCache.BCache.Binit | kernel/bio.c:36-66 | binit pushes each of the NBUF zeroed buffers onto the head of bucket `blockno % 13`; the result satisfies the cache invariant with no outstanding references |
| BufferCache.BCache.LinkAll | kernel/bio.c:45-51 | the loop over the buffers links every slot into the head of its hash bucket, leaving exactly the table `BinitTable` describes |
| BufferCache.BinitInv | kernel/bio.c:45-51 | after binit, slot k is in bucket i exactly when i is its hash, and the cache invariant holds |
| BufferCache.BinitZero | kernel/bio.c:45-51 | on the zero-initialised table, binit links all 30 buffers into bucket 0 in reverse slot order and leaves every other bucket empty |
| BufferCache.EachSlotInOneBucket | kernel/bio.c:28-34 | under the invariant every slot index in a bucket is a real buffer, and each buffer is in exactly the bucket of its hash |
| BufferCache.LookupComplete | kernel/bio.c:76-96 | searching only the block's own bucket finds a buffer exactly when some buffer in the whole cache holds (dev, blockno) |
| BufferCache.BCache.FindCached | kernel/bio.c:78-96 | the bucket walk returns the position of the first buffer on the list holding (dev, blockno), or none |
| BufferCache.BCache.ScanIdle | kernel/bio.c:101-134 | the recycling scan returns the first idle buffer in bucket-then-list order |
| BufferCache.SomeIdleFound | kernel/bio.c:101-134 | the recycling scan finds a buffer exactly when some buffer has refcount 0 |
| BufferCache.GetHit | kernel/bio.c:76-96 | when the block is cached, bget returns the first matching buffer of its bucket and only increments its refcount |
| BufferCache.GetMiss | kernel/bio.c:99-134 | when the block is not cached and a buffer is idle, bget relabels the first idle buffer in scan order as (dev, blockno, invalid, refcnt 1), keeps its data, and links it into the block's bucket |
| BufferCache.GetNoBuffers | kernel/bio.c:136-146 | bget runs out of buffers exactly when the block is not cached and every buffer is referenced |
| BufferCache.GetResult | kernel/bio.c:71-147 | a successful bget keeps the cache invariant, returns a buffer holding (dev, blockno) that is in its hash bucket, increments that buffer's refcount and changes no other buffer |
| BufferCache.GetInv | kernel/bio.c:71-147 | bget preserves the cache invariant |
| BufferCache.GetTwice | kernel/bio.c:71-147 | a second bget of the same block hits the buffer the first returned, adding one more reference and keeping its data and valid flag |
| BufferCache.BusyUnique | kernel/bio.c:99-134 | no two referenced buffers hold the same block |
| BufferCache.BusyIsFirst | kernel/bio.c:81-95 | a referenced buffer is the first match in its bucket, so every bget of its block finds that buffer |
| BufferCache.UnlinkMembers | kernel/bio.c:113-117 | unlinking the j-th buffer of a bucket removes exactly that buffer and keeps the list duplicate-free |
| BufferCache.ReassignInv | kernel/bio.c:106-122 | relabelling an idle buffer and moving it to the head of its new bucket preserves the cache invariant |
| BufferCache.RefcntChangeInv | kernel/bio.c:84 | changing the refcount of a buffer that no earlier buffer in its bucket shadows preserves the invariant |
| BufferCache.BusyRefcntChangeInv | kernel/bio.c:192 | changing the refcount of a referenced buffer preserves the invariant |
| BufferCache.PayloadChangeInv | kernel/bio.c:156-159 | overwriting a buffer's data and valid flag preserves the invariant |
| BufferCache.BCache.Bget | kernel/bio.c:71-147 | bget makes the cache state that `Get` specifies and returns its buffer, recording one more outstanding reference; when no buffer is free it returns none and changes nothing |
| BufferCache.BCache.BgetCached | kernel/bio.c:76-96 | the bucket search finds a buffer exactly when the block is cached in its bucket; a hit makes the state `Get` specifies and records one more reference, a miss changes nothing |
| BufferCache.BCache.Checkout | kernel/bio.c:83-84 | the hit path raises only the found buffer's refcount by one and records the reference |
| BufferCache.BCache.BgetRecycle | kernel/bio.c:99-146 | after a miss, recycling fails exactly when every buffer is referenced; otherwise it makes the state `Get` specifies and records one reference |
| BufferCache.BCache.Recycle | kernel/bio.c:106-122 | the idle buffer found is relabelled and moved to the head of the block's bucket, as `Reassign` specifies, keeping the invariant |
| BufferCache.BCache.Bread | kernel/bio.c:150-161 | bread does bget, reads the disk exactly when the buffer was not valid, and then marks it valid |
| BufferCache.BCache.Fill | kernel/bio.c:156-159 | reads the disk exactly when the buffer is not valid, and then the buffer is valid holding the disk's data or its old data; nothing else changes |
| BufferCache.BCache.Bwrite | kernel/bio.c:164-170 | bwrite, on a buffer its caller holds, hands the disk the buffer's own dev, blockno and data |
| BufferCache.BCache.Brelse | kernel/bio.c:173-187 | brelse, on a held buffer, decrements its refcount and ends one outstanding reference, keeping the invariant |
| BufferCache.BCache.Bpin | kernel/bio.c:189-194 | bpin increments the refcount and records a pin |
| BufferCache.BCache.Bunpin | kernel/bio.c:196-201 | bunpin, on a pinned buffer, decrements the refcount and removes one pin |
| PageAllocator.PgRoundUp | kernel/kalloc.c:42 | PGROUNDUP gives the least page-aligned address not below its argument |
| PageAllocator.PagesExactly | kernel/kalloc.c:38-45 | freerange frees exactly the page-aligned pages lying wholly in [PGROUNDUP(lo), hi), in ascending order |
| PageAllocator.PushConserves | kernel/kalloc.c:69-71 | kfree adds exactly the freed page to the multiset of free pages |
| PageAllocator.PushKeeps | kernel/kalloc.c:56-71 | freeing a valid page not already free keeps every free page valid and the free pages duplicate-free |
| PageAllocator.AllocChoice | kernel/kalloc.c:78-118 | kalloc returns 0 and changes nothing when every list is empty; otherwise it pops the head of the nearest non-empty list in the order own CPU, then cid+1, cid+2, … mod NPROC (the steal loop with its start corrected to `(cid + 1) % NPROC`) |
| PageAllocator.AllocConserves | kernel/kalloc.c:78-118 | a successful kalloc removes exactly the returned page from the multiset of free pages |
| PageAllocator.AllocZero | kernel/kalloc.c:114-117 | kalloc returns 0 exactly when all free lists are empty |
| PageAllocator.AllocKeeps | kernel/kalloc.c:92-112 | kalloc keeps every free page valid and duplicate-free, and the page it returns is then on no free list |
| PageAllocator.VictimDist | kernel/kalloc.c:103 | the k-th list the steal loop visits is another CPU's, at round-robin distance k+1 from the caller |
| PageAllocator.Steal | kernel/kalloc.c:103-112 | the steal loop stops at the first non-empty list in visiting order; every list it skips is empty |
| PageAllocator.StealScan | kernel/kalloc.c:103-112 | for a caller with an empty list, each step of the steal loop either stops at the caller with nothing found, takes the head of a non-empty victim as `Alloc` does, or moves on to the next CPU |
| PageAllocator.KinitListValid | kernel/kalloc.c:28-36 | every page kinit frees is valid and lies below the end of the chunks handed out |
| PageAllocator.RoundPages | kernel/kalloc.c:33-34 | round i of kinit pushes the pages of chunk i, in descending order, all valid and inside the chunk |
| PageAllocator.KinitListDescending | kernel/kalloc.c:28-45 | kinit leaves the free list strictly descending (each kfree pushes a higher page than the last) |
| PageAllocator.KinitSound | kernel/kalloc.c:28-36 | after kinit every free page is valid and no page is free twice |
| PageAllocator.KMem.Kinit | kernel/kalloc.c:28-36 | kinit, running on CPU cid, leaves exactly the kinit page list on cid's free list and every other list empty |
| PageAllocator.KMem.FreeChunk | kernel/kalloc.c:33-34 | one round of kinit puts every page of its chunk, last page on top, onto the caller's list and keeps the lists valid |
| PageAllocator.KMem.Kfree | kernel/kalloc.c:51-73 | kfree accepts exactly the page-aligned addresses in [end, PHYSTOP) and pushes the page onto the calling CPU's list; anything else is rejected with no change |
| PageAllocator.KMem.Freerange | kernel/kalloc.c:38-45 | freerange pushes the longest valid prefix of the range's pages onto the caller's list, last page on top, and reports whether the whole range was valid |
| PageAllocator.KMem.Kalloc | kernel/kalloc.c:78-118 | kalloc, with the steal loop's start corrected to `(cid + 1) % NPROC`, changes the free lists and returns the page exactly as `Alloc` specifies |
| PageAllocator.KMem.StealPage | kernel/kalloc.c:102-117 | with the caller's list empty, the steal loop, started at the corrected `(cid + 1) % NPROC`, pops the head of the first non-empty list after cid, or returns 0 with nothing changed, as `Alloc` specifies |
| PageAllocator.AsWrittenStealOutOfRange | kernel/kalloc.c:103 | on the last CPU the loop as written visits index NPROC first, outside freelists, and never visits CPU 0 |
| PageAllocator.AsWrittenStealAgrees | kernel/kalloc.c:103 | on every other CPU the loop as written visits the same lists as the corrected one |
| PageAllocator.StealOrderVisitsOthers | kernel/kalloc.c:103 | with the start reduced mod NPROC, the loop visits every other CPU exactly once, in round-robin order |
| Primes.Reverse | user/primes.c:9-19 | reverse reverses the C string in place and leaves the NUL and what follows it alone |
| Primes.Mirror | user/primes.c:14-18 | the i/j swap loop leaves the first n characters in mirror order and the rest untouched |
| CString.ReverseCProps | user/primes.c:9-19 | reverse keeps the string length and undoes itself |
| Primes.EmitDigits | user/primes.c:27-30 | the do-while loop writes the decimal digits of n, least significant first |
| Primes.LowDigitsReversed | user/primes.c:28-34 | the digits the loop writes, reversed, are the usual decimal representation |
| Primes.ItoaBackwards | user/primes.c:25-33 | before its reverse, itoa leaves in s the representation reversed, followed by a NUL |
| Primes.Itoa | user/primes.c:21-35 | itoa writes the decimal representation of n (a leading '-' for negatives) followed by a NUL and leaves the rest of s alone |
| Primes.ItoaTextShape | user/primes.c:21-35 | itoa's text is the digits of \|n\|, with '-' in front for negatives, and atoi reads a non-negative one back as n |
| Primes.ItoaZero | user/primes.c:28-30 | the do-while loop emits "0" for 0 |
| Primes.DigitsShort | user/primes.c:44-45 | every number below 10000 fits in INT_SIZE characters |
| Primes.WireRoundTrip | user/primes.c:53-62 | a number itoa wrote into the 5-byte buffer comes back through atoi of the 4 bytes sent |
| Primes.DecodeBound | user/primes.c:50-59 | any 4-byte message decodes to less than 10000 |
| Primes.Send | user/primes.c:61-62 | a number below 10000 is sent as a 4-byte message that decodes back to it |
| Primes.Feed | user/primes.c:84-87 | main sends the numbers LOW..HIGH-1, 2 to 34, in order |
| Primes.FilterMembers | user/primes.c:56-64 | a stage forwards exactly the numbers not divisible by its prime, each as often as it arrives |
| Primes.FilterConcat | user/primes.c:56-64 | filtering a stream in two parts gives the filtered parts concatenated |
| Primes.ReadInto | user/primes.c:50-59 | read into buf followed by atoi gives the message's value, and the trailing NUL survives |
| Primes.Stage | user/primes.c:48-69 | a stage with no input forwards nothing; otherwise its prime is the first number read and it forwards, in order, exactly the later numbers the prime does not divide |
| Primes.Forward | user/primes.c:56-64 | the forwarding loop sends, in order, exactly the later numbers the prime does not divide, each as a 4-byte message |
| Primes.Pass | user/primes.c:57-63 | one turn sends the message's number on exactly when the prime does not divide it |
| Primes.FilterSift | user/primes.c:60 | passing numbers with no divisor below p through stage p leaves those with no divisor below p+1 |
| Primes.CompositeSkipped | user/primes.c:48-69 | a composite p never reaches the head of a stage: sifting at p and at p+1 agree |
| Primes.SieveFrom | user/primes.c:38-73 | the stage chain fed the numbers in [p, h) with no divisor below p prints exactly the primes of [p, h) |
| Primes.PipelineCons | user/primes.c:48-67 | a stage prints its first number and hands the filtered rest to the next stage |
| Primes.SievePrintsPrimes | user/primes.c:75-94 | the program prints exactly the primes between 2 and 34, in increasing order |
| Find.Reverse | user/find.c:10-20 | the n/2 swaps reverse the C string in place and leave everything from the NUL on alone |
| Find.Mirror | user/find.c:15-19 | the n/2 swaps leave the first n characters in mirror order and the rest untouched |
| Find.LastComponentProps | user/find.c:44-51 | the component cut out is a suffix of the path without '/', preceded by '/' or the whole path |
| Find.LastComponentAfterSlash | user/find.c:66-78 | the last component of dir + "/" + name is name when name has no '/' |
| Find.ScanLoop | user/find.c:45-51 | the scan stops at the last '/' (or before the path), having copied everything after it into suffix backwards and left the rest of suffix alone |
| Find.ScanBack | user/find.c:44-51 | the backward scan copies the last component into suffix in reverse order |
| Find.CutSuffix | user/find.c:44-53 | after the NUL and reverse, suffix holds the last component of the path as a C string |
| Find.MatchFile | user/find.c:41-58 | a file path is printed exactly when its last component equals the name sought |
| CString.Strcmp | user/find.c:55 | strcmp returns 0 exactly when the two C strings are equal |
| Find.AsWrittenCheckOverflows | user/find.c:62-78 | a 113-character path passes the length check as written, yet its child's NUL lands at buf[128], one past the buffer |
| Find.TooLongCorrects | user/find.c:62-78 | the corrected check rejects the same paths plus those of length 113, and every path it accepts leaves room for "/", 14 name bytes and the NUL |
| Find.SkipEntry | user/find.c:70-75 | an entry is skipped exactly when its inum is 0 or its name is "", "." or ".." |
| Find.KeptMeans | user/find.c:69-80 | the entries find descends into are exactly the non-skipped ones, each as often as it occurs |
| Find.Strcpy | user/find.c:66-67 | strcpy copies the path's string and its NUL into buf, and p ends up at the NUL |
| Find.Memmove | user/find.c:77 | memmove copies the 14 name bytes at p and touches nothing else |
| Find.PlaceName | user/find.c:77-78 | writing the name and the NUL after "path/" makes buf the child's path |
| Find.DirChildren | user/find.c:61-82 | a path failing the corrected length check (which also counts the '/') yields no children; otherwise find recurses, in directory order, once per kept entry, on path + "/" + the entry's name |
| Find.EachChild | user/find.c:69-81 | the entry loop builds one child buffer per kept entry, in directory order, each holding path + "/" + the entry's name |
| Find.ChildMatches | user/find.c:77-79 | for a name without '/', the last component of the child path built from it is the name's string, so the recursive call on a file child compares the entry's own name |
| Xargs.RunConcat | user/xargs.c:29-73 | feeding the input in two parts runs the state machine on the parts one after the other |
| Xargs.PiecesSplit | user/xargs.c:63-72 | a line splits at each ' ' into pieces without spaces that join back to the line, one more than its spaces |
| Xargs.MachineLine | user/xargs.c:63-72 | within a line the closed words and the partial word are its pieces, and nothing is executed |
| Xargs.LineExecuted | user/xargs.c:34-59 | a newline executes argv followed by the line's words (a trailing empty piece dropped) and resets the word state |
| Xargs.UnterminatedIgnored | user/xargs.c:30-31 | a last line without a newline is never executed |
| Xargs.XargsExecsLines | user/xargs.c:29-73 | xargs executes once per newline-terminated line, in order, with argv followed by that line's space-separated words |
| Xargs.RunIsReference | user/xargs.c:29-73 | started at the beginning of a line, the machine appends to its executions exactly the vectors of the line-by-line reference |
| Xargs.ClosedRow | user/xargs.c:36-38 | a word closed with its NUL reads back as that word through its row of the line buffer |
| Xargs.CloseWord | user/xargs.c:36-38 | closing a word NUL-terminates its row and starts an empty next word |
| Xargs.VectorOf | user/xargs.c:44-49 | exec's argument vector is the entries before the first null pointer |
| Xargs.ExecLine | user/xargs.c:41-50 | the vector passed to exec is argv followed by the current line's words |
| Xargs.FillWords | user/xargs.c:44-46 | after argc, the slots of args point at the strings of the line's words, and the command's own arguments are kept |
| Xargs.VectorIs | user/xargs.c:44-49 | args holding argv, then the words' strings, then a null pointer is exactly the vector argv followed by the words |
| Xargs.RunXargs | user/xargs.c:10-77 | the loop over the fixed buffers executes exactly the command vectors the state machine `Run` produces |
| Xargs.Feed | user/xargs.c:34-72 | one character updates the word counters and buffers as the machine's `Step` does, and executes a vector exactly at a newline |

## Left out

- Locks, sleep locks, interrupts and concurrency (bio.c:77-134, kalloc.c:65-72 and 92-111) are not modelled. Each operation runs atomically. The refcount race checks and their panics and `printf` dumps (bio.c:83-89, 136-145, 180-186) are left out for the same reason.
- Brelse, Bpin, Bunpin: each runs atomically here. The model does not cover brelse decrementing `refcnt` after `releasesleep` without holding any bucket lock (bio.c:179-181), nor bpin/bunpin changing `refcnt` under `bcache.lock` instead of the bucket lock `bget` holds (bio.c:191-199); both races are outside a sequential model.
- AllocChoice / Kalloc / StealPage: these model the steal loop with its start corrected to `(cid + 1) % NPROC`, not the `cid + 1` of kalloc.c:103. They differ from the source only for cid = NPROC - 1 with an empty own list, where the source first reads `freelists[NPROC]` and never tries CPU 0 (see Findings).
- DirChildren: this models the corrected length check `strlen(path) + 1 + DIRSIZ + 1 > 128`, not the check of find.c:62. They differ only for strlen(path) = 113, which the source accepts and then overflows `buf` by one byte, and which the model refuses (see Findings).
- Panics are modelled by their cause. `bget` running out of buffers returns none and changes nothing. An invalid `kfree` is rejected with no change. Releasing or writing a buffer the caller does not hold is excluded by a precondition on `Bwrite`/`Brelse`.
- Disk I/O (`virtio_disk_rw`) is a parameter: `Bread` takes the block's disk contents, and `Bwrite` returns what it would write.
- `cpuid()` is a parameter `cid`. The `memset` junk fills of kalloc.c:60 and 116 are not modelled, because page contents are not part of the model.
- Addresses and counters are unbounded naturals. The `uint`/`uint64` widths never matter for the values the model reaches.
- `kernel/param.h` and `kernel/fs.h` are not part of this model. Their constants are fixed here: NBUF = 30, NPROC = 64, MAXARG = 32 and DIRSIZ = 14. KERNBASE and PHYSTOP follow the RISC-V memory layout.
- In primes, `fork`, `pipe`, `close`, `wait` and `exit` are left out. The pipe between stages is the sequence of messages written into it; the recursion of stages is `Pipeline`; `printf` is the stage's returned prime.
- Each `read` on a pipe is taken to return one whole 4-byte message. Short reads are not modelled.
- In find, `open`, `fstat`, directory `read` and `printf` are not modelled. The directory's entries are a parameter of `DirChildren`. The recursion over the file system is left out: `DirChildren` returns the child paths find would recurse on. The `T_DEVICE` case shares the `T_FILE` code that `MatchFile` models. The `cannot open`/`cannot stat` error returns and `main`'s usage check (find.c:30-39, 87-101) are left out.
- In xargs, `read` of standard input is the input sequence, and `fork`/`exec`/`wait` are the list of executed vectors. `malloc`/`free` of the word buffers become the local 64×65 array. `main`'s usage check (xargs.c:79-88) is left out.
- The word buffers are shared between lines, and each exec gets pointers into them. The model copies each word's string at exec time, which is what the child sees.
- `kernel/sysproc.c`, `user/pingpong.c` and `user/sleep.c` are not modelled.
- Stage: requires that a stage with more than one input number has a nonzero first number. The source would divide by zero there, and the program never sends 0.
- Itoa: requires |n| ≤ 2^31 − 1. `-n` overflows for INT_MIN, and primes only sends 2..34.
- MatchFile: requires the last component to be shorter than 128 characters. The source copies it into `suffix[128]` unchecked.
- RunXargs: requires `Fits`. Under it every step writes inside the buffers: a line has at most 64 words, a word at most 64 characters, and argv plus the line's words leave room in `args[MAXARG]` for the null terminator. The source checks none of this and writes past its buffers otherwise.
- Bpin: requires the buffer to be referenced already. The callers only pin buffers they hold, and the hash-table invariant relies on it.

## Findings

| source | as written | input that shows it | evidently intended | confidence | as-written member | corrected member |
|---|---|---|---|---|---|---|
| kernel/kalloc.c:103 | the steal loop starts at `i = cid + 1` without reducing it mod NPROC | `cid = NPROC - 1` (the last CPU) and an empty own list: the loop reads `freelists[64]`, outside the array, and never reaches CPU 0 | start at `(cid + 1) % NPROC`, so that every other CPU's list is tried once | not executed | PageAllocator.AsWrittenStealOutOfRange | PageAllocator.StealOrderVisitsOthers |
| user/find.c:62 | the length check is `strlen(path) + DIRSIZ + 1 > sizeof buf` | a directory path of 113 characters passes the check; `buf` then holds 113 + 1 ('/') + 14 name bytes, and `p[DIRSIZ] = 0` writes buf[128] | also count the '/', i.e. `strlen(path) + 1 + DIRSIZ + 1 > sizeof buf` | not executed | Find.AsWrittenCheckOverflows | Find.TooLongCorrects |
