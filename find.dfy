/** user/find.c: the string work of `find path file`.  For a file or device the last
    component of the path is cut out, reversed back into order and compared with the name
    looked for; for a directory every entry other than the empty, unused, "." and ".." ones
    gives a child path that find is called on again.  open, fstat, read of directory entries,
    printf and the recursion over the file system are not modelled: the entries of a
    directory are a parameter, and each operation returns what find would print or recurse
    on. */
module Find {
  import opened CString

  const BUF_SIZE: nat := 128
  /** kernel/fs.h: the length of a directory entry's name field. */
  const DIRSIZ: nat := 14

  /** A struct dirent as read from a directory: its inode number and its DIRSIZ-byte name,
      NUL-padded when shorter (a name of exactly DIRSIZ characters has no NUL). */
  datatype Dirent = Dirent(inum: nat, name: seq<char>)

  // ---------------------------------------------------------------------------------------
  // reverse

  /** reverse (find.c:10-20): swap str[i] and str[n-1-i] for i below n/2. */
  method Reverse(str: array<char>)
    requires HasNul(str[..])
    modifies str
    ensures str[..] == ReverseC(old(str[..]))
  {
    ghost var s0 := str[..];
    ReverseCIndex(s0);
    var n := Strlen(str[..]);
    Mirror(str, n);
    assert forall k :: 0 <= k < str.Length ==> str[k] == ReverseC(s0)[k];
  }

  /** reverse's loop over the first n characters of str: they end up in mirror order. */
  method Mirror(str: array<char>, n: nat)
    requires n <= str.Length
    modifies str
    ensures forall k :: 0 <= k < n ==> str[k] == old(str[n - 1 - k])
    ensures forall k :: n <= k < str.Length ==> str[k] == old(str[k])
  {
    ghost var s0 := str[..];
    var i := 0;
    while i < n / 2
      invariant 0 <= i <= n / 2
      invariant forall k :: 0 <= k < i ==> str[k] == s0[n - 1 - k] && str[n - 1 - k] == s0[k]
      invariant forall k :: i <= k < n - i ==> str[k] == s0[k]
      invariant forall k :: n <= k < str.Length ==> str[k] == s0[k]
    {
      var tmp := str[i];
      str[i] := str[n - 1 - i];
      str[n - 1 - i] := tmp;
      i := i + 1;
    }
  }

  // ---------------------------------------------------------------------------------------
  // the last component of a path

  /** The characters after the last '/' of p, or all of p when it has no '/'. */
  function LastComponent(p: seq<char>): (r: seq<char>)
  {
    if p == [] || p[|p| - 1] == '/' then [] else LastComponent(p[..|p| - 1]) + [p[|p| - 1]]
  }

  /** The last component ends p, has no '/', and what comes before it is empty or ends in
      '/': it starts just after the last '/'. */
  lemma {:induction false} LastComponentProps(p: seq<char>)
    ensures |LastComponent(p)| <= |p| && p[|p| - |LastComponent(p)|..] == LastComponent(p)
    ensures '/' !in LastComponent(p)
    ensures |LastComponent(p)| == |p| || p[|p| - |LastComponent(p)| - 1] == '/'
    ensures '/' !in p ==> LastComponent(p) == p
  {
    if p != [] && p[|p| - 1] != '/' {
      var q := p[..|p| - 1];
      LastComponentProps(q);
      assert p == q + [p[|p| - 1]];
      assert p[|p| - |LastComponent(p)|..] == q[|q| - |LastComponent(q)|..] + [p[|p| - 1]];
      if '/' !in p {
        assert '/' !in q by {
          forall k | 0 <= k < |q| ensures q[k] != '/' {
            assert q[k] == p[k];
          }
        }
      }
    }
  }

  lemma {:induction false} LastComponentAfterSlash(dir: seq<char>, name: seq<char>)
    requires '/' !in name
    ensures LastComponent(dir + ['/'] + name) == name
  {
    if name == [] {
      assert dir + ['/'] + name == dir + ['/'];
    } else {
      var init := name[..|name| - 1];
      assert dir + ['/'] + name == (dir + ['/'] + init) + [name[|name| - 1]];
      assert (dir + ['/'] + name)[..|dir + ['/'] + name| - 1] == dir + ['/'] + init;
      assert '/' !in init by {
        forall k | 0 <= k < |init| ensures init[k] != '/' {
          assert init[k] == name[k];
        }
      }
      LastComponentAfterSlash(dir, init);
      assert name == init + [name[|name| - 1]];
    }
  }

  // ---------------------------------------------------------------------------------------
  // a file or a device: compare the last component with the name looked for

  /** The T_FILE / T_DEVICE case of find (find.c:41-58): path is printed exactly when its
      last component is the name looked for.  The component must fit in the 128-byte suffix
      buffer, which find.c does not check. */
  method MatchFile(path: seq<char>, file: seq<char>) returns (printed: bool)
    requires HasNul(path) && HasNul(file)
    requires |LastComponent(CStr(path))| < BUF_SIZE
    ensures printed <==> LastComponent(CStr(path)) == CStr(file)
  {
    var suffix := new char[BUF_SIZE];
    var comp := CutSuffix(path, suffix);
    CStrOf(comp, suffix[|comp|..]);
    printed := Strcmp(suffix[..], file) == 0;
  }

  /** find.c:44-53: copy the characters after the last '/' into suffix backwards, end them
      with a NUL and reverse them into order. */
  method CutSuffix(path: seq<char>, suffix: array<char>) returns (ghost comp: seq<char>)
    requires HasNul(path) && suffix.Length == BUF_SIZE
    requires |LastComponent(CStr(path))| < BUF_SIZE
    modifies suffix
    ensures comp == LastComponent(CStr(path)) && NUL !in comp
    ensures suffix[..] == comp + ([NUL] + old(suffix[|comp| + 1..]))
  {
    ghost var s0 := suffix[..];
    var len := ScanBack(path, suffix);
    comp := LastComponent(CStr(path));
    ghost var pre := suffix[..];
    suffix[len] := NUL;
    assert suffix[..] == pre[len := NUL];
    WriteAfter(Reversed(comp), s0[|comp|..], NUL);
    ReversedMembers(comp);
    ReverseCOf(Reversed(comp), [NUL] + s0[|comp| + 1..]);
    ReversedTwice(comp);
    Reverse(suffix);
  }

  /** The backwards scan of find.c:44-51: suffix takes the last component of path, last
      character first; the result is its length, pathlen - i - 1 at the end of the scan. */
  method ScanBack(path: seq<char>, suffix: array<char>) returns (len: nat)
    requires HasNul(path) && suffix.Length == BUF_SIZE
    requires |LastComponent(CStr(path))| < BUF_SIZE
    modifies suffix
    ensures len == |LastComponent(CStr(path))| && NUL !in LastComponent(CStr(path))
    ensures suffix[..] == Reversed(LastComponent(CStr(path))) + old(suffix[len..])
  {
    ghost var x := CStr(path);
    ghost var s0 := suffix[..];
    var pathlen := Strlen(path);
    assert path[..pathlen] == x;
    var i := ScanLoop(path, pathlen, suffix);
    ScanEnd(x, i);
    len := pathlen - i - 1;
    MirrorSlice(path, i + 1, pathlen, suffix[..], s0);
    assert x[i + 1..] == path[i + 1..pathlen];
    assert old(suffix[len..]) == s0[len..];
  }

  /** The loop of find.c:47-51: from the end of the string back to the last '/', each
      character is written to the next place of suffix. */
  method ScanLoop(path: seq<char>, pathlen: nat, suffix: array<char>) returns (i: int)
    requires pathlen <= |path| && suffix.Length == BUF_SIZE
    requires |LastComponent(path[..pathlen])| < BUF_SIZE
    modifies suffix
    ensures -1 <= i < pathlen && (i == -1 || path[i] == '/')
    ensures forall k :: i < k < pathlen ==> path[k] != '/'
    ensures pathlen - i - 1 < BUF_SIZE
    ensures forall k :: 0 <= k < pathlen - i - 1 ==> suffix[k] == path[pathlen - 1 - k]
    ensures forall k :: pathlen - i - 1 <= k < BUF_SIZE ==> suffix[k] == old(suffix[k])
  {
    i := pathlen - 1;
    while i >= 0
      invariant -1 <= i < pathlen && pathlen - i - 1 < BUF_SIZE
      invariant forall k :: i < k < pathlen ==> path[k] != '/'
      invariant forall k :: 0 <= k < pathlen - i - 1 ==> suffix[k] == path[pathlen - 1 - k]
      invariant forall k :: pathlen - i - 1 <= k < BUF_SIZE ==> suffix[k] == old(suffix[k])
    {
      if path[i] == '/' {
        break;
      }
      TailFits(path[..pathlen], i);
      suffix[pathlen - i - 1] := path[i];
      i := i - 1;
    }
  }

  /** A tail of x without '/' lies inside the last component. */
  lemma {:induction false} TailFits(x: seq<char>, j: nat)
    requires j <= |x| && forall k :: j <= k < |x| ==> x[k] != '/'
    ensures |x| - j <= |LastComponent(x)|
    decreases |x|
  {
    if j < |x| {
      TailFits(x[..|x| - 1], j);
    }
  }

  /** Where the scan stops, at a '/' or before the first character, the last component is
      what it has passed over. */
  lemma ScanEnd(x: seq<char>, i: int)
    requires -1 <= i < |x| && (i == -1 || x[i] == '/') && NUL !in x
    requires forall k :: i < k < |x| ==> x[k] != '/'
    ensures LastComponent(x) == x[i + 1..] && NUL !in LastComponent(x)
  {
    LastComponentTail(x, i + 1);
    NoNulAfter(x, i + 1);
  }

  lemma {:induction false} LastComponentTail(x: seq<char>, j: nat)
    requires j <= |x| && (j == 0 || x[j - 1] == '/')
    requires forall k :: j <= k < |x| ==> x[k] != '/'
    ensures LastComponent(x) == x[j..]
    decreases |x|
  {
    if j < |x| {
      LastComponentTail(x[..|x| - 1], j);
      assert x[j..] == x[..|x| - 1][j..] + [x[|x| - 1]];
    }
  }

  lemma NoNulAfter(x: seq<char>, i: nat)
    requires NUL !in x && i <= |x|
    ensures NUL !in x[i..]
  {
    forall k | i <= k < |x| ensures x[k] != NUL { }
  }

  // ---------------------------------------------------------------------------------------
  // a directory: the length check, the entries skipped and the child paths

  /** The length check as find.c:62 writes it. */
  predicate TooLongAsWritten(path: seq<char>)
  {
    Strlen(path) + DIRSIZ + 1 > BUF_SIZE
  }

  /** The check the child-path construction needs: the path, the '/', DIRSIZ name bytes and
      the NUL must fit in buf, as xv6's ls.c checks it. */
  predicate TooLong(path: seq<char>)
  {
    Strlen(path) + 1 + DIRSIZ + 1 > BUF_SIZE
  }

  /** The length check as written lets through a 113-character path, for which the child
      path's NUL (find.c:78) lands at buf[128], one past the end of buf. */
  lemma AsWrittenCheckOverflows()
    ensures var path := seq(113, k => 'a') + [NUL];
      !TooLongAsWritten(path) && Strlen(path) + 1 + DIRSIZ == BUF_SIZE
  {
    var path := seq(113, k => 'a') + [NUL];
    CStrOf(seq(113, k => 'a'), [NUL]);
  }

  /** The corrected check refuses exactly what the written one refuses, and the one length
      at which the NUL would fall outside buf. */
  lemma TooLongCorrects(path: seq<char>)
    ensures TooLong(path) <==> TooLongAsWritten(path) || Strlen(path) == BUF_SIZE - DIRSIZ - 1
    ensures !TooLong(path) ==> Strlen(path) + 1 + DIRSIZ < BUF_SIZE
  {
  }

  /** The entries a directory listing leaves out: unused slots and the names "", "." and
      "..". */
  predicate Skipped(d: Dirent)
  {
    d.inum == 0 || CStr(d.name) in {"", ".", ".."}
  }

  /** The skip test of find.c:70-75, comparing the name with strcmp as find.c does.  The
      name is compared as followed by a NUL; against "", "." and ".." strcmp stops by the
      third byte whatever follows, so this changes nothing. */
  method SkipEntry(de: Dirent) returns (skip: bool)
    ensures skip <==> Skipped(de)
  {
    CStrPadded(de.name);
    CStrOf([], [NUL]);
    CStrOf(".", [NUL]);
    CStrOf("..", [NUL]);
    var name := de.name + [NUL];
    if de.inum == 0 || Strcmp(name, [NUL]) == 0 {
      return true;
    }
    if Strcmp(name, ".\0") == 0 || Strcmp(name, "..\0") == 0 {
      return true;
    }
    return false;
  }


  /** The entries find recurses into, in directory order. */
  function Kept(es: seq<Dirent>): seq<Dirent>
  {
    if es == [] then []
    else Kept(es[..|es| - 1]) + (if Skipped(es[|es| - 1]) then [] else [es[|es| - 1]])
  }

  /** find recurses into exactly the entries that are not skipped, each as often as it occurs. */
  lemma {:induction false} KeptMeans(es: seq<Dirent>, d: Dirent)
    ensures d in Kept(es) <==> d in es && !Skipped(d)
    ensures multiset(Kept(es))[d] == if Skipped(d) then 0 else multiset(es)[d]
  {
    if es != [] {
      var init := es[..|es| - 1];
      KeptMeans(init, d);
      assert es == init + [es[|es| - 1]];
    }
  }

  lemma KeptStep(es: seq<Dirent>, j: nat)
    requires j < |es|
    ensures Kept(es[..j + 1]) == Kept(es[..j]) + (if Skipped(es[j]) then [] else [es[j]])
  {
    assert es[..j + 1][..j] == es[..j] && es[..j + 1][j] == es[j];
  }

  /** The path find recurses on for an entry: the directory, a '/', the name. */
  function ChildPath(dir: seq<char>, name: seq<char>): seq<char>
  {
    dir + ['/'] + CStr(name)
  }

  /** child is the buffer find.c passes down for the entry named name in directory path: the
      path, a '/', the DIRSIZ bytes of the name and a NUL, reading back as ChildPath. */
  predicate ChildOf(child: seq<char>, path: seq<char>, name: seq<char>)
  {
    |child| == BUF_SIZE && HasNul(child)
    && Strlen(path) + 1 + DIRSIZ + 1 <= BUF_SIZE
    && child[..Strlen(path) + 1 + DIRSIZ + 1] == CStr(path) + ['/'] + name + [NUL]
    && CStr(child) == ChildPath(CStr(path), name)
  }

  /** The T_DIR case of find (find.c:61-82): refuse a path that is too long, otherwise the
      buffer passed to each recursive call, one per entry kept, in directory order. */
  method DirChildren(path: seq<char>, entries: seq<Dirent>) returns (tooLong: bool, children: seq<seq<char>>)
    requires HasNul(path)
    requires forall k :: 0 <= k < |entries| ==> |entries[k].name| == DIRSIZ
    ensures tooLong <==> TooLong(path)
    ensures tooLong ==> children == []
    ensures !tooLong ==> |children| == |Kept(entries)|
    ensures !tooLong ==> forall k :: 0 <= k < |children| ==> ChildOf(children[k], path, Kept(entries)[k].name)
  {
    children := [];
    if Strlen(path) + 1 + DIRSIZ + 1 > BUF_SIZE {
      return true, [];
    }
    tooLong := false;
    var buf := new char[BUF_SIZE];
    var p := Strcpy(buf, path);
    buf[p] := '/';
    p := p + 1;
    assert buf[..p] == CStr(path) + ['/'];
    children := EachChild(buf, p, path, entries);
  }

  /** The loop over the directory's entries (find.c:71-81), with buf holding the path and its
      '/': one child buffer per entry kept. */
  method EachChild(buf: array<char>, p: nat, ghost path: seq<char>, entries: seq<Dirent>) returns (children: seq<seq<char>>)
    requires HasNul(path) && buf.Length == BUF_SIZE
    requires p == Strlen(path) + 1 && p + DIRSIZ < BUF_SIZE
    requires buf[..p] == CStr(path) + ['/']
    requires forall k :: 0 <= k < |entries| ==> |entries[k].name| == DIRSIZ
    modifies buf
    ensures |children| == |Kept(entries)|
    ensures forall k :: 0 <= k < |children| ==> ChildOf(children[k], path, Kept(entries)[k].name)
  {
    children := [];
    ghost var head := CStr(path) + ['/'];
    var j := 0;
    ghost var kept: seq<Dirent> := [];
    while j < |entries|
      invariant 0 <= j <= |entries|
      invariant buf[..p] == head
      invariant kept == Kept(entries[..j]) && |children| == |kept|
      invariant forall k :: 0 <= k < |children| ==> ChildOf(children[k], path, kept[k].name)
    {
      var de := entries[j];
      KeptStep(entries, j);
      var skip := SkipEntry(de);
      if !skip {
        var child := PlaceName(buf, p, de.name, path);
        children := children + [child];
        kept := kept + [de];
      }
      j := j + 1;
    }
    assert entries[..j] == entries;
  }

  /** memmove(p, de.name, DIRSIZ); p[DIRSIZ] = 0 (find.c:77-78) behind the path and its '/'
      already in buf; the buffer find is then called on. */
  method PlaceName(buf: array<char>, p: nat, name: seq<char>, ghost path: seq<char>) returns (child: seq<char>)
    requires HasNul(path) && buf.Length == BUF_SIZE && |name| == DIRSIZ
    requires p == Strlen(path) + 1 && p + DIRSIZ < BUF_SIZE
    requires buf[..p] == CStr(path) + ['/']
    modifies buf
    ensures buf[..p] == old(buf[..p])
    ensures child == buf[..] && ChildOf(child, path, name)
  {
    Memmove(buf, p, name);
    buf[p + DIRSIZ] := NUL;
    child := buf[..];
    assert child[..p] == CStr(path) + ['/'] && child[p..p + DIRSIZ] == name;
    ChildBuffer(child, CStr(path) + ['/'], name, p);
  }

  /** A full buffer whose first bytes are head, the name and a NUL. */
  lemma ChildBuffer(child: seq<char>, head: seq<char>, name: seq<char>, p: nat)
    requires |head| == p && |name| == DIRSIZ && p + DIRSIZ < |child|
    requires child[..p] == head && child[p..p + DIRSIZ] == name && child[p + DIRSIZ] == NUL
    requires head != [] && head[|head| - 1] == '/' && NUL !in head
    ensures HasNul(child) && child[..p + DIRSIZ + 1] == head + name + [NUL]
    ensures CStr(child) == head + CStr(name)
  {
    assert child[..p + DIRSIZ + 1] == head + name + [NUL];
    assert child[..p + DIRSIZ + 1] == head + (name + [NUL]);
    StringOfLayout(child, p + DIRSIZ + 1, head, name);
  }

  /** A buffer starting with head, then name and a NUL, holds the string head + CStr(name). */
  lemma StringOfLayout(child: seq<char>, n: nat, head: seq<char>, name: seq<char>)
    requires n <= |child| && child[..n] == head + (name + [NUL]) && NUL !in head
    ensures HasNul(child) && CStr(child) == head + CStr(name)
  {
    assert child[..n][n - 1] == NUL;
    CStrPrefix(child, n);
    CStrPadded(name);
    CStrAppend(head, name + [NUL]);
  }



  /** strcpy(buf, path) (find.c:66) followed by p = buf + strlen(buf) (find.c:67). */
  method Strcpy(buf: array<char>, path: seq<char>) returns (p: nat)
    requires HasNul(path) && Strlen(path) < buf.Length
    modifies buf
    ensures p == Strlen(path) && buf[..p] == CStr(path) && buf[p] == NUL
  {
    p := 0;
    while path[p] != NUL
      invariant p <= Strlen(path) && buf[..p] == CStr(path)[..p]
      decreases Strlen(path) - p
    {
      assert CStr(path)[p] == path[p];
      buf[p] := path[p];
      p := p + 1;
    }
    buf[p] := NUL;
  }

  /** memmove(p, de.name, DIRSIZ) (find.c:77): only buf[p..p+DIRSIZ] changes. */
  method Memmove(buf: array<char>, p: nat, name: seq<char>)
    requires |name| == DIRSIZ && p + DIRSIZ <= buf.Length
    modifies buf
    ensures buf[..p] == old(buf[..p]) && buf[p..p + DIRSIZ] == name
    ensures buf[p + DIRSIZ..] == old(buf[p + DIRSIZ..])
  {
    var k := 0;
    while k < DIRSIZ
      invariant 0 <= k <= DIRSIZ
      invariant buf[..p] == old(buf[..p]) && buf[p..p + k] == name[..k]
      invariant buf[p + DIRSIZ..] == old(buf[p + DIRSIZ..])
    {
      buf[p + k] := name[k];
      k := k + 1;
    }
  }

  /** A child find recurses on that turns out to be a file is printed exactly when its entry's
      name is the name looked for: the component cut from the child path is the name. */
  lemma ChildMatches(dir: seq<char>, name: seq<char>)
    requires NUL !in dir && '/' !in CStr(name)
    ensures LastComponent(ChildPath(dir, name)) == CStr(name)
  {
    LastComponentAfterSlash(dir, CStr(name));
  }
}
