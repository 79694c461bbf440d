/** user/xargs.c: `xargs cmd args...` reads its standard input one character at a time,
    splits each line into words at the spaces, and runs cmd with its own arguments followed
    by the line's words.  The words are kept in MAX_WORDS buffers of MAX_WORD_LEN + 1 bytes;
    the argument vector handed to exec is assembled in args[MAXARG].  read, fork, exec, wait
    and malloc are not modelled: the input is a parameter and each exec is recorded as the
    argument vector it receives. */
module Xargs {
  import opened CString
  import opened Wrappers

  const MAX_WORD_LEN: nat := 64
  const MAX_WORDS: nat := 64
  /** kernel/param.h: the largest argument vector exec accepts. */
  const MAXARG: nat := 32

  // ---------------------------------------------------------------------------------------
  // the character machine

  /** What xargs has seen of the current line: the words closed by a space, the characters
      of the word being read, and the argument vectors exec'd so far. */
  datatype Machine = Machine(words: seq<seq<char>>, cur: seq<char>, execs: seq<seq<seq<char>>>)

  /** The strings exec reads from the word buffers: each up to its first NUL. */
  function Shown(ws: seq<seq<char>>): (r: seq<seq<char>>)
    ensures |r| == |ws| && forall k :: 0 <= k < |ws| ==> r[k] == CStr(ws[k])
  {
    if ws == [] then [] else [CStr(ws[0])] + Shown(ws[1..])
  }

  /** The words a newline runs the command on: the pending word counts only if it is not
      empty (xargs.c:36-39). */
  function LineWords(words: seq<seq<char>>, cur: seq<char>): seq<seq<char>>
  {
    if |cur| > 0 then words + [cur] else words
  }

  /** The argument vector exec receives: the command's own arguments, then the words. */
  function ExecVector(argv: seq<seq<char>>, ws: seq<seq<char>>): seq<seq<char>>
  {
    argv + Shown(ws)
  }

  /** One character read by xargs (xargs.c:34-72). */
  function Step(argv: seq<seq<char>>, m: Machine, c: char): Machine
  {
    if c == '\n' then Machine([], [], m.execs + [ExecVector(argv, LineWords(m.words, m.cur))])
    else if c == ' ' then Machine(m.words + [m.cur], [], m.execs)
    else Machine(m.words, m.cur + [c], m.execs)
  }

  /** The machine after reading s from m. */
  function Run(argv: seq<seq<char>>, m: Machine, s: seq<char>): Machine
  {
    if s == [] then m else Step(argv, Run(argv, m, s[..|s| - 1]), s[|s| - 1])
  }

  const Fresh: Machine := Machine([], [], [])

  lemma {:induction false} RunConcat(argv: seq<seq<char>>, m: Machine, a: seq<char>, b: seq<char>)
    ensures Run(argv, m, a + b) == Run(argv, Run(argv, m, a), b)
  {
    if b == [] {
      assert a + b == a;
    } else {
      var init := b[..|b| - 1];
      assert (a + b)[..|a + b| - 1] == a + init && (a + b)[|a + b| - 1] == b[|b| - 1];
      RunConcat(argv, m, a, init);
    }
  }

  // ---------------------------------------------------------------------------------------
  // the reference: lines and the pieces between spaces

  /** The pieces of a line between its spaces: a space starts a new piece, any other
      character extends the last one. */
  function Pieces(l: seq<char>): (r: seq<seq<char>>)
    ensures |r| >= 1
  {
    if l == [] then [[]]
    else
      var p := Pieces(l[..|l| - 1]);
      if l[|l| - 1] == ' ' then p + [[]]
      else p[..|p| - 1] + [p[|p| - 1] + [l[|l| - 1]]]
  }

  /** The pieces joined again with single spaces. */
  function Join(ps: seq<seq<char>>): seq<char>
    requires |ps| >= 1
  {
    if |ps| == 1 then ps[0] else Join(ps[..|ps| - 1]) + [' '] + ps[|ps| - 1]
  }

  function Count(c: char, s: seq<char>): nat
  {
    if s == [] then 0 else Count(c, s[..|s| - 1]) + (if s[|s| - 1] == c then 1 else 0)
  }

  /** Pieces splits a line at each of its spaces: joined with spaces they give the line back,
      none contains a space, and there is one more piece than there are spaces. */
  lemma PiecesSplit(l: seq<char>)
    ensures Join(Pieces(l)) == l
    ensures forall k :: 0 <= k < |Pieces(l)| ==> ' ' !in Pieces(l)[k]
    ensures |Pieces(l)| == Count(' ', l) + 1
  {
    PiecesJoin(l);
    PiecesNoSpace(l);
    PiecesCount(l);
  }

  lemma {:induction false} PiecesJoin(l: seq<char>)
    ensures Join(Pieces(l)) == l
  {
    if l != [] {
      var init := l[..|l| - 1];
      var c := l[|l| - 1];
      assert l == init + [c];
      PiecesJoin(init);
      if c == ' ' {
        JoinSpace(Pieces(init));
      } else {
        JoinChar(Pieces(init), c);
      }
    }
  }

  lemma JoinSpace(ps: seq<seq<char>>)
    requires |ps| >= 1
    ensures Join(ps + [[]]) == Join(ps) + [' ']
  {
    assert (ps + [[]])[..|ps|] == ps;
  }

  lemma JoinChar(ps: seq<seq<char>>, c: char)
    requires |ps| >= 1
    ensures Join(ps[..|ps| - 1] + [ps[|ps| - 1] + [c]]) == Join(ps) + [c]
  {
    var q := ps[..|ps| - 1] + [ps[|ps| - 1] + [c]];
    if |ps| > 1 {
      assert q[..|q| - 1] == ps[..|ps| - 1];
    }
  }

  lemma {:induction false} PiecesNoSpace(l: seq<char>)
    ensures forall k :: 0 <= k < |Pieces(l)| ==> ' ' !in Pieces(l)[k]
  {
    if l != [] {
      var init := l[..|l| - 1];
      var c := l[|l| - 1];
      var p := Pieces(init);
      PiecesNoSpace(init);
      if c != ' ' {
        var q := p[..|p| - 1] + [p[|p| - 1] + [c]];
        assert Pieces(l) == q;
        forall k | 0 <= k < |q| ensures ' ' !in q[k] {
          if k < |p| - 1 {
            assert q[k] == p[k];
          } else {
            assert ' ' !in p[|p| - 1];
          }
        }
      }
    }
  }

  lemma {:induction false} PiecesCount(l: seq<char>)
    ensures |Pieces(l)| == Count(' ', l) + 1
  {
    if l != [] {
      PiecesCount(l[..|l| - 1]);
    }
  }

  /** The words a complete line runs the command on: its pieces, except an empty last one. */
  function Words(l: seq<char>): seq<seq<char>>
  {
    var p := Pieces(l);
    if p[|p| - 1] == [] then p[..|p| - 1] else p
  }

  /** What xargs execs for an input, line by line: one vector per line ended by a newline;
      what follows the last newline is not run. */
  function Reference(argv: seq<seq<char>>, input: seq<char>): seq<seq<seq<char>>>
    decreases |input|
  {
    if '\n' !in input then []
    else
      var i := FirstNewline(input);
      [ExecVector(argv, Words(input[..i]))] + Reference(argv, input[i + 1..])
  }

  function FirstNewline(s: seq<char>): (i: nat)
    requires '\n' in s
    ensures i < |s| && s[i] == '\n' && '\n' !in s[..i]
  {
    if s[0] == '\n' then 0 else
      var i := FirstNewline(s[1..]);
      assert s[..i + 1] == [s[0]] + s[1..][..i];
      i + 1
  }

  /** Reading a line with no newline from the start of a line: the words so far and the
      pending word are the line's pieces, and nothing is run. */
  lemma {:induction false} MachineLine(argv: seq<seq<char>>, m: Machine, l: seq<char>)
    requires m.words == [] && m.cur == [] && '\n' !in l
    ensures Run(argv, m, l).words + [Run(argv, m, l).cur] == Pieces(l)
    ensures Run(argv, m, l).execs == m.execs
  {
    if l != [] {
      var init := l[..|l| - 1];
      var c := l[|l| - 1];
      assert '\n' !in init by {
        forall k | 0 <= k < |init| ensures init[k] != '\n' {
          assert init[k] == l[k];
        }
      }
      MachineLine(argv, m, init);
      assert l == init + [c];
    }
  }

  /** A complete line run from the start of a line execs the vector for its words and starts
      the next line afresh. */
  lemma LineExecuted(argv: seq<seq<char>>, m: Machine, l: seq<char>)
    requires m.words == [] && m.cur == [] && '\n' !in l
    ensures Run(argv, m, l + ['\n']) == Machine([], [], m.execs + [ExecVector(argv, Words(l))])
  {
    MachineLine(argv, m, l);
    var r := Run(argv, m, l);
    assert (l + ['\n'])[..|l + ['\n']| - 1] == l;
    assert LineWords(r.words, r.cur) == Words(l);
  }

  /** What follows the last newline is read but never run. */
  lemma UnterminatedIgnored(argv: seq<seq<char>>, m: Machine, l: seq<char>)
    requires m.words == [] && m.cur == [] && '\n' !in l
    ensures Run(argv, m, l).execs == m.execs
  {
    MachineLine(argv, m, l);
  }

  /** From the start of a line the machine execs exactly the reference's vectors. */
  lemma {:induction false} RunIsReference(argv: seq<seq<char>>, m: Machine, input: seq<char>)
    requires m.words == [] && m.cur == []
    ensures Run(argv, m, input).execs == m.execs + Reference(argv, input)
    decreases |input|
  {
    if '\n' !in input {
      UnterminatedIgnored(argv, m, input);
    } else {
      var i := FirstNewline(input);
      var v := ExecVector(argv, Words(input[..i]));
      var m' := Machine([], [], m.execs + [v]);
      RunFirstLine(argv, m, input, i);
      RunIsReference(argv, m', input[i + 1..]);
    }
  }

  /** Reading input up to and including its first newline (at i) execs that line's vector and
      leaves the rest to be read afresh. */
  lemma RunFirstLine(argv: seq<seq<char>>, m: Machine, input: seq<char>, i: nat)
    requires m.words == [] && m.cur == [] && '\n' in input && i == FirstNewline(input)
    ensures Run(argv, m, input)
         == Run(argv, Machine([], [], m.execs + [ExecVector(argv, Words(input[..i]))]), input[i + 1..])
    ensures Reference(argv, input) == [ExecVector(argv, Words(input[..i]))] + Reference(argv, input[i + 1..])
  {
    var l := input[..i];
    var rest := input[i + 1..];
    assert input == (l + ['\n']) + rest;
    RunConcat(argv, m, l + ['\n'], rest);
    LineExecuted(argv, m, l);
  }

  /** xargs execs, in order, one vector per complete line of its input: its own arguments
      followed by the strings of the line's space-separated words. */
  lemma XargsExecsLines(argv: seq<seq<char>>, input: seq<char>)
    ensures Run(argv, Fresh, input).execs == Reference(argv, input)
  {
    RunIsReference(argv, Fresh, input);
  }

  // ---------------------------------------------------------------------------------------
  // the buffers: what xargs.c writes and when it stays inside them

  /** The step on c from m writes only inside line[][] and args[] (xargs.c:37, 45-47, 65,
      71): the word written to is below MAX_WORDS, its offset at most MAX_WORD_LEN, and a
      newline leaves room in args for the words and the terminating null. */
  predicate StepFits(argc: nat, m: Machine, c: char)
  {
    if c == '\n' then
      (|m.cur| > 0 ==> |m.words| < MAX_WORDS && |m.cur| <= MAX_WORD_LEN)
      && argc + |LineWords(m.words, m.cur)| < MAXARG
    else |m.words| < MAX_WORDS && |m.cur| <= MAX_WORD_LEN
  }

  /** Every step of the run stays inside the buffers; xargs.c checks none of this. */
  predicate Fits(argv: seq<seq<char>>, input: seq<char>)
  {
    |argv| <= MAXARG
    && forall t :: 0 <= t < |input| ==> StepFits(|argv|, Run(argv, Fresh, input[..t]), input[t])
  }

  /** Word k of the line is closed: its characters, then a NUL. */
  predicate Closed(line: array2<char>, k: nat, w: seq<char>)
    reads line
  {
    k < line.Length0 && |w| < line.Length1
    && (forall j :: 0 <= j < |w| ==> line[k, j] == w[j]) && line[k, |w|] == NUL
  }

  /** The word being read sits in line[pw] without its NUL yet. */
  predicate Open(line: array2<char>, pw: nat, cur: seq<char>)
    reads line
  {
    |cur| <= line.Length1 && forall j :: 0 <= j < |cur| ==> pw < line.Length0 && line[pw, j] == cur[j]
  }

  /** Buffer row k, as exec reads it through args[]. */
  function Row(line: array2<char>, k: nat): (r: seq<char>)
    requires k < line.Length0
    reads line
    ensures |r| == line.Length1 && forall j :: 0 <= j < line.Length1 ==> r[j] == line[k, j]
  {
    seq(line.Length1, j requires 0 <= j < line.Length1 reads line => line[k, j])
  }

  /** A closed row reads as the string of its word. */
  lemma ClosedRow(line: array2<char>, k: nat, w: seq<char>)
    requires Closed(line, k, w)
    ensures CStr(Row(line, k)) == CStr(w)
  {
    var r := Row(line, k);
    assert r[..|w| + 1] == w + [NUL];
    assert NUL in r[..|w| + 1] by {
      assert r[..|w| + 1][|w|] == NUL;
    }
    CStrPrefix(r, |w| + 1);
    CStrPadded(w);
  }

  /** The C string an args[] slot holds, up to the null that ends the vector. */
  function Vector(args: seq<Option<seq<char>>>): seq<seq<char>>
  {
    if args == [] || args[0].None? then [] else [args[0].value] + Vector(args[1..])
  }

  // ---------------------------------------------------------------------------------------
  // the procedure

  /** xargs (xargs.c:10-77): read the input character by character, keep the words in line[][]
      and exec the assembled argument vector at each newline; returns at the end of the
      input.  The vectors exec'd are what the character machine prescribes. */
  method RunXargs(argv: seq<seq<char>>, input: seq<char>) returns (execs: seq<seq<seq<char>>>)
    requires Fits(argv, input)
    ensures execs == Run(argv, Fresh, input).execs
  {
    var args := new Option<seq<char>>[MAXARG](_ => None);
    var i := 0;
    while i < |argv|
      invariant 0 <= i <= |argv| && forall k :: 0 <= k < i ==> args[k] == Some(argv[k])
    {
      args[i] := Some(argv[i]);
      i := i + 1;
    }
    var line := new char[MAX_WORDS, MAX_WORD_LEN + 1];
    var processedWords, wordOffset := 0, 0;
    execs := [];
    var t := 0;
    while t < |input|
      invariant 0 <= t <= |input|
      invariant forall k :: 0 <= k < i ==> args[k] == Some(argv[k])
      invariant var m := Run(argv, Fresh, input[..t]);
        processedWords == |m.words| && wordOffset == |m.cur| && execs == m.execs
        && InBuffers(line, m)
    {
      ghost var m := Run(argv, Fresh, input[..t]);
      assert StepFits(i, m, input[t]);
      var c := input[t];
      assert input[..t + 1][..t] == input[..t] && input[..t + 1][t] == c;
      var vec;
      processedWords, wordOffset, vec := Feed(args, i, line, processedWords, wordOffset, c, argv, m);
      if vec.Some? {
        execs := execs + [vec.value];
      }
      t := t + 1;
    }
    assert input[..t] == input;
  }

  /** The buffers hold what the machine has read of the line: its closed words, each with its
      NUL, and the word being read. */
  predicate InBuffers(line: array2<char>, m: Machine)
    reads line
  {
    (forall k :: 0 <= k < |m.words| ==> Closed(line, k, m.words[k]))
    && Open(line, |m.words|, m.cur)
  }

  /** The body of xargs' read loop (xargs.c:34-72) on one character c: update the buffers and
      the counters as the character machine does, and exec at a newline. */
  method Feed(args: array<Option<seq<char>>>, argc: nat, line: array2<char>, pw: nat, wo: nat,
              c: char, ghost argv: seq<seq<char>>, ghost m: Machine)
    returns (pw': nat, wo': nat, vec: Option<seq<seq<char>>>)
    requires args.Length == MAXARG && argc == |argv| <= MAXARG
    requires line.Length0 == MAX_WORDS && line.Length1 == MAX_WORD_LEN + 1
    requires forall k :: 0 <= k < argc ==> args[k] == Some(argv[k])
    requires StepFits(argc, m, c) && pw == |m.words| && wo == |m.cur| && InBuffers(line, m)
    modifies args, line
    ensures forall k :: 0 <= k < argc ==> args[k] == Some(argv[k])
    ensures var m' := Step(argv, m, c);
      pw' == |m'.words| && wo' == |m'.cur| && InBuffers(line, m')
      && m'.execs == m.execs + (if vec.Some? then [vec.value] else [])
  {
    pw', wo', vec := pw, wo, None;
    if c == '\n' {
      if wo > 0 {
        CloseWord(line, pw, wo, m.words, m.cur);
        pw' := pw + 1;
      }
      var v := ExecLine(args, argc, line, pw', argv, LineWords(m.words, m.cur));
      vec := Some(v);
      pw', wo' := 0, 0;
    } else if c == ' ' {
      CloseWord(line, pw, wo, m.words, m.cur);
      pw', wo' := pw + 1, 0;
    } else {
      line[pw, wo] := c;
      wo' := wo + 1;
    }
  }

  /** line[pw][word_offset] = 0 (xargs.c:37, 65): the word being read becomes closed word pw. */
  method CloseWord(line: array2<char>, pw: nat, wo: nat, ghost words: seq<seq<char>>, ghost cur: seq<char>)
    requires pw == |words| < line.Length0 && wo == |cur| < line.Length1
    requires forall k :: 0 <= k < pw ==> Closed(line, k, words[k])
    requires Open(line, pw, cur)
    modifies line
    ensures forall k :: 0 <= k < pw + 1 ==> Closed(line, k, (words + [cur])[k])
    ensures Open(line, pw + 1, [])
  {
    line[pw, wo] := NUL;
    forall k | 0 <= k < pw + 1 ensures Closed(line, k, (words + [cur])[k]) {
      if k < pw {
        assert (words + [cur])[k] == words[k];
      }
    }
  }

  /** The child's side of xargs.c:41-50: put the line's words after the command's arguments
      in args, end the vector with a null, and exec it. */
  method ExecLine(args: array<Option<seq<char>>>, argc: nat, line: array2<char>, pw: nat,
                  ghost argv: seq<seq<char>>, ghost ws: seq<seq<char>>) returns (vec: seq<seq<char>>)
    requires args.Length == MAXARG && argc == |argv| && |ws| == pw && argc + pw < MAXARG
    requires forall k :: 0 <= k < argc ==> args[k] == Some(argv[k])
    requires forall k :: 0 <= k < pw ==> Closed(line, k, ws[k])
    modifies args
    ensures vec == ExecVector(argv, ws)
    ensures forall k :: 0 <= k < argc ==> args[k] == Some(argv[k])
  {
    FillWords(args, argc, line, pw, argv, ws);
    args[argc + pw] := None;
    vec := Vector(args[..]);
    VectorIs(args[..], argv, ws);
  }

  /** args[argc + k] = line[k] for each word of the line (xargs.c:45-47): the slots after
      the command's arguments point at the words' strings. */
  method FillWords(args: array<Option<seq<char>>>, argc: nat, line: array2<char>, pw: nat,
                   ghost argv: seq<seq<char>>, ghost ws: seq<seq<char>>)
    requires args.Length == MAXARG && argc == |argv| && |ws| == pw && argc + pw < MAXARG
    requires forall k :: 0 <= k < argc ==> args[k] == Some(argv[k])
    requires forall k :: 0 <= k < pw ==> Closed(line, k, ws[k])
    modifies args
    ensures forall k :: 0 <= k < argc ==> args[k] == Some(argv[k])
    ensures forall k :: argc <= k < argc + pw ==> args[k] == Some(CStr(ws[k - argc]))
  {
    var j := argc;
    while j - argc < pw
      invariant argc <= j <= argc + pw
      invariant forall k :: 0 <= k < argc ==> args[k] == Some(argv[k])
      invariant forall k :: argc <= k < j ==> args[k] == Some(CStr(ws[k - argc]))
    {
      ClosedRow(line, j - argc, ws[j - argc]);
      args[j] := Some(CStr(Row(line, j - argc)));
      j := j + 1;
    }
  }

  /** The slots holding the command's arguments, then the words' strings, then a null, make
      up the vector exec'd for those words. */
  lemma VectorIs(a: seq<Option<seq<char>>>, argv: seq<seq<char>>, ws: seq<seq<char>>)
    requires |argv| + |ws| < |a| && a[|argv| + |ws|].None?
    requires forall k :: 0 <= k < |argv| ==> a[k] == Some(argv[k])
    requires forall k :: |argv| <= k < |argv| + |ws| ==> a[k] == Some(CStr(ws[k - |argv|]))
    ensures Vector(a) == ExecVector(argv, ws)
  {
    var n := |argv| + |ws|;
    VectorOf(a, n);
    var e := ExecVector(argv, ws);
    forall k | 0 <= k < n ensures Vector(a)[k] == e[k] {
      if k < |argv| {
        assert e[k] == argv[k];
      } else {
        assert e[k] == Shown(ws)[k - |argv|];
      }
    }
  }

  /** The vector ends at the first null. */
  lemma {:induction false} VectorOf(a: seq<Option<seq<char>>>, n: nat)
    requires n < |a| && a[n].None? && forall k :: 0 <= k < n ==> a[k].Some?
    ensures |Vector(a)| == n && forall k :: 0 <= k < n ==> Vector(a)[k] == a[k].value
  {
    if n > 0 {
      VectorOf(a[1..], n - 1);
    }
  }
}
