/** user/primes.c: a pipeline of sieve stages.  main writes 2..34 into the first pipe; every
    stage prints its first number as a prime and forwards the later numbers it does not
    divide.  Numbers travel as 4-byte messages written by itoa and read back by atoi.
    Pipes are sequences of messages; fork, pipe, wait and printf are not modelled. */
module Primes {
  import opened Wrappers
  import opened CString

  const LOW: nat := 2
  const HIGH: nat := 35
  const INT_SIZE: nat := 4

  // ---------------------------------------------------------------------------------------
  // reverse and itoa

  /** reverse (primes.c:9-19): swap s[i] and s[j] moving inwards from both ends. */
  method Reverse(s: array<char>)
    requires HasNul(s[..])
    modifies s
    ensures s[..] == ReverseC(old(s[..]))
  {
    ghost var s0 := s[..];
    ReverseCIndex(s0);
    var n := Strlen(s[..]);
    Mirror(s, n);
    assert forall k :: 0 <= k < s.Length ==> s[k] == ReverseC(s0)[k];
  }

  /** reverse's loop over the first n characters of s: they end up in mirror order. */
  method Mirror(s: array<char>, n: nat)
    requires n <= s.Length
    modifies s
    ensures forall k :: 0 <= k < n ==> s[k] == old(s[n - 1 - k])
    ensures forall k :: n <= k < s.Length ==> s[k] == old(s[k])
  {
    ghost var s0 := s[..];
    var i: int, j: int := 0, n - 1;
    while i < j
      invariant 0 <= i <= n && j == n - 1 - i && i <= j + 1
      invariant forall k :: 0 <= k < i ==> s[k] == s0[n - 1 - k] && s[n - 1 - k] == s0[k]
      invariant forall k :: i <= k <= j ==> s[k] == s0[k]
      invariant forall k :: n <= k < s.Length ==> s[k] == s0[k]
    {
      var c := s[i];
      s[i] := s[j];
      s[j] := c;
      i, j := i + 1, j - 1;
    }
  }

  /** The digits itoa emits, in the order it emits them: least significant first. */
  function LowDigits(m: nat): (r: seq<char>)
    ensures 1 <= |r| && forall k :: 0 <= k < |r| ==> IsDigit(r[k])
  {
    [DigitChar(m % 10)] + (if m / 10 > 0 then LowDigits(m / 10) else [])
  }

  /** The text itoa leaves for n: a '-' for a negative n, then the decimal digits of |n|. */
  function ItoaText(n: int): seq<char>
  {
    (if n < 0 then "-" else "") + Digits(if n < 0 then -n else n)
  }

  lemma ReversedConcat(a: seq<char>, b: seq<char>)
    ensures Reversed(a + b) == Reversed(b) + Reversed(a)
  {
    ReversedAt(a + b);
    ReversedAt(a);
    ReversedAt(b);
    assert forall k :: 0 <= k < |a + b| ==> Reversed(a + b)[k] == (Reversed(b) + Reversed(a))[k];
  }

  lemma {:induction false} LowDigitsReversed(m: nat)
    ensures Reversed(LowDigits(m)) == Digits(m)
  {
    if m / 10 > 0 {
      LowDigitsReversed(m / 10);
      ReversedConcat([DigitChar(m % 10)], LowDigits(m / 10));
    }
  }

  /** The do-while loop of itoa (primes.c:28-30): the digits of m, least significant first. */
  method EmitDigits(m0: nat, s: array<char>) returns (i: nat)
    requires |LowDigits(m0)| < s.Length
    modifies s
    ensures i == |LowDigits(m0)| && s[..] == LowDigits(m0) + old(s[i..])
  {
    ghost var s0 := s[..];
    ghost var out: seq<char> := [];
    var m := m0;
    i := 0;
    while true
      invariant 0 <= i < s.Length && |out| == i
      invariant out + LowDigits(m) == LowDigits(m0)
      invariant s[..] == out + s0[i..]
      decreases m
    {
      var d := DigitChar(m % 10);
      EmitStep(out, m, m0);
      WriteAfter(out, s0[i..], d);
      s[i] := d;
      assert s[..] == (out + s0[i..])[i := d];
      assert s0[i..][1..] == s0[i + 1..];
      out := out + [d];
      i := i + 1;
      m := m / 10;
      if m == 0 {
        assert out == LowDigits(m0);
        assert old(s[i..]) == s0[i..];
        return;
      }
    }
  }

  /** One more digit emitted: the digits still to come are those of m / 10. */
  lemma EmitStep(out: seq<char>, m: nat, m0: nat)
    requires out + LowDigits(m) == LowDigits(m0)
    ensures (out + [DigitChar(m % 10)]) + (if m / 10 > 0 then LowDigits(m / 10) else []) == LowDigits(m0)
  {
    assert LowDigits(m) == [DigitChar(m % 10)] + (if m / 10 > 0 then LowDigits(m / 10) else []);
  }

  /** itoa (primes.c:21-35) into the buffer s; the negation of INT_MIN is excluded. */
  method Itoa(n: int, s: array<char>)
    requires -0x7fff_ffff <= n <= 0x7fff_ffff
    requires |ItoaText(n)| < s.Length
    modifies s
    ensures s[..] == ItoaText(n) + ([NUL] + old(s[|ItoaText(n)| + 1..]))
  {
    ghost var x := ItoaBackwards(n, s);
    ReverseCOf(x, [NUL] + old(s[|ItoaText(n)| + 1..]));
    Reverse(s);
  }

  /** The part of itoa before the call to reverse (primes.c:25-33): the digits least
      significant first, the sign, the NUL. */
  method ItoaBackwards(n: int, s: array<char>) returns (ghost x: seq<char>)
    requires -0x7fff_ffff <= n <= 0x7fff_ffff
    requires |ItoaText(n)| < s.Length
    modifies s
    ensures NUL !in x && Reversed(x) == ItoaText(n)
    ensures s[..] == x + ([NUL] + old(s[|ItoaText(n)| + 1..]))
  {
    ghost var s0 := s[..];
    var sign := n;
    var m := n;
    if sign < 0 {
      m := -m;
    }
    ItoaTextReversed(n, m);
    var i := EmitDigits(m, s);
    x := LowDigits(m);
    if sign < 0 {
      ghost var pre := s[..];
      s[i] := '-';
      assert s[..] == pre[i := '-'];
      WriteAfter(x, s0[i..], '-');
      x := x + ['-'];
      i := i + 1;
    }
    assert x == LowDigits(m) + (if n < 0 then ['-'] else []);
    ghost var pre := s[..];
    s[i] := NUL;
    assert s[..] == pre[i := NUL];
    WriteAfter(x, s0[i..], NUL);
  }


  /** The text of n is what itoa writes before reversing it: the digits least significant
      first, then the sign. */
  lemma ItoaTextReversed(n: int, m: nat)
    requires m == if n < 0 then -n else n
    ensures ItoaText(n) == Reversed(LowDigits(m) + (if n < 0 then ['-'] else []))
    ensures NUL !in LowDigits(m) + (if n < 0 then ['-'] else [])
  {
    var lead := if n < 0 then ['-'] else [];
    LowDigitsReversed(m);
    ReversedConcat(LowDigits(m), lead);
    assert Reversed(lead) == lead;
    DigitsNoNul(LowDigits(m));
    assert NUL !in lead;
  }

  lemma DigitsNoNul(d: seq<char>)
    requires forall k :: 0 <= k < |d| ==> IsDigit(d[k])
    ensures NUL !in d
  {
  }

  /** itoa emits at least one digit when n is 0, with nothing before it. */
  lemma ItoaZero()
    ensures ItoaText(0) == "0"
  {
  }

  /** The text of n is its digits, most significant first, with a '-' in front exactly when n
      is negative; its length is the number of digits plus one for the sign. */
  lemma ItoaTextShape(n: int)
    ensures n >= 0 ==> ItoaText(n) == Digits(n)
    ensures n < 0 ==> ItoaText(n) == ['-'] + Digits(-n)
    ensures |ItoaText(n)| == |Digits(if n < 0 then -n else n)| + (if n < 0 then 1 else 0)
    ensures n >= 0 ==> Atoi(ItoaText(n) + [NUL]) == n
  {
    if n >= 0 {
      AtoiDigits(n, [NUL]);
    }
  }

  // ---------------------------------------------------------------------------------------
  // messages

  /** The number a stage reads from a message: the reader's buffer holds the 4 bytes of the
      message and a NUL (primes.c:44-45, 50-53). */
  function Decode(msg: seq<char>): nat
  {
    Atoi(msg + [NUL])
  }

  function Decodes(msgs: seq<seq<char>>): (r: seq<nat>)
    ensures |r| == |msgs| && forall k :: 0 <= k < |msgs| ==> r[k] == Decode(msgs[k])
  {
    if msgs == [] then [] else [Decode(msgs[0])] + Decodes(msgs[1..])
  }

  lemma {:induction false} DigitsLen(m: nat, k: nat)
    requires m < Pow10(k)
    ensures |Digits(m)| <= k || (m == 0 && k == 0)
  {
    if m >= 10 {
      assert k >= 2;
      assert m / 10 < Pow10(k - 1);
      DigitsLen(m / 10, k - 1);
    } else if k == 0 {
      assert m == 0;
    }
  }

  lemma DigitsShort(m: nat)
    requires m < 10000
    ensures |ItoaText(m)| <= INT_SIZE
  {
    assert Pow10(4) == 10000;
    DigitsLen(m, 4);
  }

  /** The first 4 bytes of a buffer itoa wrote 0 <= n < 10000 into decode back to n,
      whatever the buffer held before. */
  lemma WireRoundTrip(n: nat, buf: seq<char>)
    requires |ItoaText(n)| < |buf| == INT_SIZE + 1
    requires buf[..|ItoaText(n)| + 1] == ItoaText(n) + [NUL]
    ensures Decode(buf[..INT_SIZE]) == n
  {
    var d := Digits(n);
    assert ItoaText(n) == d;
    assert buf[|d|] == NUL;
    assert buf[..INT_SIZE] + [NUL] == d + (buf[|d|..INT_SIZE] + [NUL]);
    AtoiDigits(n, buf[|d|..INT_SIZE] + [NUL]);
  }

  lemma {:induction false} DigitRunShort(s: seq<char>)
    ensures |DigitRun(s)| <= |s|
    ensures Value(DigitRun(s)) < Pow10(|DigitRun(s)|)
  {
    if s != [] && IsDigit(s[0]) {
      DigitRunShort(s[1..]);
      ValueBound(DigitRun(s));
    }
  }

  function Pow10(k: nat): nat
  {
    if k == 0 then 1 else 10 * Pow10(k - 1)
  }

  lemma {:induction false} ValueBound(ds: seq<char>)
    requires forall k :: 0 <= k < |ds| ==> IsDigit(ds[k])
    ensures Value(ds) < Pow10(|ds|)
  {
    if ds != [] {
      ValueBound(ds[..|ds| - 1]);
    }
  }

  /** A message never carries more than 4 digits, so a stage only ever reads numbers below
      10000, which itoa writes back into its 5-byte buffer. */
  lemma DecodeBound(msg: seq<char>)
    requires |msg| == INT_SIZE
    ensures Decode(msg) < 10000
  {
    var s := msg + [NUL];
    ValueBound(DigitRun(s));
    assert !IsDigit(s[INT_SIZE]);
    assert Pow10(INT_SIZE) == 10000;
    PowMono(|DigitRun(s)|, INT_SIZE);
  }

  lemma {:induction false} PowMono(a: nat, b: nat)
    requires a <= b
    ensures Pow10(a) <= Pow10(b)
    decreases b
  {
    if a < b {
      PowMono(a, b - 1);
    }
  }

  // ---------------------------------------------------------------------------------------
  // main's feed loop and a pipeline stage

  function Range(lo: nat, hi: nat): (r: seq<nat>)
    decreases hi - lo
    ensures |r| == if lo < hi then hi - lo else 0
    ensures forall k :: 0 <= k < |r| ==> r[k] == lo + k
  {
    if lo < hi then [lo] + Range(lo + 1, hi) else []
  }

  /** itoa(n, buf) followed by write(fd, buf, INT_SIZE) (primes.c:61-62, 85-86): the
      message sent. */
  method Send(n: nat, buf: array<char>) returns (msg: seq<char>)
    requires n < 10000 && buf.Length == INT_SIZE + 1 && buf[INT_SIZE] == NUL
    modifies buf
    ensures |msg| == INT_SIZE && Decode(msg) == n && buf[INT_SIZE] == NUL
  {
    DigitsShort(n);
    Itoa(n, buf);
    WireRoundTrip(n, buf[..]);
    msg := buf[..INT_SIZE];
  }

  /** main (primes.c:84-87): itoa each of LOW..HIGH-1 into buf and send its first 4 bytes. */
  method Feed(buf: array<char>) returns (msgs: seq<seq<char>>)
    requires buf.Length == INT_SIZE + 1
    modifies buf
    ensures forall k :: 0 <= k < |msgs| ==> |msgs[k]| == INT_SIZE
    ensures Decodes(msgs) == Range(LOW, HIGH)
  {
    buf[INT_SIZE] := NUL;
    msgs := [];
    var i := LOW;
    while i < HIGH
      invariant LOW <= i <= HIGH && |msgs| == i - LOW && buf[INT_SIZE] == NUL
      invariant forall k :: 0 <= k < |msgs| ==> |msgs[k]| == INT_SIZE && Decode(msgs[k]) == LOW + k
    {
      var msg := Send(i, buf);
      msgs := msgs + [msg];
      i := i + 1;
    }
  }

  /** The numbers a stage forwards: those its prime does not divide, in their order
      (primes.c:60-63). */
  function Filter(prime: nat, ns: seq<nat>): (r: seq<nat>)
    requires prime > 0
    ensures |r| <= |ns|
  {
    if ns == [] then []
    else (if ns[0] % prime != 0 then [ns[0]] else []) + Filter(prime, ns[1..])
  }

  /** Filter keeps exactly the numbers not divisible by the prime, in their input order: the
      k-th number forwarded is the k-th such number of the input. */
  lemma {:induction false} FilterMembers(prime: nat, ns: seq<nat>, x: nat)
    requires prime > 0
    ensures x in Filter(prime, ns) <==> x in ns && x % prime != 0
    ensures multiset(Filter(prime, ns))[x] == if x % prime != 0 then multiset(ns)[x] else 0
  {
    FilterCount(prime, ns, x);
    assert x in Filter(prime, ns) <==> multiset(Filter(prime, ns))[x] > 0;
    assert x in ns <==> multiset(ns)[x] > 0;
  }

  lemma {:induction false} FilterCount(prime: nat, ns: seq<nat>, x: nat)
    requires prime > 0
    ensures multiset(Filter(prime, ns))[x] == if x % prime != 0 then multiset(ns)[x] else 0
  {
    if ns != [] {
      FilterCount(prime, ns[1..], x);
      var head := if ns[0] % prime != 0 then [ns[0]] else [];
      assert Filter(prime, ns) == head + Filter(prime, ns[1..]);
      assert ns == [ns[0]] + ns[1..];
      assert multiset(ns) == multiset([ns[0]]) + multiset(ns[1..]);
    }
  }

  /** A stage (primes.c:48-69): the first message is the prime, the later ones are forwarded
      when the prime does not divide them; buf is the stage's 5-byte buffer. */
  method Stage(input: seq<seq<char>>, buf: array<char>) returns (prime: Option<nat>, output: seq<seq<char>>)
    requires buf.Length == INT_SIZE + 1
    requires forall k :: 0 <= k < |input| ==> |input[k]| == INT_SIZE
    requires |input| > 1 ==> Decode(input[0]) != 0
    modifies buf
    ensures input == [] ==> prime.None? && output == []
    ensures input != [] ==> prime == Some(Decode(input[0]))
    ensures input != [] && Decode(input[0]) != 0 ==> Decodes(output) == Filter(Decode(input[0]), Decodes(input[1..]))
    ensures forall k :: 0 <= k < |output| ==> |output[k]| == INT_SIZE
  {
    buf[INT_SIZE] := NUL;
    output := [];
    if input == [] {
      return None, [];
    }
    ReadInto(buf, input[0]);
    var p := Atoi(buf[..]);
    prime := Some(p);
    if |input| == 1 {
      return;
    }
    output := Forward(p, input[1..], buf);
  }

  /** The forwarding loop of a stage (primes.c:58-66): every later message whose number the
      prime does not divide is sent on. */
  method Forward(p: nat, rest: seq<seq<char>>, buf: array<char>) returns (output: seq<seq<char>>)
    requires p > 0 && buf.Length == INT_SIZE + 1 && buf[INT_SIZE] == NUL
    requires forall k :: 0 <= k < |rest| ==> |rest[k]| == INT_SIZE
    modifies buf
    ensures Decodes(output) == Filter(p, Decodes(rest))
    ensures forall k :: 0 <= k < |output| ==> |output[k]| == INT_SIZE
  {
    ghost var ins := Decodes(rest);
    output := [];
    var r := 0;
    while r < |rest|
      invariant 0 <= r <= |rest| && buf[INT_SIZE] == NUL
      invariant forall k :: 0 <= k < |output| ==> |output[k]| == INT_SIZE
      invariant Decodes(output) == Filter(p, ins[..r])
    {
      var sent := Pass(p, rest[r], buf);
      FilterStep(p, ins, r);
      DecodesConcat(output, sent);
      output := output + sent;
      r := r + 1;
    }
    assert ins[..r] == ins;
  }

  /** One turn of the forwarding loop (primes.c:59-65): read a message, and send its number
      on unless the prime divides it. */
  method Pass(p: nat, msg: seq<char>, buf: array<char>) returns (sent: seq<seq<char>>)
    requires p > 0 && buf.Length == INT_SIZE + 1 && buf[INT_SIZE] == NUL && |msg| == INT_SIZE
    modifies buf
    ensures buf[INT_SIZE] == NUL
    ensures Decodes(sent) == if Decode(msg) % p != 0 then [Decode(msg)] else []
    ensures forall k :: 0 <= k < |sent| ==> |sent[k]| == INT_SIZE
  {
    ReadInto(buf, msg);
    var n := Atoi(buf[..]);
    DecodeBound(msg);
    sent := [];
    if n % p != 0 {
      var m := Send(n, buf);
      sent := [m];
    }
  }

  lemma FilterStep(p: nat, xs: seq<nat>, k: nat)
    requires p > 0 && k < |xs|
    ensures Filter(p, xs[..k + 1]) == Filter(p, xs[..k]) + (if xs[k] % p != 0 then [xs[k]] else [])
  {
    assert xs[..k + 1] == xs[..k] + [xs[k]];
    FilterConcat(p, xs[..k], [xs[k]]);
  }

  /** read(rpipe, buf, INT_SIZE): the message fills the first 4 bytes of buf. */
  method ReadInto(buf: array<char>, msg: seq<char>)
    requires buf.Length == INT_SIZE + 1 && |msg| == INT_SIZE && buf[INT_SIZE] == NUL
    modifies buf
    ensures buf[..] == msg + [NUL] && Atoi(buf[..]) == Decode(msg)
  {
    var k := 0;
    while k < INT_SIZE
      invariant 0 <= k <= INT_SIZE && buf[INT_SIZE] == NUL
      invariant buf[..k] == msg[..k]
    {
      buf[k] := msg[k];
      k := k + 1;
    }
    assert buf[..] == buf[..INT_SIZE] + [buf[INT_SIZE]];
  }

  lemma {:induction false} DecodesConcat(a: seq<seq<char>>, b: seq<seq<char>>)
    ensures Decodes(a + b) == Decodes(a) + Decodes(b)
  {
  }

  lemma {:induction false} FilterConcat(prime: nat, a: seq<nat>, b: seq<nat>)
    requires prime > 0
    ensures Filter(prime, a + b) == Filter(prime, a) + Filter(prime, b)
  {
    if a != [] {
      var head := if a[0] % prime != 0 then [a[0]] else [];
      assert (a + b)[0] == a[0] && (a + b)[1..] == a[1..] + b;
      FilterConcat(prime, a[1..], b);
      assert Filter(prime, a + b) == head + Filter(prime, a[1..] + b);
      assert Filter(prime, a) == head + Filter(prime, a[1..]);
    } else {
      assert a + b == b;
    }
  }

  // ---------------------------------------------------------------------------------------
  // the sieve

  predicate IsPrime(x: nat)
  {
    x >= 2 && forall d :: 2 <= d < x ==> x % d != 0
  }

  /** What the chain of stages prints for an input stream: each stage's first number, the
      next stage being fed what the stage forwards (primes.c:54, 67). */
  function Pipeline(ns: seq<nat>): seq<nat>
    requires forall k :: 0 <= k < |ns| ==> ns[k] > 0
    decreases |ns|
  {
    if ns == [] then []
    else
      FilterPositive(ns[0], ns[1..]);
      [ns[0]] + Pipeline(Filter(ns[0], ns[1..]))
  }

  lemma FilterPositive(prime: nat, ns: seq<nat>)
    requires prime > 0 && forall k :: 0 <= k < |ns| ==> ns[k] > 0
    ensures forall k :: 0 <= k < |Filter(prime, ns)| ==> Filter(prime, ns)[k] > 0
  {
    forall k | 0 <= k < |Filter(prime, ns)| ensures Filter(prime, ns)[k] > 0 {
      FilterMembers(prime, ns, Filter(prime, ns)[k]);
    }
  }

  function PrimesOf(ns: seq<nat>): seq<nat>
  {
    if ns == [] then [] else (if IsPrime(ns[0]) then [ns[0]] else []) + PrimesOf(ns[1..])
  }

  /** x has no divisor in [2, p). */
  predicate NoDivBelow(x: nat, p: nat)
  {
    forall d :: 2 <= d < p ==> x % d != 0
  }

  /** The numbers of ns with no divisor in [2, p), in order. */
  function Sift(ns: seq<nat>, p: nat): (r: seq<nat>)
    ensures |r| <= |ns|
  {
    if ns == [] then [] else (if NoDivBelow(ns[0], p) then [ns[0]] else []) + Sift(ns[1..], p)
  }

  lemma {:induction false} SiftSame(ns: seq<nat>, p: nat, q: nat)
    requires forall k :: 0 <= k < |ns| ==> (NoDivBelow(ns[k], p) <==> NoDivBelow(ns[k], q))
    ensures Sift(ns, p) == Sift(ns, q)
  {
    if ns != [] {
      SiftSame(ns[1..], p, q);
    }
  }

  lemma {:induction false} SiftAll(ns: seq<nat>)
    ensures Sift(ns, 2) == ns
  {
    if ns != [] {
      SiftAll(ns[1..]);
    }
  }

  lemma {:induction false} FilterSift(ns: seq<nat>, p: nat)
    requires p >= 2
    ensures Filter(p, Sift(ns, p)) == Sift(ns, p + 1)
  {
    if ns != [] {
      FilterSift(ns[1..], p);
      var x := ns[0];
      var head := if NoDivBelow(x, p) then [x] else [];
      FilterConcat(p, head, Sift(ns[1..], p));
      if NoDivBelow(x, p) && x % p != 0 {
        assert forall d :: 2 <= d < p + 1 ==> x % d != 0 by {
          forall d | 2 <= d < p + 1 ensures x % d != 0 {
            if d < p {
              assert 2 <= d < p;
            }
          }
        }
      }
      if NoDivBelow(x, p + 1) {
        assert x % p != 0 by {
          assert 2 <= p < p + 1;
        }
      }
    }
  }

  lemma DividesTrans(d: nat, p: nat, y: nat)
    requires 0 < d && 0 < p && p % d == 0 && y % p == 0
    ensures y % d == 0
  {
    var a := p / d;
    var b := y / p;
    assert p == d * a;
    assert y == p * b;
    assert y == d * (a * b);
    MultipleMod(d, a * b, y);
  }

  lemma MultipleMod(d: nat, c: nat, y: nat)
    requires d > 0 && y == d * c
    ensures y % d == 0
  {
    var q, r := y / d, y % d;
    assert y == d * q + r && 0 <= r < d;
    var k := c - q;
    assert d * k == r by {
      assert d * c - d * q == d * (c - q);
    }
  }

  /** The numbers with no divisor below p are not divisible by a composite p. */
  lemma CompositeSkipped(ns: seq<nat>, p: nat)
    requires p >= 2 && !NoDivBelow(p, p)
    ensures Sift(ns, p) == Sift(ns, p + 1)
  {
    var d :| 2 <= d < p && p % d == 0;
    forall k | 0 <= k < |ns| ensures NoDivBelow(ns[k], p) <==> NoDivBelow(ns[k], p + 1) {
      if NoDivBelow(ns[k], p) && ns[k] % p == 0 {
        DividesTrans(d, p, ns[k]);
      }
    }
    SiftSame(ns, p, p + 1);
  }

  lemma {:induction false} SiftBelow(ns: seq<nat>, p: nat, lo: nat)
    requires forall k :: 0 <= k < |ns| ==> ns[k] >= lo
    ensures forall k :: 0 <= k < |Sift(ns, p)| ==> Sift(ns, p)[k] >= lo
  {
    if ns != [] {
      SiftBelow(ns[1..], p, lo);
    }
  }

  /** Sifting [p] + rest by p keeps p exactly when p has no divisor below it. */
  lemma SiftHead(p: nat, rest: seq<nat>)
    ensures Sift([p] + rest, p) == (if NoDivBelow(p, p) then [p] else []) + Sift(rest, p)
  {
    assert ([p] + rest)[0] == p && ([p] + rest)[1..] == rest;
  }

  /** The stages fed the numbers of [p, h) that have no divisor below p print exactly the
      primes of [p, h). */
  lemma {:induction false} SieveFrom(p: nat, h: nat)
    requires p >= 2
    ensures forall k :: 0 <= k < |Sift(Range(p, h), p)| ==> Sift(Range(p, h), p)[k] > 0
    ensures Pipeline(Sift(Range(p, h), p)) == PrimesOf(Range(p, h))
    decreases h - p
  {
    SiftBelow(Range(p, h), p, p);
    if p < h {
      SieveFrom(p + 1, h);
      SieveStep(p, h);
    } else {
      assert Range(p, h) == [];
    }
  }

  predicate Positive(ns: seq<nat>) { forall k :: 0 <= k < |ns| ==> ns[k] > 0 }

  /** One stage of the induction of SieveFrom: from the stages fed [p+1, h) to those fed [p, h). */
  lemma SieveStep(p: nat, h: nat)
    requires 2 <= p < h
    requires Positive(Sift(Range(p, h), p)) && Positive(Sift(Range(p + 1, h), p + 1))
    requires Pipeline(Sift(Range(p + 1, h), p + 1)) == PrimesOf(Range(p + 1, h))
    ensures Pipeline(Sift(Range(p, h), p)) == PrimesOf(Range(p, h))
  {
    var rest := Range(p + 1, h);
    assert Range(p, h) == [p] + rest;
    SiftHead(p, rest);
    SiftBelow(rest, p, p);
    var sifted := Sift(rest, p);
    assert PrimesOf(Range(p, h)) == (if IsPrime(p) then [p] else []) + PrimesOf(rest);
    if NoDivBelow(p, p) {
      assert Sift(Range(p, h), p) == [p] + sifted;
      FilterSift(rest, p);
      PipelineCons(p, sifted);
      assert Pipeline([p] + sifted) == [p] + PrimesOf(rest);
    } else {
      assert Sift(Range(p, h), p) == sifted;
      CompositeSkipped(rest, p);
      assert Pipeline(sifted) == PrimesOf(rest);
    }
  }

  lemma PipelineCons(p: nat, ns: seq<nat>)
    requires p > 0 && forall k :: 0 <= k < |ns| ==> ns[k] > 0
    ensures forall k :: 0 <= k < |[p] + ns| ==> ([p] + ns)[k] > 0
    ensures forall k :: 0 <= k < |Filter(p, ns)| ==> Filter(p, ns)[k] > 0
    ensures Pipeline([p] + ns) == [p] + Pipeline(Filter(p, ns))
  {
    FilterPositive(p, ns);
    assert ([p] + ns)[0] == p && ([p] + ns)[1..] == ns;
  }

  /** primes.c prints exactly the primes in [LOW, HIGH), in increasing order. */
  lemma SievePrintsPrimes()
    ensures forall k :: 0 <= k < |Range(LOW, HIGH)| ==> Range(LOW, HIGH)[k] > 0
    ensures Pipeline(Range(LOW, HIGH)) == PrimesOf(Range(LOW, HIGH))
  {
    SiftAll(Range(LOW, HIGH));
    SieveFrom(LOW, HIGH);
  }
}
