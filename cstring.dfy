/** NUL-terminated strings as the user programs see them, and the C library routines they
    call (strlen, strcmp, atoi), with the meanings xv6's user library gives them. */
module CString {
  const NUL: char := '\0'

  predicate HasNul(s: seq<char>)
  {
    NUL in s
  }

  /** The characters before the first NUL: the C string stored in s. */
  function CStr(s: seq<char>): (r: seq<char>)
    ensures NUL !in r && r <= s
    ensures |r| < |s| ==> s[|r|] == NUL
    ensures HasNul(s) <==> |r| < |s|
  {
    if s == [] || s[0] == NUL then [] else [s[0]] + CStr(s[1..])
  }

  /** strlen. */
  function Strlen(s: seq<char>): nat
  {
    |CStr(s)|
  }

  /** A string followed by a NUL (or by nothing) reads back as itself. */
  lemma {:induction false} CStrOf(x: seq<char>, rest: seq<char>)
    requires NUL !in x && (rest == [] || rest[0] == NUL)
    ensures CStr(x + rest) == x
  {
    if x != [] {
      assert (x + rest)[1..] == x[1..] + rest;
      CStrOf(x[1..], rest);
    }
  }

  function Reversed(s: seq<char>): (r: seq<char>)
    ensures |r| == |s|
  {
    if s == [] then [] else Reversed(s[1..]) + [s[0]]
  }

  /** Reversed position by position: the k-th character is the k-th from the end. */
  lemma {:induction false} ReversedAt(s: seq<char>)
    ensures forall k :: 0 <= k < |s| ==> Reversed(s)[k] == s[|s| - 1 - k]
  {
    if s != [] {
      ReversedAt(s[1..]);
    }
  }

  /** A buffer holding t backwards at its front and rest after it. */
  lemma MirrorOf(t: seq<char>, a: seq<char>, rest: seq<char>)
    requires |a| == |t| + |rest|
    requires forall k :: 0 <= k < |t| ==> a[k] == t[|t| - 1 - k]
    requires forall k :: |t| <= k < |a| ==> a[k] == rest[k - |t|]
    ensures a == Reversed(t) + rest
  {
    ReversedAt(t);
    var r := Reversed(t) + rest;
    forall k | 0 <= k < |a| ensures a[k] == r[k] {
      if k < |t| {
        assert r[k] == Reversed(t)[k];
      } else {
        assert r[k] == rest[k - |t|];
      }
    }
    assert a == r;
  }

  /** Reversing keeps which characters occur. */
  lemma ReversedMembers(s: seq<char>)
    ensures forall c :: c in Reversed(s) <==> c in s
  {
    ReversedAt(s);
    forall c | c in s ensures c in Reversed(s) {
      var k :| 0 <= k < |s| && s[k] == c;
      assert Reversed(s)[|s| - 1 - k] == c;
    }
  }

  /** MirrorOf for a slice p[lo..hi] and the old contents s0 of a buffer beyond it. */
  lemma MirrorSlice(p: seq<char>, lo: nat, hi: nat, a: seq<char>, s0: seq<char>)
    requires lo <= hi <= |p| && |a| == |s0| && hi - lo <= |a|
    requires forall k :: 0 <= k < hi - lo ==> a[k] == p[hi - 1 - k]
    requires forall k :: hi - lo <= k < |a| ==> a[k] == s0[k]
    ensures a == Reversed(p[lo..hi]) + s0[hi - lo..]
  {
    var t := p[lo..hi];
    var n := hi - lo;
    var rest := s0[n..];
    forall k | 0 <= k < n ensures a[k] == t[n - 1 - k] {
      assert t[n - 1 - k] == p[hi - 1 - k];
    }
    forall k | n <= k < |a| ensures a[k] == rest[k - n] {
      assert rest[k - n] == s0[k];
    }
    MirrorOf(t, a, rest);
  }

  lemma ReversedTwice(s: seq<char>)
    ensures Reversed(Reversed(s)) == s
  {
    ReversedAt(s);
    ReversedAt(Reversed(s));
    assert forall k :: 0 <= k < |s| ==> Reversed(Reversed(s))[k] == s[k];
  }

  /** What `reverse(s)` leaves in s: the C string reversed, the NUL and what follows it kept. */
  function ReverseC(s: seq<char>): seq<char>
  {
    Reversed(CStr(s)) + s[|CStr(s)|..]
  }

  /** reverse keeps the buffer's length and the string's length, reverses its content, and
      undoes itself. */
  lemma ReverseCProps(s: seq<char>)
    ensures |ReverseC(s)| == |s|
    ensures CStr(ReverseC(s)) == Reversed(CStr(s))
    ensures Strlen(ReverseC(s)) == Strlen(s)
    ensures ReverseC(ReverseC(s)) == s
  {
    ReverseCStr(s);
    ReverseCTwice(s);
  }

  lemma ReverseCTwice(s: seq<char>)
    ensures ReverseC(ReverseC(s)) == s
  {
    var x := CStr(s);
    var rest := s[|x|..];
    var r := ReverseC(s);
    ReverseCStr(s);
    assert r[|x|..] == rest;
    ReversedTwice(x);
    assert s == x + rest;
  }

  /** The string reverse leaves is the reversed string, still followed by the old NUL. */
  lemma ReverseCStr(s: seq<char>)
    ensures |ReverseC(s)| == |s| && CStr(ReverseC(s)) == Reversed(CStr(s))
  {
    var x := CStr(s);
    var rx := Reversed(x);
    ReversedAt(x);
    assert NUL !in rx by {
      forall k | 0 <= k < |rx| ensures rx[k] != NUL { assert rx[k] == x[|x| - 1 - k]; }
    }
    CStrOf(rx, s[|x|..]);
  }

  /** ReverseC position by position: the first Strlen(s) characters mirrored, the rest kept. */
  lemma ReverseCIndex(s: seq<char>)
    ensures Strlen(s) <= |s| && |ReverseC(s)| == |s|
    ensures forall k :: 0 <= k < Strlen(s) ==> ReverseC(s)[k] == s[Strlen(s) - 1 - k]
    ensures forall k :: Strlen(s) <= k < |s| ==> ReverseC(s)[k] == s[k]
  {
    ReversedAt(CStr(s));
  }

  /** reverse on a string x followed by its NUL. */
  lemma ReverseCOf(x: seq<char>, rest: seq<char>)
    requires NUL !in x && rest != [] && rest[0] == NUL
    ensures ReverseC(x + rest) == Reversed(x) + rest
  {
    CStrOf(x, rest);
    assert (x + rest)[|x|..] == rest;
  }

  /** Writing c just after a prefix x of a buffer. */
  lemma WriteAfter(x: seq<char>, rest: seq<char>, c: char)
    requires rest != []
    ensures (x + rest)[|x| := c] == (x + [c]) + rest[1..]
    ensures (x + rest)[|x| := c] == x + ([c] + rest[1..])
  {
  }

  lemma {:induction false} CStrPadded(s: seq<char>)
    ensures CStr(s + [NUL]) == CStr(s)
  {
    if s != [] {
      assert (s + [NUL])[1..] == s[1..] + [NUL];
      CStrPadded(s[1..]);
    }
  }

  /** The string in a buffer is the string in any prefix holding a NUL. */
  lemma CStrPrefix(s: seq<char>, n: nat)
    requires n <= |s| && NUL in s[..n]
    ensures CStr(s[..n]) == CStr(s)
  {
    var x := CStr(s[..n]);
    assert s[|x|] == s[..n][|x|] == NUL;
    assert s == x + s[|x|..];
    CStrOf(x, s[|x|..]);
  }

  lemma {:induction false} CStrAppend(a: seq<char>, b: seq<char>)
    requires NUL !in a
    ensures CStr(a + b) == a + CStr(b)
  {
    if a != [] {
      assert (a + b)[0] == a[0] != NUL && (a + b)[1..] == a[1..] + b;
      assert NUL !in a[1..];
      CStrAppend(a[1..], b);
    } else {
      assert a + b == b;
    }
  }

  /** strcmp (xv6 ulib.c): compare up to the first difference or NUL; the result is the
      difference of the characters there. */
  function Strcmp(a: seq<char>, b: seq<char>): (r: int)
    requires HasNul(a) && HasNul(b)
    ensures r == 0 <==> CStr(a) == CStr(b)
  {
    if a[0] != NUL && a[0] == b[0] then
      assert a == [a[0]] + a[1..] && b == [b[0]] + b[1..];
      Strcmp(a[1..], b[1..])
    else a[0] as int - b[0] as int
  }

  predicate IsDigit(c: char)
  {
    '0' <= c <= '9'
  }

  function DigitValue(c: char): nat
    requires IsDigit(c)
  {
    c as nat - '0' as nat
  }

  function DigitChar(d: nat): (c: char)
    requires d < 10
    ensures IsDigit(c) && DigitValue(c) == d
  {
    ('0' as nat + d) as char
  }

  /** The leading run of decimal digits. */
  function DigitRun(s: seq<char>): (r: seq<char>)
    ensures r <= s && forall k :: 0 <= k < |r| ==> IsDigit(r[k])
    ensures |r| < |s| ==> !IsDigit(s[|r|])
  {
    if s == [] || !IsDigit(s[0]) then [] else [s[0]] + DigitRun(s[1..])
  }

  /** The number a string of digits denotes, most significant first. */
  function Value(ds: seq<char>): nat
    requires forall k :: 0 <= k < |ds| ==> IsDigit(ds[k])
  {
    if ds == [] then 0 else Value(ds[..|ds| - 1]) * 10 + DigitValue(ds[|ds| - 1])
  }

  /** atoi (xv6 ulib.c): the value of the leading digits; no sign, no white space. */
  function Atoi(s: seq<char>): nat
  {
    Value(DigitRun(s))
  }

  /** The decimal digits of m, most significant first, without leading zeros. */
  function Digits(m: nat): (r: seq<char>)
    ensures 1 <= |r| && forall k :: 0 <= k < |r| ==> IsDigit(r[k])
    ensures DigitValue(r[0]) == 0 ==> m == 0
  {
    if m < 10 then [DigitChar(m)] else Digits(m / 10) + [DigitChar(m % 10)]
  }

  lemma {:induction false} DigitsValue(m: nat)
    ensures Value(Digits(m)) == m
  {
    if m >= 10 {
      DigitsValue(m / 10);
      assert Digits(m)[..|Digits(m)| - 1] == Digits(m / 10);
    }
  }

  lemma {:induction false} DigitRunOf(ds: seq<char>, rest: seq<char>)
    requires forall k :: 0 <= k < |ds| ==> IsDigit(ds[k])
    requires rest == [] || !IsDigit(rest[0])
    ensures DigitRun(ds + rest) == ds
  {
    if ds != [] {
      assert (ds + rest)[1..] == ds[1..] + rest;
      DigitRunOf(ds[1..], rest);
    }
  }

  /** atoi reads back the digits of m when a non-digit (a NUL, say) follows them. */
  lemma AtoiDigits(m: nat, rest: seq<char>)
    requires rest == [] || !IsDigit(rest[0])
    ensures Atoi(Digits(m) + rest) == m
  {
    DigitRunOf(Digits(m), rest);
    DigitsValue(m);
  }
}
