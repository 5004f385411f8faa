/** FixedString<N>: a NUL-padded character buffer of N bytes whose last byte is always NUL,
    read back as the characters before its first NUL. */
module FixedStrings {

  const NUL: char := '\0'

  function Min(a: nat, b: nat): nat {
    if a <= b then a else b
  }

  /** The characters of `s` before its first NUL: what a string_view built from the buffer sees. */
  function CStr(s: seq<char>): (r: seq<char>)
    ensures |r| <= |s| && r == s[..|r|]
    ensures NUL !in r
    ensures |r| < |s| ==> s[|r|] == NUL
  {
    if s == [] || s[0] == NUL then [] else [s[0]] + CStr(s[1..])
  }

  /** The n-byte buffer that `assign(s)` leaves behind: the first min(|s|, n - 1) characters of
      `s`, then NUL bytes up to the end. */
  function Image(s: string, n: nat): (d: seq<char>)
    requires n > 0
  {
    s[..Min(|s|, n - 1)] + seq(n - Min(|s|, n - 1), _ => NUL)
  }

  /** The string a FixedString<n> holds after being assigned `s`. */
  function Fit(s: string, n: nat): (r: string)
    requires n > 0
  {
    CStr(s[..Min(|s|, n - 1)])
  }

  /** A buffer's view is found by the string_view scan: the characters up to the first NUL. */
  lemma {:induction false} CStrOfPadded(p: seq<char>, k: nat)
    ensures CStr(p + seq(k, _ => NUL)) == CStr(p)
  {
    if p == [] {
      if k > 0 {
        assert (p + seq(k, _ => NUL))[0] == NUL;
      }
    } else if p[0] == NUL {
      assert (p + seq(k, _ => NUL))[0] == NUL;
    } else {
      assert (p + seq(k, _ => NUL))[1..] == p[1..] + seq(k, _ => NUL);
      CStrOfPadded(p[1..], k);
    }
  }

  /** The buffer that assign leaves has exactly n bytes, keeps the copied prefix, is zero past it,
      ends in NUL, and reads back as Fit(s, n). */
  lemma ImageShape(s: string, n: nat)
    requires n > 0
    ensures |Image(s, n)| == n
    ensures Image(s, n)[..Min(|s|, n - 1)] == s[..Min(|s|, n - 1)]
    ensures forall i | Min(|s|, n - 1) <= i < n :: Image(s, n)[i] == NUL
    ensures Image(s, n)[n - 1] == NUL
    ensures CStr(Image(s, n)) == Fit(s, n)
  {
    CStrOfPadded(s[..Min(|s|, n - 1)], n - Min(|s|, n - 1));
  }

  /** A stored string never exceeds n - 1 characters and is a prefix of what was assigned;
      a NUL-free string that fits is kept whole. */
  lemma FitBounds(s: string, n: nat)
    requires n > 0
    ensures |Fit(s, n)| <= n - 1
    ensures Fit(s, n) == s[..|Fit(s, n)|]
    ensures NUL !in s && |s| <= n - 1 ==> Fit(s, n) == s
  {
    if NUL !in s && |s| <= n - 1 {
      NulFreeCStr(s);
      assert s[..Min(|s|, n - 1)] == s;
    }
  }

  lemma {:induction false} NulFreeCStr(s: seq<char>)
    requires NUL !in s
    ensures CStr(s) == s
  {
    if s != [] {
      assert NUL !in s[1..];
      NulFreeCStr(s[1..]);
    }
  }

  class FixedString {
    /** The template argument N: the buffer size in bytes, terminator included. */
    const n: nat
    var data: array<char>

    ghost predicate Valid()
      reads this, data
    {
      n > 0 && data.Length == n && data[n - 1] == NUL
    }

    /** The default constructor clears the whole buffer. */
    constructor (n: nat)
      requires n > 0
      ensures Valid() && fresh(data)
      ensures data[..] == seq(n, _ => NUL)
      ensures Empty() && Length() == 0
    {
      this.n := n;
      data := new char[n](_ => NUL);
    }

    /** The constructor from a string assigns it. */
    constructor FromString(n: nat, s: string)
      requires n > 0
      ensures Valid() && fresh(data)
      ensures data[..] == Image(s, n) && View() == Fit(s, n)
    {
      this.n := n;
      data := new char[n](_ => NUL);
      new;
      Assign(s);
    }

    /** assign / operator=: clear the buffer (memset), then copy min(|s|, N - 1) characters (memcpy). */
    method Assign(s: string)
      requires n > 0 && data.Length == n
      modifies data
      ensures Valid()
      ensures data[..] == Image(s, n)
      ensures View() == Fit(s, n)
    {
      var i := 0;
      while i < n
        invariant 0 <= i <= n
        invariant forall j | 0 <= j < i :: data[j] == NUL
      {
        data[i] := NUL;
        i := i + 1;
      }
      var copyLen := Min(|s|, n - 1);
      i := 0;
      while i < copyLen
        invariant 0 <= i <= copyLen
        invariant forall j | 0 <= j < i :: data[j] == s[j]
        invariant forall j | i <= j < n :: data[j] == NUL
      {
        data[i] := s[i];
        i := i + 1;
      }
      ImageShape(s, n);
      assert data[..] == Image(s, n);
    }

    /** operator string_view: the characters before the first NUL. */
    function View(): (r: string)
      reads this, data
      requires Valid()
      ensures |r| <= n - 1
      ensures r == data[..|r|] && data[|r|] == NUL
    {
      CStr(data[..])
    }

    /** length() / size(): the length of the view. */
    function Length(): (len: nat)
      reads this, data
      requires Valid()
      ensures len <= n - 1
      ensures data[len] == NUL && forall j | 0 <= j < len :: data[j] != NUL
    {
      |View()|
    }

    /** empty(): the first byte is NUL. */
    function Empty(): (e: bool)
      reads this, data
      requires Valid()
      ensures e <==> Length() == 0
    {
      data[0] == NUL
    }

    /** capacity(): the template argument N. */
    function Capacity(): (c: nat)
      reads this, data
      requires Valid()
      ensures c == data.Length && c > Length()
    {
      n
    }

    /** operator+: the view followed by `str`. */
    function Plus(str: string): (r: string)
      reads this, data
      requires Valid()
      ensures |r| == Length() + |str|
      ensures r[..Length()] == View() && r[Length()..] == str
    {
      View() + str
    }
  }
}
